/** The SSG index object: its adjacency lists, entry points and packed search
    buffer, and the operations of IndexSSG over them. Point coordinates are
    not modelled; every distance the index computes comes from `dist` (between
    two stored points) or from a per-query `qdist` (from the query to a
    stored point). */
module Index {
  import opened Pool
  import opened Prune
  import opened Graphs
  import opened Formats
  import BestFirst
  import opened EdgeRows
  import opened Expand

  // ---------------------------------------------------------------------------
  // Two-hop candidates of a stored node

  /** The most ids get_neighbors(q) keeps: its tests `pool.size() >= L` stop
      it after L ids, and after the first one when L = 0. */
  function Cap(L: nat): nat {
    if L == 0 then 1 else L
  }

  /** At most L ids two hops from q, in the order get_neighbors meets them,
      each with its distance to q and its expansion flag set. With L = 0 the
      scan stops at its first new id and, in any case, after the list of q's
      first neighbour: at most one id, from that list. */
  function CandidatePool(g: seq<seq<nat>>, q: nat, L: nat, dist: (nat, nat) -> nat): (pool: seq<Neighbor>)
    requires ValidGraph(g, |g|) && q < |g|
    ensures |pool| <= L || (L == 0 && |pool| <= 1)
  {
    var th := if L == 0 then FirstHop(g, q) else TwoHop(g, q);
    var n := if |th| <= Cap(L) then |th| else Cap(L);
    seq(n, j requires 0 <= j < n => Neighbor(th[j], dist(q, th[j]), true))
  }

  /** The candidate pool of q holds distinct nodes other than q, each a
      neighbour of a neighbour of q, scored by its distance to q; when it is
      shorter than L it holds every such node. With L = 0 it is exactly the
      first id other than q in the list of q's first neighbour, when there is
      one, and empty otherwise. */
  lemma CandidatePoolShape(g: seq<seq<nat>>, q: nat, L: nat, dist: (nat, nat) -> nat)
    requires ValidGraph(g, |g|) && q < |g|
    ensures var pool := CandidatePool(g, q, L, dist);
            && Distinct(NeighborIds(pool))
            && (forall j :: 0 <= j < |pool| ==>
                  && pool[j].id != q
                  && (exists nid :: nid in g[q] && pool[j].id in g[nid])
                  && pool[j].distance == dist(q, pool[j].id)
                  && pool[j].flag)
            && (|pool| < L ==> forall nid, x :: nid in g[q] && x in g[nid] && x != q ==> x in NeighborIds(pool))
            && (L == 0 ==> forall x :: FirstOther(g, q, x) <==> pool == [Neighbor(x, dist(q, x), true)])
  {
    var pool := CandidatePool(g, q, L, dist);
    if L == 0 {
      CandidatePoolFirst(g, q, dist);
    } else {
      var th := TwoHop(g, q);
      TwoHopMembers(g, q, q);
      assert NeighborIds(pool) == th[..|pool|];
      forall j | 0 <= j < |pool|
        ensures pool[j].id != q && exists nid :: nid in g[q] && pool[j].id in g[nid]
      {
        assert pool[j].id == th[j];
        TwoHopMembers(g, q, th[j]);
      }
      if |pool| < L {
        assert NeighborIds(pool) == th;
        forall nid, x | nid in g[q] && x in g[nid] && x != q
          ensures x in NeighborIds(pool)
        {
          TwoHopMembers(g, q, x);
        }
      }
    }
  }

  /** With L = 0 the candidate pool is the first id other than q in the
      list of q's first neighbour, when there is one, and empty otherwise. */
  lemma CandidatePoolFirst(g: seq<seq<nat>>, q: nat, dist: (nat, nat) -> nat)
    requires ValidGraph(g, |g|) && q < |g|
    ensures var pool := CandidatePool(g, q, 0, dist);
            && |pool| <= 1
            && (|pool| == 1 ==> pool[0].id != q && g[q][0] in g[q] && pool[0].id in g[g[q][0]]
                                && pool[0].distance == dist(q, pool[0].id) && pool[0].flag)
            && forall x :: FirstOther(g, q, x) <==> pool == [Neighbor(x, dist(q, x), true)]
  {
    var pool := CandidatePool(g, q, 0, dist);
    var th := FirstHop(g, q);
    assert |pool| == if |th| >= 1 then 1 else 0;
    assert |th| >= 1 ==> pool[0] == Neighbor(th[0], dist(q, th[0]), true);
    forall x ensures FirstOther(g, q, x) <==> pool == [Neighbor(x, dist(q, x), true)] {
      FirstHopFirst(g, q, x);
    }
    if |pool| == 1 {
      assert pool[0].id in Dedup({q}, g[g[q][0]]);
    }
  }

  /** Where the two-hop scan of get_neighbors can stop: it has read a prefix
      of the concatenated neighbour lists and either filled L slots or read
      everything. Its pool is then the candidate pool. */
  lemma ScanStopped(g: seq<seq<nat>>, q: nat, L: nat, dist: (nat, nat) -> nat,
                    scanned: seq<nat>, pool: seq<Neighbor>)
    requires ValidGraph(g, |g|) && q < |g|
    requires scanned <= Flatten(g, g[q])
    requires NeighborIds(pool) == Dedup({q}, scanned)
    requires forall j :: 0 <= j < |pool| ==> pool[j] == Neighbor(pool[j].id, dist(q, pool[j].id), true)
    requires L >= 1
    requires |pool| == L || (scanned == Flatten(g, g[q]) && |pool| <= L)
    ensures pool == CandidatePool(g, q, L, dist)
  {
    var th := TwoHop(g, q);
    DedupPrefix({q}, scanned, Flatten(g, g[q]));
    var c := CandidatePool(g, q, L, dist);
    assert NeighborIds(pool) <= th;
    assert |c| == |pool|;
    forall j | 0 <= j < |pool| ensures pool[j] == c[j] {
      assert pool[j].id == th[j];
    }
  }

  /** Where the scan with L = 0 stops: within the list of q's first
      neighbour, at its first new id or at the end of that list. */
  lemma ScanStoppedFirst(g: seq<seq<nat>>, q: nat, dist: (nat, nat) -> nat, scanned: seq<nat>, pool: seq<Neighbor>)
    requires ValidGraph(g, |g|) && q < |g|
    requires |g[q]| == 0 ==> scanned == []
    requires |g[q]| > 0 ==> scanned <= g[g[q][0]]
    requires NeighborIds(pool) == Dedup({q}, scanned)
    requires forall j :: 0 <= j < |pool| ==> pool[j] == Neighbor(pool[j].id, dist(q, pool[j].id), true)
    requires |pool| == 1 || (|pool| == 0 && (|g[q]| > 0 ==> scanned == g[g[q][0]]))
    ensures pool == CandidatePool(g, q, 0, dist)
  {
    var th := FirstHop(g, q);
    if |g[q]| > 0 {
      DedupPrefix({q}, scanned, g[g[q][0]]);
    }
    var c := CandidatePool(g, q, 0, dist);
    assert NeighborIds(pool) <= th;
    assert |c| == |pool|;
    forall j | 0 <= j < |pool| ensures pool[j] == c[j] {
      assert pool[j].id == th[j];
    }
  }

  /** The lists of ns[..i + 1] are those of ns[..i] followed by the list of ns[i],
      and lie at the front of the lists of ns. */
  lemma FlattenStep(g: seq<seq<nat>>, ns: seq<nat>, i: nat)
    requires forall k :: 0 <= k < |ns| ==> ns[k] < |g|
    requires i < |ns|
    ensures Flatten(g, ns[..i + 1]) == Flatten(g, ns[..i]) + g[ns[i]]
    ensures Flatten(g, ns[..i + 1]) <= Flatten(g, ns)
  {
    assert ns[..i + 1][..i] == ns[..i];
    FlattenPrefix(g, ns, i + 1);
  }

  // ---------------------------------------------------------------------------
  // The index

  class IndexSSG {
    /** Number of stored points. */
    const nd: nat
    /** Number of coordinates per point. */
    const dim: nat
    /** Squared L2 distance between two stored points. */
    const dist: (nat, nat) -> nat

    /** Slot count per node in the packed buffer (R after a build). */
    var width: nat
    /** Entry points chosen by the connectivity pass, used as search seeds. */
    var eps: seq<nat>
    /** Navigating node chosen by init_graph. */
    var ep: nat
    /** final_graph_: one adjacency list per node. */
    var finalGraph: seq<seq<nat>>
    /** opt_graph_: the packed per-node buffer, as 32-bit words. */
    var optGraph: array<Word>

    constructor (dimension: nat, n: nat, distance: (nat, nat) -> nat)
      ensures nd == n && dim == dimension && dist == distance
      ensures finalGraph == [] && eps == [] && width == 0 && optGraph.Length == 0
    {
      nd := n;
      dim := dimension;
      dist := distance;
      width := 0;
      eps := [];
      ep := 0;
      finalGraph := [];
      optGraph := new Word[0];
    }

    // -------------------------------------------------------------------------
    // Files

    /** Writes the index file: width, the entry-point count and ids, then
        per node its degree and ids. */
    method Save() returns (words: seq<Word>)
      requires |finalGraph| == nd
      requires width < WordLimit && |eps| < WordLimit && forall i :: 0 <= i < |eps| ==> eps[i] < WordLimit
      requires FitsWords(finalGraph)
      ensures words == EncodeIndex(width as Word, eps, finalGraph)
    {
      var epWords: seq<Word> := eps;
      words := [width as Word, |eps| as Word] + epWords;
      var i := 0;
      while i < nd
        invariant 0 <= i <= nd
        invariant FitsWords(finalGraph[..i])
        invariant words == [width as Word, |eps| as Word] + epWords + EncodeLists(finalGraph[..i])
      {
        var gk := |finalGraph[i]| as Word;
        var ids: seq<Word> := finalGraph[i];
        assert finalGraph[..i + 1] == finalGraph[..i] + [finalGraph[i]];
        EncodeListsSnoc(finalGraph[..i], finalGraph[i]);
        words := words + [gk] + ids;
        i := i + 1;
      }
      assert finalGraph[..nd] == finalGraph;
    }

    /** Reads an index file: width and n_ep (0 when the stream ends first),
        eps_ resized to n_ep and overwritten by the entry points the stream
        holds, and, after a complete header, the records appended to the
        lists. */
    method Load(words: seq<Word>)
      modifies this
      ensures width == LoadIndex(old(width), old(eps), words).width
      ensures eps == LoadIndex(old(width), old(eps), words).eps
      ensures finalGraph == old(finalGraph) + LoadIndex(old(width), old(eps), words).lists
      ensures ep == old(ep) && optGraph == old(optGraph)
    {
      if |words| >= 1 {
        width := words[0];
      }
      var nEp: nat := 0;
      if |words| >= 2 {
        nEp := words[1];
      }
      eps := Resized(eps, nEp);
      if |words| >= 2 {
        var got := if |words| >= 2 + nEp then nEp else |words| - 2;
        eps := words[2..2 + got] + eps[got..];
        if got == nEp {
          finalGraph := ReadRecords(words, 2 + nEp, finalGraph);
        }
      }
    }

    /** Reads a k-NN graph file: as many whole records as the file holds,
        each one ignored word followed by k ids, become the lists. */
    method LoadNNGraph(words: seq<Word>)
      requires KnnHeaderOk(words)
      modifies this`finalGraph
      ensures finalGraph == DecodeKnn(words)
    {
      if words == [] {
        finalGraph := [];
        return;
      }
      var k: nat := words[0];
      var num := (4 * |words|) / (k + 1) / 4;
      KnnCountWhole(words);
      finalGraph := if |finalGraph| >= num then finalGraph[..num] else finalGraph + seq(num - |finalGraph|, _ => []);
      var pos := 0;
      var i := 0;
      while i < num
        invariant 0 <= i <= num && |finalGraph| == num
        invariant pos == Offset(i, k + 1)
        invariant forall j :: 0 <= j < i ==> finalGraph[j] == KnnRecord(words, j)
      {
        RecordFits(i, k + 1, |words|);
        pos := pos + 1;
        finalGraph := finalGraph[i := words[pos .. pos + k]];
        pos := pos + k;
        OffsetShift(i, k + 1);
        i := i + 1;
      }
    }

    // -------------------------------------------------------------------------
    // Candidates and search

    /** get_neighbors(q): scans the lists of q's neighbours in order, keeping
        each id not yet seen and not q, until L ids are kept. */
    method GetNeighbors(q: nat, L: nat) returns (pool: seq<Neighbor>)
      requires ValidGraph(finalGraph, nd) && q < nd
      ensures pool == CandidatePool(finalGraph, q, L, dist)
    {
      pool := Candidates(finalGraph, q, L, nd, dist);
    }

    /** init_graph: searches from the given seeds towards the data centroid
        (its distances are qdist) and takes the first entry of the final
        pool, the closest node found, as the navigating node. The pool and
        the nodes the search scored are returned as ghosts. */
    method InitGraph(qdist: nat -> nat, L: nat, seeds: seq<nat>)
      returns (ghost pool: seq<Neighbor>, ghost scored: seq<Neighbor>)
      requires ValidGraph(finalGraph, nd)
      requires 1 <= L == |seeds| && forall i :: 0 <= i < L ==> seeds[i] < nd
      modifies this`ep
      ensures |pool| == L && BestFirst.Outcome(pool, scored, finalGraph, seeds, qdist)
      ensures ep == pool[0].id
      ensures ep < nd
      ensures forall i :: 0 <= i < L ==> qdist(ep) <= qdist(seeds[i])
      ensures forall x :: x in finalGraph[ep] ==> qdist(ep) <= qdist(x)
    {
      var tmp, fullset := BestFirst.Search(finalGraph, seeds, qdist, L);
      ep := tmp[0].id;
      ClosestFound(tmp, finalGraph, seeds, qdist);
      pool, scored := tmp, fullset;
    }

    /** Search: L seeds, the entry points first, then the K closest ids of
        the final pool. */
    method Search(qdist: nat -> nat, L: nat, K: nat, randomIds: seq<nat>)
      returns (indices: seq<nat>, ghost pool: seq<Neighbor>, ghost scored: seq<Neighbor>)
      requires ValidGraph(finalGraph, nd)
      requires |eps| < L && K <= L
      requires |randomIds| == L && forall i :: 0 <= i < L ==> randomIds[i] < nd
      requires forall i :: 0 <= i < |eps| ==> eps[i] < nd
      ensures SearchResult(indices, pool, scored, finalGraph, SearchSeeds(eps, randomIds), qdist, nd, L, K)
      ensures Answer(indices, finalGraph, SearchSeeds(eps, randomIds), scored, qdist, K)
    {
      var init := SearchSeeds(eps, randomIds);
      var ret, fullset := BestFirst.Search(finalGraph, init, qdist, L);
      pool, scored := ret, fullset;
      indices := FirstIds(ret, K);
      AnswerOfResult(indices, pool, scored, finalGraph, init, qdist, nd, L, K);
    }

    /** SearchWithOptGraph: the same search, reading each node's neighbours
        from the packed buffer. */
    method SearchWithOptGraph(qdist: nat -> nat, L: nat, K: nat, randomIds: seq<nat>)
      returns (indices: seq<nat>, ghost pool: seq<Neighbor>, ghost scored: seq<Neighbor>)
      requires PackedGraphOk(optGraph[..], nd, dim, width)
      requires |eps| < L && K <= L
      requires |randomIds| == L && forall i :: 0 <= i < L ==> randomIds[i] < nd
      requires forall i :: 0 <= i < |eps| ==> eps[i] < nd
      ensures SearchResult(indices, pool, scored, PackedLists(optGraph[..], nd, dim, width), SearchSeeds(eps, randomIds), qdist, nd, L, K)
      ensures Answer(indices, PackedLists(optGraph[..], nd, dim, width), SearchSeeds(eps, randomIds), scored, qdist, K)
    {
      var adj := PackedLists(optGraph[..], nd, dim, width);
      var init := SearchSeeds(eps, randomIds);
      var ret, fullset := BestFirst.Search(adj, init, qdist, L);
      pool, scored := ret, fullset;
      indices := FirstIds(ret, K);
      AnswerOfResult(indices, pool, scored, adj, init, qdist, nd, L, K);
    }

    /** OptimizeGraph: lays out node i's vector words (norm, then
        coordinates), degree and ids at block i of a fresh buffer, and frees
        the lists. */
    method OptimizeGraph(vecs: seq<seq<Word>>)
      requires |vecs| == nd && forall i :: 0 <= i < nd ==> |vecs[i]| == dim + 1
      requires ValidGraph(finalGraph, nd) && FitsWords(finalGraph)
      requires width < WordLimit && DegreeBounded(finalGraph, width)
      modifies this
      ensures fresh(optGraph)
      ensures PackInput(vecs, old(finalGraph), dim, width)
      ensures optGraph[..] == Pack(vecs, old(finalGraph), dim, width)
      ensures PackedGraphOk(optGraph[..], nd, dim, width)
      ensures finalGraph == []
      ensures width == old(width) && eps == old(eps) && ep == old(ep)
    {
      var g := finalGraph;
      assert PackInput(vecs, g, dim, width);
      optGraph := PackNodes(vecs, g, dim, width);
      finalGraph := [];
      PackedGraphValid(vecs, g, dim, width);
    }

    // -------------------------------------------------------------------------
    // Construction

    /** sync_prune: extends q's candidate pool with q's current neighbours it
        lacks, sorts the candidates by distance, selects greedily from the
        closest one that is not q, and writes the selection into row q. */
    method SyncPrune(q: nat, pool: seq<Neighbor>, range: nat, cut: array2<SimpleNeighbor>,
                     occludes: (int, int, nat) -> bool)
      requires ValidGraph(finalGraph, nd) && q < nd
      requires cut.Length0 == nd && cut.Length1 == range >= 1
      requires forall i :: 0 <= i < |pool| ==> pool[i].id < nd && pool[i].distance >= 0
      requires HasOtherThan(ExtendedPool(pool, finalGraph[q], q, dist), q)
      modifies this`width, cut
      ensures width == range
      ensures Row(cut, q) == WriteRow(old(Row(cut, q)), PruneSelection(pool, finalGraph[q], q, range, dist, occludes))
      ensures RowOk(Row(cut, q), nd)
      ensures forall i :: 0 <= i < nd && i != q ==> Row(cut, i) == old(Row(cut, i))
    {
      width := range;
      PruneInto(finalGraph, q, pool, range, nd, cut, dist, occludes);
    }

    /** Link: prunes every node's two-hop candidate pool into its row, then
        reciprocates every row's edges, node by node. */
    method Link(L: nat, range: nat, cut: array2<SimpleNeighbor>, occludes: (int, int, nat) -> bool)
      requires ValidGraph(finalGraph, nd)
      requires cut.Length0 == nd && cut.Length1 == range >= 1
      requires NoLoneNode(finalGraph)
      modifies this`width, cut
      ensures nd > 0 ==> width == range
      ensures Rows(cut) == LinkRows(old(Rows(cut)), finalGraph, L, range, dist, occludes)
      ensures RowsOk(Rows(cut), nd, range)
    {
      PruneRows(finalGraph, L, range, nd, cut, dist, occludes);
      if nd > 0 {
        width := range;
      }
      InsertAllRows(cut, range, nd, dist, occludes);
    }

    /** Build: loads the k-NN graph, picks the navigating node from the
        given seeds (centroidDist is the distance to the data centroid),
        prunes and reciprocates into a fresh buffer of range slots per node,
        copies the rows back into lists, and runs the connectivity pass from
        nTry roots of the shuffled ids perm. blank is what the fresh buffer
        held before Link; pool and scored are init_graph's final search pool,
        whose first entry is the navigating node, and the nodes it scored. */
    method Build(knn: seq<Word>, centroidDist: nat -> nat, L: nat, range: nat, seeds: seq<nat>,
                 perm: seq<nat>, nTry: nat, occludes: (int, int, nat) -> bool)
      returns (ghost blank: seq<seq<SimpleNeighbor>>, ghost pool: seq<Neighbor>, ghost scored: seq<Neighbor>)
      requires KnnHeaderOk(knn) && ValidGraph(DecodeKnn(knn), nd) && NoLoneNode(DecodeKnn(knn))
      requires 1 <= L == |seeds| && forall i :: 0 <= i < L ==> seeds[i] < nd
      requires range >= 1
      requires |perm| == nd && nTry <= nd && forall i :: 0 <= i < nd ==> perm[i] < nd
      requires forall i :: 0 <= i < |eps| ==> eps[i] < nd
      modifies this
      ensures |pool| == L && BestFirst.Outcome(pool, scored, DecodeKnn(knn), seeds, centroidDist)
      ensures ep == pool[0].id
      ensures ep < nd
      ensures forall i :: 0 <= i < L ==> centroidDist(ep) <= centroidDist(seeds[i])
      ensures forall x :: x in DecodeKnn(knn)[ep] ==> centroidDist(ep) <= centroidDist(x)
      ensures nd > 0 ==> width == range
      ensures eps == old(eps) + perm[..nTry]
      ensures |blank| == nd && forall i :: 0 <= i < nd ==> |blank[i]| == range
      ensures GrownWithin(RowLists(LinkRows(blank, DecodeKnn(knn), L, range, dist, occludes)), finalGraph, range)
      ensures ValidGraph(finalGraph, nd) && DegreeBounded(finalGraph, range)
      ensures forall i :: 0 <= i < nd ==> |finalGraph[i]| >= 1
      ensures forall t :: 0 <= t < nTry ==> Repaired(finalGraph, eps[t], range)
      ensures forall t, v :: 0 <= t < nTry && |finalGraph[eps[t]]| < range && 0 <= v < nd ==> Reachable(finalGraph, eps[t], v)
    {
      LoadNNGraph(knn);
      pool, scored := InitGraph(centroidDist, L, seeds);
      var cut := new SimpleNeighbor[nd, range];
      blank := Rows(cut);
      Link(L, range, cut, occludes);
      Finish(range, cut, perm, nTry);
    }

    /** The end of Build once Link has filled the rows: copies them back into
        lists and runs the connectivity pass. */
    method Finish(range: nat, cut: array2<SimpleNeighbor>, perm: seq<nat>, nTry: nat)
      requires cut.Length0 == nd && cut.Length1 == range >= 1 && RowsOk(Rows(cut), nd, range)
      requires |perm| == nd && nTry <= nd && forall i :: 0 <= i < nd ==> perm[i] < nd
      requires forall i :: 0 <= i < |eps| ==> eps[i] < nd
      modifies this`eps, this`finalGraph
      ensures eps == old(eps) + perm[..nTry]
      ensures GrownWithin(RowLists(Rows(cut)), finalGraph, range)
      ensures ValidGraph(finalGraph, nd) && DegreeBounded(finalGraph, range)
      ensures forall i :: 0 <= i < nd ==> |finalGraph[i]| >= 1
      ensures forall t :: 0 <= t < nTry ==> Repaired(finalGraph, eps[t], range)
      ensures forall t, v :: 0 <= t < nTry && |finalGraph[eps[t]]| < range && 0 <= v < nd ==> Reachable(finalGraph, eps[t], v)
    {
      ghost var linked := Rows(cut);
      ListsFromRows(range, cut);
      forall i | 0 <= i < nd
        ensures finalGraph[i] == RowList(linked[i])
      {
        BuiltListAgrees(linked[i]);
      }
      assert finalGraph == RowLists(linked);
      RowListsShape(linked, nd, range);
      DfsExpand(perm, nTry, range);
    }

    /** The copy of every row into final_graph_ at the end of Build, as
        written. */
    method ListsFromRows(range: nat, cut: array2<SimpleNeighbor>)
      requires cut.Length0 == nd && cut.Length1 == range >= 1
      modifies this`finalGraph
      ensures |finalGraph| == nd
      ensures forall i :: 0 <= i < nd ==> finalGraph[i] == BuiltListAsWritten(Row(cut, i))
    {
      finalGraph := if |finalGraph| >= nd then finalGraph[..nd] else finalGraph + seq(nd - |finalGraph|, _ => []);
      var i := 0;
      while i < nd
        invariant 0 <= i <= nd && |finalGraph| == nd
        invariant forall j :: 0 <= j < i ==> finalGraph[j] == BuiltListAsWritten(Row(cut, j))
      {
        var list := RowToList(cut, i);
        finalGraph := finalGraph[i := list];
        i := i + 1;
      }
    }

    /** DFS_expand: appends the first nTry ids of perm to the entry points,
        then, from each of the first nTry entry points in turn, links every
        node the root does not reach into the part it does. */
    method DfsExpand(perm: seq<nat>, nTry: nat, range: nat)
      requires ValidGraph(finalGraph, nd)
      requires |perm| == nd && nTry <= nd && forall i :: 0 <= i < nd ==> perm[i] < nd
      requires forall i :: 0 <= i < |eps| ==> eps[i] < nd
      modifies this`eps, this`finalGraph
      ensures eps == old(eps) + perm[..nTry]
      ensures Distinct(perm) ==> Distinct(eps[|old(eps)|..])
      ensures ValidGraph(finalGraph, nd) && GrownWithin(old(finalGraph), finalGraph, range)
      ensures forall t :: 0 <= t < nTry ==> Repaired(finalGraph, eps[t], range)
      ensures forall t, v :: 0 <= t < nTry && |finalGraph[eps[t]]| < range && 0 <= v < nd ==> Reachable(finalGraph, eps[t], v)
    {
      var i := 0;
      while i < nTry
        invariant 0 <= i <= nTry && eps == old(eps) + perm[..i]
        invariant finalGraph == old(finalGraph)
      {
        assert perm[..i + 1] == perm[..i] + [perm[i]];
        eps := eps + [perm[i]];
        i := i + 1;
      }
      ghost var g0 := finalGraph;
      i := 0;
      while i < nTry
        invariant 0 <= i <= nTry && eps == old(eps) + perm[..nTry]
        invariant ValidGraph(finalGraph, nd) && GrownWithin(g0, finalGraph, range)
        invariant forall t :: 0 <= t < i ==> Repaired(finalGraph, eps[t], range)
      {
        var root := eps[i];
        ghost var before := finalGraph;
        var g := ExpandFromRoot(finalGraph, root, range);
        GrownTrans(g0, before, g, range);
        forall t | 0 <= t < i ensures Repaired(g, eps[t], range) {
          RepairedGrown(before, g, eps[t], range);
        }
        finalGraph := g;
        i := i + 1;
      }
      assert eps[|old(eps)|..] == perm[..nTry];
      forall t | 0 <= t < nTry && |finalGraph[eps[t]]| < range
        ensures forall v :: 0 <= v < nd ==> Reachable(finalGraph, eps[t], v)
      {
        RepairedRoom(finalGraph, eps[t], range);
      }
    }
  }

  /** The record loop of Load from word pos0 on: each record, a degree k
      and k ids (zero-padded when the file ends early), is appended to g0. */
  method ReadRecords(words: seq<Word>, pos0: nat, g0: seq<seq<nat>>) returns (g: seq<seq<nat>>)
    requires pos0 <= |words|
    ensures g == g0 + DecodeLists(words[pos0..])
  {
    g := g0;
    var pos := pos0;
    while pos < |words|
      invariant pos0 <= pos <= |words|
      invariant g + DecodeLists(words[pos..]) == g0 + DecodeLists(words[pos0..])
      decreases |words| - pos
    {
      var k := words[pos];
      var tmp: seq<nat>;
      DecodeListsAt(words, pos);
      if pos + 1 + k <= |words| {
        tmp := words[pos + 1 .. pos + 1 + k];
        pos := pos + 1 + k;
      } else {
        tmp := words[pos + 1..] + Zeros(k - (|words| - pos - 1));
        pos := |words|;
      }
      g := g + [tmp];
    }
  }

  /** The body of get_neighbors(q) over the lists g of nd nodes: both loops
      stop once the pool holds L entries, tested after each kept id and after
      each list; with L = 0 both tests pass at once. */
  method Candidates(g: seq<seq<nat>>, q: nat, L: nat, nd: nat, dist: (nat, nat) -> nat) returns (pool: seq<Neighbor>)
    requires ValidGraph(g, nd) && q < nd
    ensures pool == CandidatePool(g, q, L, dist)
  {
    var flags := new bool[nd](v => false);
    flags[q] := true;
    pool := [];
    ghost var scanned: seq<nat> := [];
    var i := 0;
    while i < |g[q]|
      invariant 0 <= i <= |g[q]|
      invariant scanned == Flatten(g, g[q][..i])
      invariant |pool| < Cap(L) && (L == 0 ==> i == 0)
      invariant Scanned(g, q, flags[..], pool, scanned, dist)
    {
      var nid := g[q][i];
      FlattenStep(g, g[q], i);
      pool, scanned := ScanList(g, q, nid, L, flags, pool, scanned, dist);
      if |pool| >= L {
        if L == 0 {
          assert g[q][..0] == [];
          ScanStoppedFirst(g, q, dist, scanned, pool);
        } else {
          ScanStopped(g, q, L, dist, scanned, pool);
        }
        return;
      }
      i := i + 1;
    }
    if L == 0 {
      ScanStoppedFirst(g, q, dist, scanned, pool);
    } else {
      assert g[q][..i] == g[q];
      ScanStopped(g, q, L, dist, scanned, pool);
    }
  }

  /** The body of sync_prune(q) over the lists g of nd nodes: extends the
      pool with q's missing neighbours, sorts, selects from the first entry
      that is not q, and writes the selection into row q. */
  method PruneInto(g: seq<seq<nat>>, q: nat, pool: seq<Neighbor>, range: nat, nd: nat, cut: array2<SimpleNeighbor>,
                   dist: (nat, nat) -> nat, occludes: (int, int, nat) -> bool)
    requires ValidGraph(g, nd) && q < nd
    requires cut.Length0 == nd && cut.Length1 == range >= 1
    requires forall i :: 0 <= i < |pool| ==> pool[i].id < nd && pool[i].distance >= 0
    requires HasOtherThan(ExtendedPool(pool, g[q], q, dist), q)
    modifies cut
    ensures Row(cut, q) == WriteRow(old(Row(cut, q)), PruneSelection(pool, g[q], q, range, dist, occludes))
    ensures RowOk(Row(cut, q), nd)
    ensures forall i :: 0 <= i < nd && i != q ==> Row(cut, i) == old(Row(cut, i))
  {
    var nbrs := g[q];
    var ext := ExtendCandidates(pool, nbrs, q, nd, dist);
    var c := SortBy(ToSimpleAll(ext), SimpleKey);
    PruneCandidatesLong(pool, nbrs, q, dist);
    var start := 0;
    if c[start].id == q {
      start := start + 1;
    }
    var result := SelectScan(c, start, range, dist, occludes);
    PruneRowOk(Row(cut, q), pool, nbrs, q, range, nd, dist, occludes);
    WriteRowAt(cut, q, result);
  }

  /** The first parallel loop of Link over the lists g of nd nodes:
      get_neighbors and then sync_prune for each node in turn. */
  method PruneRows(g: seq<seq<nat>>, L: nat, range: nat, nd: nat, cut: array2<SimpleNeighbor>,
                   dist: (nat, nat) -> nat, occludes: (int, int, nat) -> bool)
    requires ValidGraph(g, nd)
    requires cut.Length0 == nd && cut.Length1 == range >= 1
    requires NoLoneNode(g)
    modifies cut
    ensures Rows(cut) == PrunedRows(old(Rows(cut)), g, L, range, dist, occludes)
  {
    ghost var rows0 := Rows(cut);
    var n := 0;
    while n < nd
      invariant 0 <= n <= nd
      invariant forall i :: 0 <= i < n ==> Row(cut, i) == PrunedRow(rows0[i], g, i, L, range, dist, occludes)
      invariant forall i :: n <= i < nd ==> Row(cut, i) == rows0[i]
    {
      assert HasOtherNeighbor(g, n);
      PruneNode(g, n, L, range, nd, cut, dist, occludes);
      n := n + 1;
    }
    assert Rows(cut) == PrunedRows(rows0, g, L, range, dist, occludes);
  }

  /** One round of the first loop of Link: row n becomes the pruned row. */
  method PruneNode(g: seq<seq<nat>>, n: nat, L: nat, range: nat, nd: nat, cut: array2<SimpleNeighbor>,
                   dist: (nat, nat) -> nat, occludes: (int, int, nat) -> bool)
    requires ValidGraph(g, nd) && n < nd
    requires cut.Length0 == nd && cut.Length1 == range >= 1
    requires HasOtherNeighbor(g, n)
    modifies cut
    ensures Row(cut, n) == PrunedRow(old(Row(cut, n)), g, n, L, range, dist, occludes)
    ensures forall i :: 0 <= i < nd && i != n ==> Row(cut, i) == old(Row(cut, i))
  {
    var pool := Candidates(g, n, L, nd, dist);
    CandidatePoolShape(g, n, L, dist);
    ExtendedHasOther(pool, g[n], n, dist);
    PruneInto(g, n, pool, range, nd, cut, dist, occludes);
  }

  /** The state of the two-hop scan: the pool holds, in order, the ids read
      so far that are new and not q, scored by their distance to q; the
      bitset marks q and every id read. */
  ghost predicate Scanned(g: seq<seq<nat>>, q: nat, flags: seq<bool>, pool: seq<Neighbor>, scanned: seq<nat>,
                          dist: (nat, nat) -> nat) {
    && |flags| == |g|
    && NeighborIds(pool) == Dedup({q}, scanned)
    && (forall v :: 0 <= v < |g| ==> (flags[v] <==> v == q || v in scanned))
    && forall j :: 0 <= j < |pool| ==> pool[j] == Neighbor(pool[j].id, dist(q, pool[j].id), true)
  }

  /** Reading one more id x: a flagged id is skipped; a new one is flagged
      and appended to the pool. */
  lemma ScanStep(g: seq<seq<nat>>, q: nat, flags: seq<bool>, pool: seq<Neighbor>, scanned: seq<nat>,
                 dist: (nat, nat) -> nat, x: nat)
    requires Scanned(g, q, flags, pool, scanned, dist) && x < |g|
    ensures flags[x] ==> Scanned(g, q, flags, pool, scanned + [x], dist)
    ensures !flags[x] ==> Scanned(g, q, flags[x := true], pool + [Neighbor(x, dist(q, x), true)], scanned + [x], dist)
  {
    DedupSnoc({q}, scanned, x);
    NeighborIdsAppend(pool, [Neighbor(x, dist(q, x), true)]);
  }

  /** Reading entry m of list after scanned0 + list[..m] gives
      scanned0 + list[..m + 1]. */
  lemma ScannedNext(scanned0: seq<nat>, list: seq<nat>, m: nat)
    requires m < |list|
    ensures scanned0 + list[..m + 1] == scanned0 + list[..m] + [list[m]]
  {
    assert list[..m + 1] == list[..m] + [list[m]];
  }

  /** What the scan has read of list is a prefix of scanned0 + list. */
  lemma ScannedPrefix(scanned0: seq<nat>, list: seq<nat>, m: nat)
    requires m <= |list|
    ensures scanned0 + list[..m] <= scanned0 + list
  {
    assert (scanned0 + list)[..|scanned0| + m] == scanned0 + list[..m];
  }

  /** The inner loop of get_neighbors over the list of neighbour nid: reads
      the list in order and stops early once the pool holds L entries, which
      with L = 0 is right after the first id kept. */
  method ScanList(g: seq<seq<nat>>, q: nat, nid: nat, L: nat, flags: array<bool>,
                  pool0: seq<Neighbor>, ghost scanned0: seq<nat>, dist: (nat, nat) -> nat)
    returns (pool: seq<Neighbor>, ghost scanned: seq<nat>)
    requires ValidGraph(g, |g|) && nid < |g| && |pool0| < Cap(L)
    requires Scanned(g, q, flags[..], pool0, scanned0, dist)
    modifies flags
    ensures Scanned(g, q, flags[..], pool, scanned, dist)
    ensures |pool| <= Cap(L)
    ensures |pool| < Cap(L) ==> scanned == scanned0 + g[nid]
    ensures scanned <= scanned0 + g[nid]
  {
    pool := pool0;
    scanned := scanned0;
    var m := 0;
    while m < |g[nid]|
      invariant 0 <= m <= |g[nid]|
      invariant scanned == scanned0 + g[nid][..m]
      invariant |pool| < Cap(L)
      invariant Scanned(g, q, flags[..], pool, scanned, dist)
    {
      var nnid := g[nid][m];
      ScanStep(g, q, flags[..], pool, scanned, dist, nnid);
      ScannedNext(scanned0, g[nid], m);
      scanned := scanned + [nnid];
      m := m + 1;
      if flags[nnid] {
        continue;
      }
      flags[nnid] := true;
      pool := pool + [Neighbor(nnid, dist(q, nnid), true)];
      if |pool| >= L {
        ScannedPrefix(scanned0, g[nid], m);
        return;
      }
    }
    assert g[nid][..m] == g[nid];
  }

  // ---------------------------------------------------------------------------
  // Helpers of the search entry points

  /** The seeds Search and SearchWithOptGraph start from: the random ids with
      the first |eps| of them overwritten by the entry points. */
  function SearchSeeds(eps: seq<nat>, randomIds: seq<nat>): (init: seq<nat>)
    requires |eps| <= |randomIds|
    ensures |init| == |randomIds|
    ensures init[..|eps|] == eps && init[|eps|..] == randomIds[|eps|..]
  {
    eps + randomIds[|eps|..]
  }

  /** The ids of the first K pool entries, copied out one by one. */
  method FirstIds(pool: seq<Neighbor>, K: nat) returns (indices: seq<nat>)
    requires K <= |pool|
    ensures indices == NeighborIds(pool[..K])
  {
    indices := [];
    var i := 0;
    while i < K
      invariant 0 <= i <= K
      invariant indices == NeighborIds(pool[..i])
    {
      indices := indices + [pool[i].id];
      i := i + 1;
    }
  }

  /** What a search returns: the final pool of L entries is sorted, scored,
      fully expanded and locally optimal over adj; its ids are seeds or
      scored nodes, none more often than seeded plus scored; every seed and
      every scored node is in it or no closer than its last entry; every
      neighbour of a pooled node is a seed or was scored; and the answer is
      the pool's first K ids. */
  ghost predicate SearchResult(indices: seq<nat>, pool: seq<Neighbor>, scored: seq<Neighbor>, adj: seq<seq<nat>>,
                               init: seq<nat>, qdist: nat -> nat, nd: nat, L: nat, K: nat) {
    && |adj| == nd
    && |pool| == L && K <= L
    && BestFirst.Outcome(pool, scored, adj, init, qdist)
    && indices == NeighborIds(pool[..K])
  }

  /** What the answer alone says: K ids of stored nodes in ascending order of
      distance to the query, each a seed or a scored node and none more often
      than it was seeded plus scored; every seed and every scored node is
      among them or no closer than the K-th; and when K >= 1 the first is no
      farther than any seed and than any of its own neighbours. */
  predicate Answer(indices: seq<nat>, adj: seq<seq<nat>>, init: seq<nat>, scored: seq<Neighbor>, qdist: nat -> nat, K: nat) {
    && |indices| == K
    && (forall i :: 0 <= i < K ==> indices[i] < |adj|)
    && (forall i, j :: 0 <= i < j < K ==> qdist(indices[i]) <= qdist(indices[j]))
    && multiset(indices) <= multiset(init) + multiset(NeighborIds(scored))
    && (K >= 1 ==> forall i :: 0 <= i < |init| ==> init[i] in indices || qdist(indices[K - 1]) <= qdist(init[i]))
    && (K >= 1 ==> forall i :: 0 <= i < |scored| ==> scored[i].id in indices || qdist(indices[K - 1]) <= qdist(scored[i].id))
    && (K >= 1 ==> forall i :: 0 <= i < |init| ==> qdist(indices[0]) <= qdist(init[i]))
    && (K >= 1 ==> forall x :: x in adj[indices[0]] ==> qdist(indices[0]) <= qdist(x))
  }

  /** A node that is pooled or no closer than the last entry is among the
      first K ids or no closer than the K-th. */
  lemma TopK(pool: seq<Neighbor>, qdist: nat -> nat, nd: nat, K: nat, v: nat)
    requires 1 <= K <= |pool| && SortedBy(pool, NeighborKey) && BestFirst.Scored(pool, nd, qdist)
    requires InPool(pool, v) || qdist(v) >= pool[|pool| - 1].distance
    ensures v in NeighborIds(pool[..K]) || qdist(pool[K - 1].id) <= qdist(v)
  {
    if InPool(pool, v) {
      var j :| 0 <= j < |pool| && pool[j].id == v;
      if j < K {
        assert NeighborIds(pool[..K])[j] == v;
      } else {
        assert NeighborKey(pool[K - 1]) <= NeighborKey(pool[j]);
      }
    } else {
      assert NeighborKey(pool[K - 1]) <= NeighborKey(pool[|pool| - 1]);
    }
  }

  /** Every seed and every scored node is among the first K ids of a
      finished pool or no closer than the K-th. */
  lemma TopKAll(pool: seq<Neighbor>, scored: seq<Neighbor>, init: seq<nat>, qdist: nat -> nat, nd: nat, K: nat)
    requires 1 <= K <= |pool| && SortedBy(pool, NeighborKey) && BestFirst.Scored(pool, nd, qdist)
    requires forall i :: 0 <= i < |init| ==> InPool(pool, init[i]) || qdist(init[i]) >= pool[|pool| - 1].distance
    requires forall i :: 0 <= i < |scored| ==> InPool(pool, scored[i].id) || scored[i].distance >= pool[|pool| - 1].distance
    requires forall i :: 0 <= i < |scored| ==> scored[i].distance == qdist(scored[i].id)
    ensures forall i :: 0 <= i < |init| ==> init[i] in NeighborIds(pool[..K]) || qdist(pool[K - 1].id) <= qdist(init[i])
    ensures forall i :: 0 <= i < |scored| ==> scored[i].id in NeighborIds(pool[..K]) || qdist(pool[K - 1].id) <= qdist(scored[i].id)
  {
    forall i | 0 <= i < |init| ensures init[i] in NeighborIds(pool[..K]) || qdist(pool[K - 1].id) <= qdist(init[i]) {
      TopK(pool, qdist, nd, K, init[i]);
    }
    forall i | 0 <= i < |scored|
      ensures scored[i].id in NeighborIds(pool[..K]) || qdist(pool[K - 1].id) <= qdist(scored[i].id)
    {
      TopK(pool, qdist, nd, K, scored[i].id);
    }
  }

  /** The first K ids of a pool are among its ids, none more often. */
  lemma FirstIdsDrawn(pool: seq<Neighbor>, K: nat)
    requires K <= |pool|
    ensures multiset(NeighborIds(pool[..K])) <= multiset(NeighborIds(pool))
  {
    assert pool == pool[..K] + pool[K..];
    NeighborIdsAppend(pool[..K], pool[K..]);
  }

  /** The answer of a finished search has the shape of Answer. */
  lemma AnswerOfResult(indices: seq<nat>, pool: seq<Neighbor>, scored: seq<Neighbor>, adj: seq<seq<nat>>,
                       init: seq<nat>, qdist: nat -> nat, nd: nat, L: nat, K: nat)
    requires SearchResult(indices, pool, scored, adj, init, qdist, nd, L, K)
    ensures Answer(indices, adj, init, scored, qdist, K)
  {
    forall i, j | 0 <= i < j < K ensures qdist(indices[i]) <= qdist(indices[j]) {
      assert NeighborKey(pool[i]) <= NeighborKey(pool[j]);
    }
    FirstIdsDrawn(pool, K);
    if K >= 1 {
      ClosestFound(pool, adj, init, qdist);
      TopKAll(pool, scored, init, qdist, nd, K);
    }
  }

  /** The node lists of a packed buffer, as the search loop reads them. */
  function PackedLists(buf: seq<Word>, nd: nat, dim: nat, width: nat): (adj: seq<seq<nat>>)
    requires PackedGraphOk(buf, nd, dim, width)
    ensures ValidGraph(adj, nd)
  {
    var adj := seq(nd, n requires 0 <= n < nd => NeighborsAt(buf, n, dim, width));
    assert forall i, j :: 0 <= i < nd && 0 <= j < |adj[i]| ==> adj[i][j] in NeighborsAt(buf, i, dim, width);
    adj
  }

  /** The first entry of a finished search is no farther than any seed and
      no farther than any of its own neighbours. */
  lemma ClosestFound(pool: seq<Neighbor>, adj: seq<seq<nat>>, init: seq<nat>, qdist: nat -> nat)
    requires |pool| >= 1 && SortedBy(pool, NeighborKey) && BestFirst.Scored(pool, |adj|, qdist)
    requires BestFirst.LocallyOptimal(pool, adj, qdist)
    requires forall i :: 0 <= i < |init| ==> InPool(pool, init[i]) || qdist(init[i]) >= pool[|pool| - 1].distance
    ensures pool[0].id < |adj|
    ensures forall i :: 0 <= i < |init| ==> qdist(pool[0].id) <= qdist(init[i])
    ensures forall x :: x in adj[pool[0].id] ==> qdist(pool[0].id) <= qdist(x)
  {
    assert NeighborKey(pool[0]) <= NeighborKey(pool[|pool| - 1]);
    forall i | 0 <= i < |init| ensures qdist(pool[0].id) <= qdist(init[i]) {
      if InPool(pool, init[i]) {
        var j :| 0 <= j < |pool| && pool[j].id == init[i];
        assert NeighborKey(pool[0]) <= NeighborKey(pool[j]);
      }
    }
    forall x | x in adj[pool[0].id] ensures qdist(pool[0].id) <= qdist(x) {
      if InPool(pool, x) {
        var j :| 0 <= j < |pool| && pool[j].id == x;
        assert NeighborKey(pool[0]) <= NeighborKey(pool[j]);
      }
    }
  }

  /** The copy loop of OptimizeGraph: a fresh zeroed buffer of nd blocks,
      block i filled from node i. */
  method PackNodes(vecs: seq<seq<Word>>, g: seq<seq<nat>>, dim: nat, width: nat) returns (buf: array<Word>)
    requires PackInput(vecs, g, dim, width)
    ensures fresh(buf)
    ensures buf[..] == Pack(vecs, g, dim, width)
  {
    var nd := |g|;
    var s := NodeWords(dim, width);
    buf := new Word[Offset(nd, s)](_ => 0);
    var o := 0;
    var i := 0;
    PackInputPrefix(vecs, g, dim, width, 0);
    while i < nd
      invariant 0 <= i <= nd && o == Offset(i, s) && buf.Length == Offset(nd, s)
      invariant Packed(buf[..], vecs, g, dim, width, i)
    {
      PackOne(buf, vecs, g, dim, width, i, o);
      o := o + s;
      i := i + 1;
    }
    assert vecs[..nd] == vecs && g[..nd] == g;
    assert buf[..] == buf[..][..o];
  }

  /** One round of the copy loop of PackNodes: node i's block is written at
      its offset o. */
  method PackOne(buf: array<Word>, vecs: seq<seq<Word>>, g: seq<seq<nat>>, dim: nat, width: nat, i: nat, o: nat)
    requires i < |g| && o == Offset(i, NodeWords(dim, width)) && buf.Length == Offset(|g|, NodeWords(dim, width))
    requires Packed(buf[..], vecs, g, dim, width, i)
    modifies buf
    ensures Offset(i + 1, NodeWords(dim, width)) == o + NodeWords(dim, width)
    ensures Packed(buf[..], vecs, g, dim, width, i + 1)
  {
    RecordsDisjoint(i, |g|, NodeWords(dim, width));
    ghost var before := buf[..];
    WriteBlock(buf, o, vecs[i], g[i], dim, width);
    PackStep(vecs, g, dim, width, i, before, buf[..]);
  }

  /** The buffer of PackNodes after i nodes: their blocks, then zeros. */
  ghost predicate Packed(b: seq<Word>, vecs: seq<seq<Word>>, g: seq<seq<nat>>, dim: nat, width: nat, i: nat) {
    && PackInput(vecs, g, dim, width) && i <= |g|
    && |b| == Offset(|g|, NodeWords(dim, width))
    && Offset(i, NodeWords(dim, width)) <= |b|
    && PackInput(vecs[..i], g[..i], dim, width)
    && b[..Offset(i, NodeWords(dim, width))] == Pack(vecs[..i], g[..i], dim, width)
    && forall j :: Offset(i, NodeWords(dim, width)) <= j < |b| ==> b[j] == 0
  }

  /** Writing block i after the first i blocks. */
  lemma PackStep(vecs: seq<seq<Word>>, g: seq<seq<nat>>, dim: nat, width: nat, i: nat, b0: seq<Word>, b1: seq<Word>)
    requires Packed(b0, vecs, g, dim, width, i) && i < |g|
    requires Offset(i, NodeWords(dim, width)) + NodeWords(dim, width) <= |b0|
    requires b1 == b0[..Offset(i, NodeWords(dim, width))] + PackNode(vecs[i], g[i], dim, width)
                   + b0[Offset(i, NodeWords(dim, width)) + NodeWords(dim, width)..]
    ensures Offset(i + 1, NodeWords(dim, width)) == Offset(i, NodeWords(dim, width)) + NodeWords(dim, width)
    ensures Packed(b1, vecs, g, dim, width, i + 1)
  {
    var s := NodeWords(dim, width);
    var o := Offset(i, s);
    PackPrefix(vecs, g, dim, width, i);
    OffsetShift(i, s);
    var blk := PackNode(vecs[i], g[i], dim, width);
    assert b1[..o + s] == b0[..o] + blk;
    forall j | o + s <= j < |b1| ensures b1[j] == 0 {
      assert b1[j] == b0[j];
    }
  }

  method WriteBlock(buf: array<Word>, o: nat, vec: seq<Word>, nbrs: seq<nat>, dim: nat, width: nat)
    requires |vec| == dim + 1 && |nbrs| <= width < WordLimit
    requires forall j :: 0 <= j < |nbrs| ==> nbrs[j] < WordLimit
    requires o + NodeWords(dim, width) <= buf.Length
    requires forall j :: o <= j < buf.Length ==> buf[j] == 0
    modifies buf
    ensures buf[..] == old(buf[..])[..o] + PackNode(vec, nbrs, dim, width) + old(buf[..])[o + NodeWords(dim, width)..]
  {
    ghost var b0 := buf[..];
    var s := NodeWords(dim, width);
    forall t | 0 <= t < dim + 1 {
      buf[o + t] := vec[t];
    }
    buf[o + dim + 1] := |nbrs| as Word;
    forall t | 0 <= t < |nbrs| {
      buf[o + dim + 2 + t] := nbrs[t] as Word;
    }
    var blk := PackNode(vec, nbrs, dim, width);
    var want := b0[..o] + blk + b0[o + s..];
    forall t | 0 <= t < buf.Length ensures buf[t] == want[t] {
      if t < o {
      } else if t < o + dim + 1 {
      } else if t == o + dim + 1 {
      } else if t < o + dim + 2 + |nbrs| {
        assert blk[t - o] == nbrs[t - o - dim - 2];
      } else if t < o + s {
        assert blk[t - o] == Zeros(width - |nbrs|)[t - o - dim - 2 - |nbrs|];
      }
    }
  }

  /** The first two loops of sync_prune: a bitset of the pool's ids, then each
      neighbour of q outside the bitset appended with its distance to q. */
  method ExtendCandidates(pool: seq<Neighbor>, nbrs: seq<nat>, q: nat, nd: nat, dist: (nat, nat) -> nat)
    returns (ext: seq<Neighbor>)
    requires forall i :: 0 <= i < |pool| ==> pool[i].id < nd
    requires forall x :: x in nbrs ==> x < nd
    ensures ext == ExtendedPool(pool, nbrs, q, dist)
  {
    var flags := MarkPool(pool, nd);
    ghost var ids := NeighborIds(pool);
    ext := pool;
    var nn := 0;
    while nn < |nbrs|
      invariant 0 <= nn <= |nbrs|
      invariant ext == pool + MissingNeighbors(ids, nbrs[..nn], q, dist)
      invariant forall v :: 0 <= v < nd ==> (flags[v] <==> v in ids)
    {
      var id := nbrs[nn];
      assert id in nbrs;
      MissingSnoc(ids, nbrs, nn, q, dist);
      if !flags[id] {
        ext := ext + [Neighbor(id, dist(q, id), true)];
      }
      nn := nn + 1;
    }
    assert nbrs[..nn] == nbrs;
  }

  /** The bitset of sync_prune's first loop: the ids of the pool. */
  method MarkPool(pool: seq<Neighbor>, nd: nat) returns (flags: array<bool>)
    requires forall i :: 0 <= i < |pool| ==> pool[i].id < nd
    ensures flags.Length == nd
    ensures forall v :: 0 <= v < nd ==> (flags[v] <==> v in NeighborIds(pool))
  {
    flags := new bool[nd](v => false);
    var i := 0;
    while i < |pool|
      invariant 0 <= i <= |pool| && flags.Length == nd
      invariant forall v :: 0 <= v < nd ==> (flags[v] <==> v in NeighborIds(pool[..i]))
    {
      assert pool[..i + 1] == pool[..i] + [pool[i]];
      NeighborIdsAppend(pool[..i], [pool[i]]);
      flags[pool[i].id] := true;
      i := i + 1;
    }
    assert pool[..i] == pool;
  }

  // ---------------------------------------------------------------------------
  // Link as functions of the rows

  /** Row n after sync_prune over n's two-hop candidates: always a pruned row. */
  function PrunedRow(row: seq<SimpleNeighbor>, g: seq<seq<nat>>, n: nat, L: nat, range: nat,
                     dist: (nat, nat) -> nat, occludes: (int, int, nat) -> bool): (r: seq<SimpleNeighbor>)
    requires ValidGraph(g, |g|) && n < |g| && |row| == range >= 1
    requires HasOtherNeighbor(g, n)
    ensures |r| == range && RowOk(r, |g|)
  {
    var pool := CandidatePool(g, n, L, dist);
    CandidatePoolShape(g, n, L, dist);
    ExtendedHasOther(pool, g[n], n, dist);
    PruneRowOk(row, pool, g[n], n, range, |g|, dist, occludes);
    WriteRow(row, PruneSelection(pool, g[n], n, range, dist, occludes))
  }

  /** Every row after the pruning pass of Link. */
  function PrunedRows(rows: seq<seq<SimpleNeighbor>>, g: seq<seq<nat>>, L: nat, range: nat,
                      dist: (nat, nat) -> nat, occludes: (int, int, nat) -> bool): (r: seq<seq<SimpleNeighbor>>)
    requires ValidGraph(g, |g|) && |rows| == |g| && range >= 1
    requires NoLoneNode(g) && forall n :: 0 <= n < |g| ==> |rows[n]| == range
    ensures RowsOk(r, |g|, range)
  {
    seq(|g|, n requires 0 <= n < |g| => PrunedRow(rows[n], g, n, L, range, dist, occludes))
  }

  /** The rows after Link: the pruned rows with every node's edges reciprocated. */
  function LinkRows(rows: seq<seq<SimpleNeighbor>>, g: seq<seq<nat>>, L: nat, range: nat,
                    dist: (nat, nat) -> nat, occludes: (int, int, nat) -> bool): (r: seq<seq<SimpleNeighbor>>)
    requires ValidGraph(g, |g|) && |rows| == |g| && range >= 1
    requires NoLoneNode(g) && forall n :: 0 <= n < |g| ==> |rows[n]| == range
    ensures RowsOk(r, |g|, range)
  {
    InsertAll(PrunedRows(rows, g, L, range, dist, occludes), |g|, range, |g|, dist, occludes)
  }

  /** The adjacency lists the rows stand for. */
  function RowLists(rows: seq<seq<SimpleNeighbor>>): (g: seq<seq<nat>>)
    ensures |g| == |rows| && forall i :: 0 <= i < |rows| ==> g[i] == RowList(rows[i])
  {
    seq(|rows|, i requires 0 <= i < |rows| => RowList(rows[i]))
  }

  /** Pruned rows stand for a valid graph whose lists are non-empty, free of
      repeats and at most range long. */
  lemma RowListsShape(rows: seq<seq<SimpleNeighbor>>, nd: nat, range: nat)
    requires RowsOk(rows, nd, range)
    ensures var g := RowLists(rows);
            && ValidGraph(g, nd) && DegreeBounded(g, range)
            && forall i :: 0 <= i < nd ==> 1 <= |g[i]| && Distinct(g[i])
  {
    var g := RowLists(rows);
    forall i | 0 <= i < nd
      ensures |g[i]| <= range && 1 <= |g[i]| && Distinct(g[i])
      ensures forall j :: 0 <= j < |g[i]| ==> g[i][j] < nd
    {
      assert RowOk(rows[i], nd);
      assert g[i] == Ids(ValidPrefix(rows[i]));
    }
  }
}
