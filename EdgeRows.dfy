/** The edge-row buffer cut_graph_: nd rows of R SimpleNeighbor slots. The
    scans below are the loops sync_prune and InterInsert run over a row or a
    candidate list, each proved to compute the function of Prune that
    specifies it. */
module EdgeRows {
  import opened Pool
  import opened Prune

  /** Row i of the buffer, slot by slot. */
  function Row(cut: array2<SimpleNeighbor>, i: nat): (r: seq<SimpleNeighbor>)
    requires i < cut.Length0
    reads cut
    ensures |r| == cut.Length1
    ensures forall j :: 0 <= j < cut.Length1 ==> r[j] == cut[i, j]
  {
    seq(cut.Length1, j requires 0 <= j < cut.Length1 reads cut => cut[i, j])
  }

  /** The whole buffer, row by row. */
  function Rows(cut: array2<SimpleNeighbor>): (rs: seq<seq<SimpleNeighbor>>)
    reads cut
    ensures |rs| == cut.Length0
    ensures forall i :: 0 <= i < cut.Length0 ==> rs[i] == Row(cut, i)
  {
    seq(cut.Length0, i requires 0 <= i < cut.Length0 reads cut => Row(cut, i))
  }

  /** The occlusion test of the selection loop: compares the candidate with
      each accepted entry in order and stops at the first that rules it out. */
  method OccludedScan(p: SimpleNeighbor, result: seq<SimpleNeighbor>,
                      dist: (nat, nat) -> nat, occludes: (int, int, nat) -> bool)
    returns (occlude: bool)
    ensures occlude <==> Occluded(p, result, dist, occludes)
  {
    occlude := false;
    var t := 0;
    while t < |result|
      invariant 0 <= t <= |result|
      invariant forall u :: 0 <= u < t ==> !Rejects(result[u], p, dist, occludes)
    {
      if p.id == result[t].id {
        occlude := true;
        break;
      }
      if occludes(p.distance, result[t].distance, dist(result[t].id, p.id)) {
        occlude := true;
        break;
      }
      t := t + 1;
    }
  }

  /** The selection loop: accept pool[start], then scan forward while fewer
      than range entries are accepted, keeping each candidate no accepted
      entry rules out. */
  method SelectScan(pool: seq<SimpleNeighbor>, start: nat, range: nat,
                    dist: (nat, nat) -> nat, occludes: (int, int, nat) -> bool)
    returns (result: seq<SimpleNeighbor>)
    requires start < |pool|
    ensures result == Select(pool, start, range, dist, occludes)
  {
    result := [pool[start]];
    var s := start;
    while |result| < range && s + 1 < |pool|
      invariant start <= s < |pool|
      invariant Greedy(pool, s + 1, result, range, dist, occludes) == Select(pool, start, range, dist, occludes)
      decreases |pool| - s
    {
      s := s + 1;
      var p := pool[s];
      var occlude := OccludedScan(p, result, dist, occludes);
      if !occlude {
        result := result + [p];
      }
    }
  }

  /** Copies res into the first slots of row q and, when res leaves room,
      sets the next slot's distance to the sentinel. */
  method WriteRowAt(cut: array2<SimpleNeighbor>, q: nat, res: seq<SimpleNeighbor>)
    requires q < cut.Length0 && |res| <= cut.Length1
    modifies cut
    ensures Row(cut, q) == WriteRow(old(Row(cut, q)), res)
    ensures forall i :: 0 <= i < cut.Length0 && i != q ==> Row(cut, i) == old(Row(cut, i))
  {
    ghost var row := Row(cut, q);
    var t := 0;
    while t < |res|
      invariant 0 <= t <= |res|
      invariant forall j :: 0 <= j < t ==> cut[q, j] == res[j]
      invariant forall j :: t <= j < cut.Length1 ==> cut[q, j] == row[j]
      invariant forall i, j :: 0 <= i < cut.Length0 && i != q && 0 <= j < cut.Length1 ==> cut[i, j] == old(cut[i, j])
    {
      cut[q, t] := res[t];
      t := t + 1;
    }
    if |res| < cut.Length1 {
      cut[q, |res|] := cut[q, |res|].(distance := Sentinel);
    }
    assert Row(cut, q) == WriteRow(row, res);
    forall i | 0 <= i < cut.Length0 && i != q
      ensures Row(cut, i) == old(Row(cut, i))
    {
      assert forall j :: 0 <= j < cut.Length1 ==> Row(cut, i)[j] == old(Row(cut, i))[j];
    }
  }

  /** The duplicate scan InterInsert runs over row des: walks the valid prefix
      until it meets n, copying the entries it passes. */
  method DuplicateScan(cut: array2<SimpleNeighbor>, des: nat, n: nat)
    returns (dup: bool, prefix: seq<SimpleNeighbor>)
    requires des < cut.Length0
    ensures dup <==> n in Ids(ValidPrefix(Row(cut, des)))
    ensures !dup ==> prefix == ValidPrefix(Row(cut, des))
  {
    ghost var row := Row(cut, des);
    ghost var k := FirstSentinel(row);
    dup := false;
    prefix := [];
    var j := 0;
    while j < cut.Length1
      invariant 0 <= j <= k
      invariant prefix == row[..j]
      invariant forall u :: 0 <= u < j ==> row[u].id != n
    {
      if cut[des, j].distance == Sentinel {
        break;
      }
      if n == cut[des, j].id {
        dup := true;
        assert Ids(ValidPrefix(row))[j] == n;
        break;
      }
      prefix := prefix + [cut[des, j]];
      j := j + 1;
    }
    if !dup {
      assert j == k;
      forall u | 0 <= u < |Ids(ValidPrefix(row))| ensures Ids(ValidPrefix(row))[u] != n {
        assert ValidPrefix(row)[u] == row[u];
      }
    }
  }

  /** The append branch of InterInsert: sn goes into the first sentinel slot,
      and the sentinel moves one slot right when room remains. */
  method AppendAtSentinel(cut: array2<SimpleNeighbor>, des: nat, sn: SimpleNeighbor)
    requires des < cut.Length0
    requires |ValidPrefix(Row(cut, des))| < cut.Length1
    modifies cut
    ensures Row(cut, des) == WriteRow(old(Row(cut, des)), old(ValidPrefix(Row(cut, des))) + [sn])
    ensures forall i :: 0 <= i < cut.Length0 && i != des ==> Row(cut, i) == old(Row(cut, i))
  {
    ghost var row := Row(cut, des);
    ghost var k := FirstSentinel(row);
    var t := 0;
    while t < cut.Length1
      invariant 0 <= t <= k
      invariant Row(cut, des) == row
      decreases cut.Length1 - t
    {
      if cut[des, t].distance == Sentinel {
        assert t == k;
        cut[des, t] := sn;
        if t + 1 < cut.Length1 {
          cut[des, t + 1] := cut[des, t + 1].(distance := Sentinel);
        }
        break;
      }
      t := t + 1;
    }
    assert row[..k] + [sn] == row[..k + 1][k := sn];
    assert Row(cut, des) == WriteRow(row, row[..k] + [sn]);
    forall i | 0 <= i < cut.Length0 && i != des
      ensures Row(cut, i) == old(Row(cut, i))
    {
      assert forall j :: 0 <= j < cut.Length1 ==> Row(cut, i)[j] == old(Row(cut, i))[j];
    }
  }

  /** One edge of InterInsert: offers sn to row des. Nothing changes when
      des already lists sn's node; otherwise sn is appended when the row has
      room, and the row is re-selected from its edges plus sn when it is full. */
  method ReciprocateEdge(cut: array2<SimpleNeighbor>, des: nat, sn: SimpleNeighbor, range: nat,
                         dist: (nat, nat) -> nat, occludes: (int, int, nat) -> bool)
    requires des < cut.Length0 && cut.Length1 == range >= 1
    modifies cut
    ensures Rows(cut) == old(Rows(cut))[des := Reciprocated(old(Row(cut, des)), sn, range, dist, occludes)]
  {
    ReciprocateRow(cut, des, sn, range, dist, occludes);
    assert Rows(cut) == old(Rows(cut))[des := Reciprocated(old(Row(cut, des)), sn, range, dist, occludes)];
  }

  /** ReciprocateEdge row by row. */
  method ReciprocateRow(cut: array2<SimpleNeighbor>, des: nat, sn: SimpleNeighbor, range: nat,
                        dist: (nat, nat) -> nat, occludes: (int, int, nat) -> bool)
    requires des < cut.Length0 && cut.Length1 == range >= 1
    modifies cut
    ensures Row(cut, des) == Reciprocated(old(Row(cut, des)), sn, range, dist, occludes)
    ensures forall i :: 0 <= i < cut.Length0 && i != des ==> Row(cut, i) == old(Row(cut, i))
  {
    var dup, tempPool := DuplicateScan(cut, des, sn.id);
    if dup {
      return;
    }
    tempPool := tempPool + [sn];
    if |tempPool| > range {
      var sorted := SortBy(tempPool, SimpleKey);
      var result := SelectScan(sorted, 0, range, dist, occludes);
      WriteRowAt(cut, des, result);
    } else {
      AppendAtSentinel(cut, des, sn);
    }
  }

  /** Build's copy of row i into an adjacency list, as written: the scan
      records the index of the last slot it passes before the first sentinel,
      and the list takes that index plus one entries. */
  method RowToList(cut: array2<SimpleNeighbor>, i: nat) returns (list: seq<nat>)
    requires i < cut.Length0 && cut.Length1 >= 1
    ensures list == BuiltListAsWritten(Row(cut, i))
  {
    ghost var row := Row(cut, i);
    ghost var k := FirstSentinel(row);
    var poolSize := 0;
    var j := 0;
    while j < cut.Length1
      invariant 0 <= j <= k
      invariant poolSize == if j == 0 then 0 else j - 1
    {
      if cut[i, j].distance == Sentinel {
        break;
      }
      poolSize := j;
      j := j + 1;
    }
    assert j == k;
    poolSize := poolSize + 1;
    list := [];
    var t := 0;
    while t < poolSize
      invariant 0 <= t <= poolSize
      invariant list == Ids(row[..t])
    {
      list := list + [cut[i, t].id];
      t := t + 1;
    }
  }

  /** InterInsert(n): offers the reverse of each edge n -> des of row n, in
      order, to row des. */
  method InterInsert(cut: array2<SimpleNeighbor>, n: nat, range: nat, nd: nat,
                     dist: (nat, nat) -> nat, occludes: (int, int, nat) -> bool)
    requires n < nd && cut.Length0 == nd && cut.Length1 == range >= 1
    requires RowsOk(Rows(cut), nd, range)
    modifies cut
    ensures Rows(cut) == ReciprocateAll(old(Rows(cut)), n, ValidPrefix(old(Rows(cut))[n]), range, nd, dist, occludes)
  {
    ghost var rows0 := Rows(cut);
    ghost var edges := ValidPrefix(rows0[n]);
    var i := 0;
    while i < range
      invariant 0 <= i <= |edges|
      invariant Rows(cut) == ReciprocateAll(rows0, n, edges[..i], range, nd, dist, occludes)
      invariant Row(cut, n) == rows0[n]
    {
      if cut[n, i].distance == Sentinel {
        break;
      }
      InterInsertStep(cut, n, i, range, nd, dist, occludes, rows0);
      i := i + 1;
    }
    assert edges[..i] == edges;
  }

  /** One edge of InterInsert: the i-th entry of row n, not a sentinel, is
      reciprocated into the row of its target. */
  method InterInsertStep(cut: array2<SimpleNeighbor>, n: nat, i: nat, range: nat, nd: nat,
                         dist: (nat, nat) -> nat, occludes: (int, int, nat) -> bool, ghost rows0: seq<seq<SimpleNeighbor>>)
    requires n < nd && cut.Length0 == nd && cut.Length1 == range > i
    requires RowsOk(rows0, nd, range) && i <= |ValidPrefix(rows0[n])|
    requires Rows(cut) == ReciprocateAll(rows0, n, ValidPrefix(rows0[n])[..i], range, nd, dist, occludes)
    requires Row(cut, n) == rows0[n] && cut[n, i].distance != Sentinel
    modifies cut
    ensures i < |ValidPrefix(rows0[n])|
    ensures Rows(cut) == ReciprocateAll(rows0, n, ValidPrefix(rows0[n])[..i + 1], range, nd, dist, occludes)
    ensures Row(cut, n) == rows0[n]
  {
    ghost var edges := ValidPrefix(rows0[n]);
    assert Row(cut, n)[i] == cut[n, i];
    assert i < |edges|;
    var des := cut[n, i].id;
    var sn := SimpleNeighbor(n, cut[n, i].distance);
    ReciprocateAllStep(rows0, n, i, range, nd, dist, occludes);
    ReciprocateEdge(cut, des, sn, range, dist, occludes);
  }

  /** The second parallel loop of Link: InterInsert for each node in turn. */
  method InsertAllRows(cut: array2<SimpleNeighbor>, range: nat, nd: nat,
                       dist: (nat, nat) -> nat, occludes: (int, int, nat) -> bool)
    requires cut.Length0 == nd && cut.Length1 == range >= 1
    requires RowsOk(Rows(cut), nd, range)
    modifies cut
    ensures Rows(cut) == InsertAll(old(Rows(cut)), nd, range, nd, dist, occludes)
  {
    ghost var rows0 := Rows(cut);
    var n := 0;
    while n < nd
      invariant 0 <= n <= nd
      invariant Rows(cut) == InsertAll(rows0, n, range, nd, dist, occludes)
    {
      InsertAllStep(rows0, n, range, nd, dist, occludes, Rows(cut));
      InterInsert(cut, n, range, nd, dist, occludes);
      n := n + 1;
    }
  }
}
