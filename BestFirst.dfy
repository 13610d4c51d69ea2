/** The best-first search loop shared by Search, SearchWithOptGraph and the
    query overload of get_neighbors: a sorted pool of L candidates, a cursor
    k that rewinds to the smallest insertion rank, a visited bitset, and
    early rejection against the pool's last entry. */
module BestFirst {
  import opened Pool
  import opened Graphs

  /** Every entry names a node and carries that node's distance to the query. */
  predicate Scored(pool: seq<Neighbor>, nd: nat, qdist: nat -> nat) {
    forall j :: 0 <= j < |pool| ==> pool[j].id < nd && pool[j].distance == qdist(pool[j].id)
  }

  /** Every pooled node has been flagged as visited. */
  predicate Marked(pool: seq<Neighbor>, flags: seq<bool>) {
    forall j :: 0 <= j < |pool| ==> pool[j].id < |flags| && flags[pool[j].id]
  }

  /** Every visited node is in the pool or no closer than the pool's last entry. */
  predicate Covered(pool: seq<Neighbor>, flags: seq<bool>, qdist: nat -> nat)
    requires |pool| >= 1
  {
    forall v :: 0 <= v < |flags| && flags[v] ==> InPool(pool, v) || qdist(v) >= pool[|pool| - 1].distance
  }

  /** Every expanded entry (flag cleared) has all its neighbours visited,
      except possibly entries for node `busy`, whose expansion is under way. */
  predicate Closed(pool: seq<Neighbor>, adj: seq<seq<nat>>, flags: seq<bool>, busy: int) {
    forall j :: 0 <= j < |pool| && !pool[j].flag && pool[j].id != busy && pool[j].id < |adj| ==>
      forall x :: x in adj[pool[j].id] ==> x < |flags| && flags[x]
  }

  predicate PoolInv(pool: seq<Neighbor>, adj: seq<seq<nat>>, flags: seq<bool>, qdist: nat -> nat, busy: int) {
    && |pool| >= 1
    && |flags| == |adj|
    && SortedBy(pool, NeighborKey)
    && Scored(pool, |adj|, qdist)
    && Marked(pool, flags)
    && Covered(pool, flags, qdist)
    && Closed(pool, adj, flags, busy)
  }

  /** The search's stopping condition: every neighbour of every pooled node
      is pooled or no closer than the last pooled entry. */
  predicate LocallyOptimal(pool: seq<Neighbor>, adj: seq<seq<nat>>, qdist: nat -> nat)
    requires |pool| >= 1
  {
    forall j :: 0 <= j < |pool| && pool[j].id < |adj| ==>
      forall x :: x in adj[pool[j].id] ==> InPool(pool, x) || qdist(x) >= pool[|pool| - 1].distance
  }

  /** The ids of a node set bounded by nd number at most nd. */
  lemma {:induction false} CardinalityBound(s: set<nat>, nd: nat)
    requires forall v :: v in s ==> v < nd
    ensures |s| <= nd
  {
    if nd > 0 {
      var s' := s - {nd - 1};
      CardinalityBound(s', nd - 1);
    } else {
      assert s == {};
    }
  }

  function Elems(s: seq<nat>): set<nat> {
    set x | x in s
  }

  /** A repetition-free list of ids below nd has at most nd entries. */
  lemma DistinctBound(s: seq<nat>, nd: nat)
    requires Distinct(s) && forall i :: 0 <= i < |s| ==> s[i] < nd
    ensures |s| <= nd
  {
    DistinctCard(s);
    CardinalityBound(Elems(s), nd);
  }

  lemma {:induction false} DistinctCard(s: seq<nat>)
    requires Distinct(s)
    ensures |Elems(s)| == |s|
  {
    if s != [] {
      var front := s[..|s| - 1];
      var last := s[|s| - 1];
      assert s == front + [last];
      DistinctCard(front);
      assert Elems(s) == Elems(front) + {last};
      assert last !in Elems(front);
    }
  }

  /** Flagging a node whose distance does not beat the last entry keeps the invariant. */
  lemma FlagRejected(pool: seq<Neighbor>, adj: seq<seq<nat>>, flags: seq<bool>, qdist: nat -> nat, busy: int, v: nat)
    requires PoolInv(pool, adj, flags, qdist, busy) && v < |flags|
    requires qdist(v) >= pool[|pool| - 1].distance
    ensures PoolInv(pool, adj, flags[v := true], qdist, busy)
  {
  }

  /** pool2 is pool with nn spliced in at rank r and the last entry dropped. */
  predicate Spliced(pool: seq<Neighbor>, pool2: seq<Neighbor>, nn: Neighbor, r: nat) {
    && |pool2| == |pool| && r < |pool|
    && pool2[r] == nn
    && (forall j :: 0 <= j < r ==> pool2[j] == pool[j])
    && (forall j :: r < j < |pool| ==> pool2[j] == pool[j - 1])
  }

  lemma SplicedOf(pool: seq<Neighbor>, nn: Neighbor, r: nat)
    requires r < |pool|
    ensures Spliced(pool, pool[..r] + [nn] + pool[r..|pool| - 1], nn, r)
  {
  }

  lemma SplicedLast(pool: seq<Neighbor>, pool2: seq<Neighbor>, nn: Neighbor, r: nat)
    requires Spliced(pool, pool2, nn, r) && SortedBy(pool, NeighborKey)
    requires nn.distance < pool[|pool| - 1].distance
    ensures pool2[|pool| - 1].distance <= pool[|pool| - 1].distance
  {
    var L := |pool|;
    if r < L - 1 {
      assert pool2[L - 1] == pool[L - 2];
    }
  }

  lemma SplicedScored(pool: seq<Neighbor>, pool2: seq<Neighbor>, nn: Neighbor, r: nat, nd: nat, qdist: nat -> nat)
    requires Spliced(pool, pool2, nn, r) && Scored(pool, nd, qdist)
    requires nn.id < nd && nn.distance == qdist(nn.id)
    ensures Scored(pool2, nd, qdist)
  {
    forall j | 0 <= j < |pool2| ensures pool2[j].id < nd && pool2[j].distance == qdist(pool2[j].id) {
      if j > r {
        assert pool2[j] == pool[j - 1];
      }
    }
  }

  lemma SplicedMarked(pool: seq<Neighbor>, pool2: seq<Neighbor>, nn: Neighbor, r: nat, flags: seq<bool>)
    requires Spliced(pool, pool2, nn, r) && Marked(pool, flags)
    requires nn.id < |flags|
    ensures Marked(pool2, flags[nn.id := true])
  {
    var flags2 := flags[nn.id := true];
    forall j | 0 <= j < |pool2| ensures pool2[j].id < |flags2| && flags2[pool2[j].id] {
      if j > r {
        assert pool2[j] == pool[j - 1];
      }
    }
  }

  lemma SplicedCovered(pool: seq<Neighbor>, pool2: seq<Neighbor>, nn: Neighbor, r: nat, flags: seq<bool>, qdist: nat -> nat, nd: nat)
    requires Spliced(pool, pool2, nn, r) && SortedBy(pool, NeighborKey) && Scored(pool, nd, qdist)
    requires Covered(pool, flags, qdist)
    requires nn.id < |flags| && nn.distance < pool[|pool| - 1].distance
    ensures Covered(pool2, flags[nn.id := true], qdist)
  {
    var L := |pool|;
    var flags2 := flags[nn.id := true];
    SplicedLast(pool, pool2, nn, r);
    forall u | 0 <= u < |flags2| && flags2[u]
      ensures InPool(pool2, u) || qdist(u) >= pool2[L - 1].distance
    {
      if u == nn.id {
        assert pool2[r].id == u;
      } else if InPool(pool, u) {
        var j :| 0 <= j < L && pool[j].id == u;
        if j < r {
          assert pool2[j].id == u;
        } else if j < L - 1 {
          assert pool2[j + 1].id == u;
        } else {
          assert qdist(u) == pool[L - 1].distance;
        }
      }
    }
  }

  lemma SplicedClosed(pool: seq<Neighbor>, pool2: seq<Neighbor>, nn: Neighbor, r: nat, adj: seq<seq<nat>>, flags: seq<bool>, busy: int)
    requires Spliced(pool, pool2, nn, r) && Closed(pool, adj, flags, busy)
    requires nn.id < |flags| && nn.flag
    ensures Closed(pool2, adj, flags[nn.id := true], busy)
  {
    var flags2 := flags[nn.id := true];
    forall j | 0 <= j < |pool2| && !pool2[j].flag && pool2[j].id != busy && pool2[j].id < |adj|
      ensures forall x :: x in adj[pool2[j].id] ==> x < |flags2| && flags2[x]
    {
      if j > r {
        assert pool2[j] == pool[j - 1];
      }
    }
  }

  /** Flagging a closer node and splicing it in at its rank keeps the invariant:
      the entry pushed off the end is no closer than the new last entry. */
  lemma FlagInserted(pool: seq<Neighbor>, pool2: seq<Neighbor>, adj: seq<seq<nat>>, flags: seq<bool>,
                     qdist: nat -> nat, busy: int, v: nat, r: nat)
    requires PoolInv(pool, adj, flags, qdist, busy) && v < |flags|
    requires qdist(v) < pool[|pool| - 1].distance
    requires r < |pool|
    requires pool2 == pool[..r] + [Neighbor(v, qdist(v), true)] + pool[r..|pool| - 1]
    requires SortedBy(pool2, NeighborKey)
    ensures PoolInv(pool2, adj, flags[v := true], qdist, busy)
  {
    var nn := Neighbor(v, qdist(v), true);
    SplicedOf(pool, nn, r);
    SplicedScored(pool, pool2, nn, r, |adj|, qdist);
    SplicedMarked(pool, pool2, nn, r, flags);
    SplicedCovered(pool, pool2, nn, r, flags, qdist, |adj|);
    SplicedClosed(pool, pool2, nn, r, adj, flags, busy);
  }

  /** Once every neighbour of `busy` is visited, its entries are closed too. */
  lemma CloseBusy(pool: seq<Neighbor>, adj: seq<seq<nat>>, flags: seq<bool>, qdist: nat -> nat, busy: nat)
    requires PoolInv(pool, adj, flags, qdist, busy) && busy < |adj|
    requires forall x :: x in adj[busy] ==> x < |flags| && flags[x]
    ensures PoolInv(pool, adj, flags, qdist, Sentinel)
  {
  }

  /** What one visit does to a pool p0: a candidate no closer than the last
      entry is rejected with rank |p0| and leaves the pool as it was; a
      closer one lands at rank r, after every entry no farther than it and
      before the first farther one, and the last entry drops off. */
  predicate Inserted(p0: seq<Neighbor>, p1: seq<Neighbor>, nn: Neighbor, r: nat) {
    && |p0| >= 1 && r <= |p0|
    && (r == |p0| <==> nn.distance >= p0[|p0| - 1].distance)
    && (r == |p0| ==> p1 == p0)
    && (r < |p0| ==> && Spliced(p0, p1, nn, r)
                     && nn.distance < p0[r].distance
                     && forall j :: 0 <= j < r ==> p0[j].distance <= nn.distance)
  }

  /** A visit adds at most the visited node's id to the ids of the pool. */
  lemma InsertedIds(p0: seq<Neighbor>, p1: seq<Neighbor>, nn: Neighbor, r: nat)
    requires Inserted(p0, p1, nn, r)
    ensures multiset(NeighborIds(p1)) <= multiset(NeighborIds(p0)) + multiset{nn.id}
  {
    var L := |p0|;
    if r < L {
      var a, b, z := p0[..r], p0[r..L - 1], p0[L - 1];
      var ia, ib := NeighborIds(a), NeighborIds(b);
      assert NeighborIds(p1) == ia + [nn.id] + ib by {
        SplicedIs(p0, p1, nn, r);
        assert p1 == (a + [nn]) + b;
        NeighborIdsAppend(a + [nn], b);
        NeighborIdsAppend(a, [nn]);
      }
      assert NeighborIds(p0) == ia + ib + [z.id] by {
        assert p0 == (a + b) + [z];
        NeighborIdsAppend(a + b, [z]);
        NeighborIdsAppend(a, b);
      }
      assert multiset(NeighborIds(p1)) == multiset(ia) + multiset{nn.id} + multiset(ib);
      assert multiset(NeighborIds(p0)) == multiset(ia) + multiset(ib) + multiset{z.id};
    }
  }

  /** The spliced pool, written out. */
  lemma SplicedIs(p0: seq<Neighbor>, p1: seq<Neighbor>, nn: Neighbor, r: nat)
    requires Spliced(p0, p1, nn, r)
    ensures p1 == p0[..r] + [nn] + p0[r..|p0| - 1]
  {
    var q := p0[..r] + [nn] + p0[r..|p0| - 1];
    forall j | 0 <= j < |p1| ensures p1[j] == q[j] {
      if j > r {
        assert q[j] == p0[j - 1];
      }
    }
  }

  /** Visits one unvisited node: flags it, scores it, and inserts it into the
      pool unless it is no closer than the last entry. Returns the insertion
      rank, or L when the node was rejected. */
  method VisitOne(adj: seq<seq<nat>>, qdist: nat -> nat, ret: array<Neighbor>, flags: array<bool>, L: nat, busy: int, id: nat)
    returns (rank: nat)
    requires 1 <= L && ret.Length == L + 1 && flags.Length == |adj|
    requires id < |adj| && !flags[id]
    requires PoolInv(ret[..L], adj, flags[..], qdist, busy)
    modifies ret, flags
    ensures flags[..] == old(flags[..])[id := true]
    ensures PoolInv(ret[..L], adj, flags[..], qdist, busy)
    ensures rank <= L
    ensures rank == L <==> qdist(id) >= old(ret[L - 1].distance)
    ensures rank < L ==> ret[rank] == Neighbor(id, qdist(id), true)
    ensures forall j :: 0 <= j < rank ==> ret[j] == old(ret[j])
    ensures ret[L - 1].distance <= old(ret[L - 1].distance)
    ensures Inserted(old(ret[..L]), ret[..L], Neighbor(id, qdist(id), true), rank)
  {
    ghost var before := flags[..];
    ghost var full := ret[..];
    ghost var pool := ret[..L];
    flags[id] := true;
    var d := qdist(id);
    if d >= ret[L - 1].distance {
      FlagRejected(pool, adj, before, qdist, busy, id);
      rank := L;
    } else {
      var nn := Neighbor(id, d, true);
      rank := InsertIntoPool(ret, L, nn);
      ShiftedSplice(full, ret[..], L, rank, nn);
      assert ret[..][..L] == ret[..L] && full[..L] == pool;
      FlagInserted(pool, ret[..L], adj, before, qdist, busy, id, rank);
      SplicedOf(pool, nn, rank);
      SplicedLast(pool, ret[..L], nn, rank);
      assert Inserted(pool, ret[..L], nn, rank);
    }
  }

  /** Shifting the entries from r on one place right and writing nn at r
      splices nn into the first L entries. */
  lemma ShiftedSplice(o: seq<Neighbor>, n: seq<Neighbor>, L: nat, r: nat, nn: Neighbor)
    requires r < L < |o| && |n| == |o|
    requires forall j :: 0 <= j < r ==> n[j] == o[j]
    requires n[r] == nn
    requires forall j :: r < j <= L ==> n[j] == o[j - 1]
    ensures n[..L] == o[..L][..r] + [nn] + o[..L][r..L - 1]
  {
    var q := o[..L][..r] + [nn] + o[..L][r..L - 1];
    forall j | 0 <= j < L ensures n[..L][j] == q[j] {
      if j > r {
        assert q[j] == o[j - 1];
      }
    }
  }

  /** The nodes scored since the bitset was flags0: each once, each unflagged
      in flags0 and flagged now, with its distance; no other flag changed. */
  ghost predicate NewlyScored(flags0: seq<bool>, flags1: seq<bool>, scored: seq<Neighbor>, qdist: nat -> nat) {
    && |flags1| == |flags0|
    && (forall v :: 0 <= v < |flags1| ==> (flags1[v] <==> flags0[v] || v in NeighborIds(scored)))
    && Distinct(NeighborIds(scored))
    && forall i :: 0 <= i < |scored| ==>
         scored[i].id < |flags0| && !flags0[scored[i].id] && scored[i].distance == qdist(scored[i].id)
  }

  /** Scoring one more unflagged node and flagging it. */
  lemma ScoredSnoc(flags0: seq<bool>, flags1: seq<bool>, scored: seq<Neighbor>, qdist: nat -> nat, id: nat)
    requires NewlyScored(flags0, flags1, scored, qdist) && id < |flags1| && !flags1[id]
    ensures NewlyScored(flags0, flags1[id := true], scored + [Neighbor(id, qdist(id), true)], qdist)
  {
    var s2 := scored + [Neighbor(id, qdist(id), true)];
    assert NeighborIds(s2) == NeighborIds(scored) + [id];
  }

  /** The smallest of the insertion ranks, L when there are none below L. */
  function MinRank(ranks: seq<nat>, L: nat): (m: nat)
    ensures m <= L
    ensures forall i :: 0 <= i < |ranks| ==> m <= ranks[i]
    ensures m == L || exists i :: 0 <= i < |ranks| && ranks[i] == m
  {
    if ranks == [] then L
    else
      var m := MinRank(ranks[..|ranks| - 1], L);
      var x := ranks[|ranks| - 1];
      if x < m then x else m
  }

  /** The pools p0 = pools[0], ..., pools[|scored|] = p1 the expansion went
      through: the i-th scored node was visited with rank ranks[i]. */
  ghost predicate Trace(p0: seq<Neighbor>, p1: seq<Neighbor>, scored: seq<Neighbor>,
                        pools: seq<seq<Neighbor>>, ranks: seq<nat>) {
    && |pools| == |scored| + 1 && |ranks| == |scored|
    && pools[0] == p0 && pools[|scored|] == p1
    && forall i :: 0 <= i < |scored| ==> Inserted(pools[i], pools[i + 1], scored[i], ranks[i])
  }

  lemma MinRankSnoc(ranks: seq<nat>, r: nat, L: nat)
    ensures MinRank(ranks + [r], L) == if r < MinRank(ranks, L) then r else MinRank(ranks, L)
  {
    assert (ranks + [r])[..|ranks|] == ranks;
  }

  /** One more visit extends the trace by the pool it left. */
  lemma TraceSnoc(p0: seq<Neighbor>, p1: seq<Neighbor>, scored: seq<Neighbor>, pools: seq<seq<Neighbor>>,
                  ranks: seq<nat>, p2: seq<Neighbor>, nn: Neighbor, r: nat)
    requires Trace(p0, p1, scored, pools, ranks) && Inserted(p1, p2, nn, r)
    ensures Trace(p0, p2, scored + [nn], pools + [p2], ranks + [r])
  {
    var s2, q2, r2 := scored + [nn], pools + [p2], ranks + [r];
    forall i | 0 <= i < |s2| ensures Inserted(q2[i], q2[i + 1], s2[i], r2[i]) {
      if i < |scored| {
        assert q2[i] == pools[i] && q2[i + 1] == pools[i + 1] && s2[i] == scored[i] && r2[i] == ranks[i];
      }
    }
  }

  /** The visits of an expansion so far, seen from the arrays it started
      from: a trace from ret0[..L] to r[..L] with nk the smallest of its
      ranks, the entries before nk as they were in ret0, and the pool's ids
      drawn from ret0's and the scored ones. */
  ghost predicate Visits(r: seq<Neighbor>, L: nat, nk: nat, scored: seq<Neighbor>, ret0: seq<Neighbor>,
                         pools: seq<seq<Neighbor>>, ranks: seq<nat>) {
    && |r| == L + 1 && |ret0| == L + 1
    && Trace(ret0[..L], r[..L], scored, pools, ranks)
    && nk == MinRank(ranks, L)
    && multiset(NeighborIds(r[..L])) <= multiset(NeighborIds(ret0[..L])) + multiset(NeighborIds(scored))
    && (forall j :: 0 <= j < nk ==> r[j] == ret0[j])
    && (nk < L ==> |scored| > 0)
  }

  /** One more visit, with rank `rank`, extends the visits. */
  lemma VisitsSnoc(r0: seq<Neighbor>, r1: seq<Neighbor>, L: nat, nk: nat, scored: seq<Neighbor>, ret0: seq<Neighbor>,
                   pools: seq<seq<Neighbor>>, ranks: seq<nat>, nn: Neighbor, rank: nat)
    requires Visits(r0, L, nk, scored, ret0, pools, ranks) && |r1| == L + 1
    requires Inserted(r0[..L], r1[..L], nn, rank)
    requires forall j :: 0 <= j < rank ==> r1[j] == r0[j]
    ensures Visits(r1, L, if rank < nk then rank else nk, scored + [nn], ret0, pools + [r1[..L]], ranks + [rank])
  {
    TraceSnoc(ret0[..L], r0[..L], scored, pools, ranks, r1[..L], nn, rank);
    MinRankSnoc(ranks, rank, L);
    InsertedIds(r0[..L], r1[..L], nn, rank);
    NeighborIdsAppend(scored, [nn]);
  }

  /** The state of the expansion of n after its first m neighbours: the pool
      invariant with n busy, the visits so far, those neighbours flagged,
      and the nodes scored since flags0. */
  ghost predicate Expanding(adj: seq<seq<nat>>, qdist: nat -> nat, r: seq<Neighbor>, flags: seq<bool>, L: nat, n: nat,
                            m: nat, nk: nat, scored: seq<Neighbor>, flags0: seq<bool>, ret0: seq<Neighbor>,
                            pools: seq<seq<Neighbor>>, ranks: seq<nat>) {
    && 1 <= L && |r| == L + 1 && n < |adj| && m <= |adj[n]|
    && PoolInv(r[..L], adj, flags, qdist, n)
    && Visits(r, L, nk, scored, ret0, pools, ranks)
    && (forall t :: 0 <= t < m ==> adj[n][t] < |flags| && flags[adj[n][t]])
    && NewlyScored(flags0, flags, scored, qdist)
  }

  /** Visiting the m-th neighbour, which was not flagged, moves the expansion on. */
  lemma ExpandingVisit(adj: seq<seq<nat>>, qdist: nat -> nat, r0: seq<Neighbor>, r1: seq<Neighbor>,
                       before: seq<bool>, flags1: seq<bool>, L: nat, n: nat, m: nat, nk: nat, scored: seq<Neighbor>,
                       flags0: seq<bool>, ret0: seq<Neighbor>, pools: seq<seq<Neighbor>>, ranks: seq<nat>, rank: nat)
    requires 1 <= L && n < |adj| && m < |adj[n]|
    requires Visits(r0, L, nk, scored, ret0, pools, ranks)
    requires forall t :: 0 <= t < m ==> adj[n][t] < |before| && before[adj[n][t]]
    requires NewlyScored(flags0, before, scored, qdist)
    requires adj[n][m] < |before| && !before[adj[n][m]] && flags1 == before[adj[n][m] := true]
    requires |r1| == L + 1 && PoolInv(r1[..L], adj, flags1, qdist, n)
    requires Inserted(r0[..L], r1[..L], Neighbor(adj[n][m], qdist(adj[n][m]), true), rank)
    requires forall j :: 0 <= j < rank ==> r1[j] == r0[j]
    ensures Expanding(adj, qdist, r1, flags1, L, n, m + 1, if rank < nk then rank else nk,
                      scored + [Neighbor(adj[n][m], qdist(adj[n][m]), true)], flags0, ret0,
                      pools + [r1[..L]], ranks + [rank])
  {
    var id := adj[n][m];
    VisitsSnoc(r0, r1, L, nk, scored, ret0, pools, ranks, Neighbor(id, qdist(id), true), rank);
    ScoredSnoc(flags0, before, scored, qdist, id);
    forall t | 0 <= t < m + 1 ensures adj[n][t] < |flags1| && flags1[adj[n][t]] {
      if t < m {
        assert before[adj[n][t]];
      }
    }
  }

  /** Passing over the m-th neighbour, already flagged, moves the expansion on. */
  lemma ExpandingSkip(adj: seq<seq<nat>>, qdist: nat -> nat, r: seq<Neighbor>, flags: seq<bool>, L: nat, n: nat,
                      m: nat, nk: nat, scored: seq<Neighbor>, flags0: seq<bool>, ret0: seq<Neighbor>,
                      pools: seq<seq<Neighbor>>, ranks: seq<nat>)
    requires Expanding(adj, qdist, r, flags, L, n, m, nk, scored, flags0, ret0, pools, ranks) && m < |adj[n]|
    requires adj[n][m] < |flags| && flags[adj[n][m]]
    ensures Expanding(adj, qdist, r, flags, L, n, m + 1, nk, scored, flags0, ret0, pools, ranks)
  {
  }

  /** One step of the expansion of n: visits its m-th neighbour when it is
      not flagged yet, lowering the smallest insertion rank nk and recording
      the neighbour as scored. */
  method VisitNeighbor(adj: seq<seq<nat>>, qdist: nat -> nat, ret: array<Neighbor>, flags: array<bool>, L: nat,
                       n: nat, m: nat, nk: nat, scored: seq<Neighbor>, ghost flags0: seq<bool>, ghost ret0: seq<Neighbor>,
                       ghost pools: seq<seq<Neighbor>>, ghost ranks: seq<nat>)
    returns (nk2: nat, scored2: seq<Neighbor>, ghost pools2: seq<seq<Neighbor>>, ghost ranks2: seq<nat>)
    requires ValidGraph(adj, |adj|) && ret.Length == L + 1 && flags.Length == |adj|
    requires Expanding(adj, qdist, ret[..], flags[..], L, n, m, nk, scored, flags0, ret0, pools, ranks) && m < |adj[n]|
    modifies ret, flags
    ensures Expanding(adj, qdist, ret[..], flags[..], L, n, m + 1, nk2, scored2, flags0, ret0, pools2, ranks2)
  {
    assert ret[..][..L] == ret[..L];
    ghost var before := flags[..];
    ghost var r0 := ret[..];
    var id := adj[n][m];
    nk2, scored2, pools2, ranks2 := nk, scored, pools, ranks;
    if !flags[id] {
      var r := VisitOne(adj, qdist, ret, flags, L, n, id);
      assert ret[..][..L] == ret[..L] && r0[..L] == old(ret[..L]);
      ExpandingVisit(adj, qdist, r0, ret[..], before, flags[..], L, n, m, nk, scored, flags0, ret0, pools, ranks, r);
      scored2 := scored + [Neighbor(id, qdist(id), true)];
      pools2 := pools + [ret[..L]];
      ranks2 := ranks + [r];
      if r < nk {
        nk2 := r;
      }
    } else {
      ExpandingSkip(adj, qdist, r0, before, L, n, m, nk, scored, flags0, ret0, pools, ranks);
    }
  }

  /** Expands node n: visits each unvisited neighbour in list order. Returns
      the smallest insertion rank nk (L when nothing was inserted) and the
      neighbours scored, in order, with the trace of pools and the rank of
      each visit. */
  method ExpandNode(adj: seq<seq<nat>>, qdist: nat -> nat, ret: array<Neighbor>, flags: array<bool>, L: nat, n: nat)
    returns (nk: nat, scored: seq<Neighbor>, ghost pools: seq<seq<Neighbor>>, ghost ranks: seq<nat>)
    requires ValidGraph(adj, |adj|) && n < |adj|
    requires 1 <= L && ret.Length == L + 1 && flags.Length == |adj|
    requires PoolInv(ret[..L], adj, flags[..], qdist, n)
    modifies ret, flags
    ensures nk <= L
    ensures PoolInv(ret[..L], adj, flags[..], qdist, Sentinel)
    ensures Trace(old(ret[..L]), ret[..L], scored, pools, ranks) && nk == MinRank(ranks, L)
    ensures multiset(NeighborIds(ret[..L])) <= multiset(NeighborIds(old(ret[..L]))) + multiset(NeighborIds(scored))
    ensures forall j :: 0 <= j < nk ==> ret[j] == old(ret[j])
    ensures forall x :: x in adj[n] ==> flags[x]
    ensures NewlyScored(old(flags[..]), flags[..], scored, qdist)
    ensures nk < L ==> |scored| > 0
  {
    nk, scored, pools, ranks := VisitAll(adj, qdist, ret, flags, L, n);
    ghost var flags0, ret0 := old(flags[..]), old(ret[..]);
    assert ret[..][..L] == ret[..L];
    ExpandingDone(adj, qdist, ret[..], flags[..], L, n, nk, scored, flags0, ret0, pools, ranks);
    assert ret0[..L] == old(ret[..L]);
  }

  /** The loop of ExpandNode: visits the neighbours of n in list order. */
  method VisitAll(adj: seq<seq<nat>>, qdist: nat -> nat, ret: array<Neighbor>, flags: array<bool>, L: nat, n: nat)
    returns (nk: nat, scored: seq<Neighbor>, ghost pools: seq<seq<Neighbor>>, ghost ranks: seq<nat>)
    requires ValidGraph(adj, |adj|) && n < |adj|
    requires 1 <= L && ret.Length == L + 1 && flags.Length == |adj|
    requires PoolInv(ret[..L], adj, flags[..], qdist, n)
    modifies ret, flags
    ensures Expanding(adj, qdist, ret[..], flags[..], L, n, |adj[n]|, nk, scored, old(flags[..]), old(ret[..]), pools, ranks)
  {
    nk := L;
    scored := [];
    ghost var flags0 := flags[..];
    ghost var ret0 := ret[..];
    assert ret[..][..L] == ret[..L];
    pools, ranks := [ret[..L]], [];
    var m := 0;
    while m < |adj[n]|
      invariant m <= |adj[n]|
      invariant Expanding(adj, qdist, ret[..], flags[..], L, n, m, nk, scored, flags0, ret0, pools, ranks)
    {
      nk, scored, pools, ranks := VisitNeighbor(adj, qdist, ret, flags, L, n, m, nk, scored, flags0, ret0, pools, ranks);
      m := m + 1;
    }
  }

  /** Once every neighbour of n is visited, n's entries are closed too. */
  lemma ExpandingDone(adj: seq<seq<nat>>, qdist: nat -> nat, r: seq<Neighbor>, flags: seq<bool>, L: nat, n: nat,
                      nk: nat, scored: seq<Neighbor>, flags0: seq<bool>, ret0: seq<Neighbor>,
                      pools: seq<seq<Neighbor>>, ranks: seq<nat>)
    requires n < |adj|
    requires Expanding(adj, qdist, r, flags, L, n, |adj[n]|, nk, scored, flags0, ret0, pools, ranks)
    ensures PoolInv(r[..L], adj, flags, qdist, Sentinel)
    ensures forall x :: x in adj[n] ==> x < |flags| && flags[x]
  {
    forall x | x in adj[n] ensures x < |flags| && flags[x] {
      var t :| 0 <= t < |adj[n]| && adj[n][t] == x;
    }
    CloseBusy(r[..L], adj, flags, qdist, n);
  }

  /** Clearing an entry's flag starts its expansion. */
  lemma ClearFlag(pool: seq<Neighbor>, adj: seq<seq<nat>>, flags: seq<bool>, qdist: nat -> nat, k: nat)
    requires PoolInv(pool, adj, flags, qdist, Sentinel) && k < |pool|
    ensures PoolInv(pool[k := pool[k].(flag := false)], adj, flags, qdist, pool[k].id)
  {
    var pool2 := pool[k := pool[k].(flag := false)];
    assert forall j :: 0 <= j < |pool| ==> pool2[j].id == pool[j].id && pool2[j].distance == pool[j].distance;
    forall u | 0 <= u < |flags| && flags[u] && InPool(pool, u) ensures InPool(pool2, u) {
      var j :| 0 <= j < |pool| && pool[j].id == u;
      assert pool2[j].id == u;
    }
  }

  /** With every entry expanded the pool is a local optimum, and every
      neighbour of a pooled node is a seed or was scored. */
  lemma Finished(pool: seq<Neighbor>, adj: seq<seq<nat>>, flags: seq<bool>, qdist: nat -> nat,
                 init: seq<nat>, fullset: seq<Neighbor>)
    requires PoolInv(pool, adj, flags, qdist, Sentinel)
    requires forall j :: 0 <= j < |pool| ==> !pool[j].flag
    requires FlagsAre(flags, init, fullset)
    requires forall i :: 0 <= i < |init| ==> init[i] < |flags|
    ensures LocallyOptimal(pool, adj, qdist)
    ensures forall i :: 0 <= i < |init| ==> InPool(pool, init[i]) || qdist(init[i]) >= pool[|pool| - 1].distance
    ensures forall j, x :: 0 <= j < |pool| && x in adj[pool[j].id] ==> x in init || x in NeighborIds(fullset)
    ensures forall i :: 0 <= i < |fullset| && fullset[i].id < |flags| && fullset[i].distance == qdist(fullset[i].id) ==>
              InPool(pool, fullset[i].id) || fullset[i].distance >= pool[|pool| - 1].distance
  {
    forall i | 0 <= i < |init|
      ensures InPool(pool, init[i]) || qdist(init[i]) >= pool[|pool| - 1].distance
    {
      assert flags[init[i]];
    }
    forall i | 0 <= i < |fullset| && fullset[i].id < |flags| && fullset[i].distance == qdist(fullset[i].id)
      ensures InPool(pool, fullset[i].id) || fullset[i].distance >= pool[|pool| - 1].distance
    {
      assert NeighborIds(fullset)[i] == fullset[i].id;
      assert flags[fullset[i].id];
    }
  }

  /** The seeds scored in slot order, each flagged as not yet expanded. */
  function Scores(init: seq<nat>, qdist: nat -> nat): (s: seq<Neighbor>)
    ensures |s| == |init| && NeighborIds(s) == init
    ensures forall j :: 0 <= j < |init| ==> s[j] == Neighbor(init[j], qdist(init[j]), true)
  {
    seq(|init|, j requires 0 <= j < |init| => Neighbor(init[j], qdist(init[j]), true))
  }

  /** Scores the seeds in slot order and flags them. */
  method ScoreSeeds(adj: seq<seq<nat>>, init: seq<nat>, qdist: nat -> nat, L: nat)
    returns (ret: array<Neighbor>, flags: array<bool>)
    requires 1 <= L == |init|
    requires forall i :: 0 <= i < |init| ==> init[i] < |adj|
    ensures fresh(ret) && fresh(flags)
    ensures ret.Length == L + 1 && flags.Length == |adj|
    ensures forall j :: 0 <= j < L ==> ret[j] == Neighbor(init[j], qdist(init[j]), true)
    ensures forall v :: 0 <= v < |adj| ==> (flags[v] <==> v in init)
  {
    flags := new bool[|adj|](_ => false);
    ret := new Neighbor[L + 1](_ => Neighbor(0, 0, false));
    var i := 0;
    while i < L
      invariant 0 <= i <= L
      invariant forall j :: 0 <= j < i ==> ret[j] == Neighbor(init[j], qdist(init[j]), true)
      invariant forall v :: 0 <= v < |adj| ==> (flags[v] <==> v in init[..i])
    {
      ret[i] := Neighbor(init[i], qdist(init[i]), true);
      flags[init[i]] := true;
      assert init[..i + 1] == init[..i] + [init[i]];
      i := i + 1;
    }
    assert init[..L] == init;
  }

  /** Sorting the scored seeds yields a pool that satisfies the invariant. */
  lemma SeedPool(seeds: seq<Neighbor>, init: seq<nat>, adj: seq<seq<nat>>, flags: seq<bool>, qdist: nat -> nat)
    requires |seeds| == |init| >= 1 && |flags| == |adj|
    requires forall i :: 0 <= i < |init| ==> init[i] < |adj|
    requires forall j :: 0 <= j < |seeds| ==> seeds[j] == Neighbor(init[j], qdist(init[j]), true)
    requires forall v :: 0 <= v < |adj| ==> (flags[v] <==> v in init)
    ensures PoolInv(SortBy(seeds, NeighborKey), adj, flags, qdist, Sentinel)
    ensures forall j :: 0 <= j < |seeds| ==> SortBy(seeds, NeighborKey)[j].flag
  {
    var sorted := SortBy(seeds, NeighborKey);
    forall j | 0 <= j < |sorted|
      ensures sorted[j].id < |adj| && sorted[j].distance == qdist(sorted[j].id)
      ensures flags[sorted[j].id] && sorted[j].flag
    {
      assert sorted[j] in seeds;
      var i :| 0 <= i < |seeds| && seeds[i] == sorted[j];
      assert sorted[j].id == init[i];
    }
    assert Scored(sorted, |adj|, qdist) && Marked(sorted, flags);
    forall v | 0 <= v < |adj| && flags[v] ensures InPool(sorted, v) {
      var j :| 0 <= j < |init| && init[j] == v;
      assert seeds[j] in sorted;
      var k :| 0 <= k < |sorted| && sorted[k] == seeds[j];
      assert sorted[k].id == v;
    }
    assert Covered(sorted, flags, qdist);
    assert Closed(sorted, adj, flags, Sentinel);
  }

  /** Scores the seeds, flags them, and sorts them into the pool. */
  method Seed(adj: seq<seq<nat>>, init: seq<nat>, qdist: nat -> nat, L: nat)
    returns (ret: array<Neighbor>, flags: array<bool>)
    requires 1 <= L == |init|
    requires forall i :: 0 <= i < |init| ==> init[i] < |adj|
    ensures fresh(ret) && fresh(flags)
    ensures ret.Length == L + 1 && flags.Length == |adj|
    ensures PoolInv(ret[..L], adj, flags[..], qdist, Sentinel)
    ensures ret[..L] == SortBy(Scores(init, qdist), NeighborKey)
    ensures multiset(NeighborIds(ret[..L])) == multiset(init)
    ensures forall j :: 0 <= j < L ==> ret[j].flag
    ensures forall v :: 0 <= v < |adj| ==> (flags[v] <==> v in init)
  {
    ret, flags := ScoreSeeds(adj, init, qdist, L);
    assert ret[..L] == Scores(init, qdist);
    SortByIds(ret[..L], NeighborKey);
    SeedPool(ret[..L], init, adj, flags[..], qdist);
    var sorted := SortBy(ret[..L], NeighborKey);
    forall j | 0 <= j < L {
      ret[j] := sorted[j];
    }
    assert ret[..L] == sorted;
  }

  /** Expands the entry at the cursor: clears its flag and visits its node's
      neighbours. Entries before the cursor and before the smallest insertion
      rank stay expanded. */
  method ExpandAt(adj: seq<seq<nat>>, qdist: nat -> nat, ret: array<Neighbor>, flags: array<bool>, L: nat, k: nat)
    returns (nk: nat, scored: seq<Neighbor>, ghost pools: seq<seq<Neighbor>>, ghost ranks: seq<nat>)
    requires ValidGraph(adj, |adj|)
    requires 1 <= L && k < L && ret.Length == L + 1 && flags.Length == |adj|
    requires PoolInv(ret[..L], adj, flags[..], qdist, Sentinel)
    requires forall j :: 0 <= j < k ==> !ret[j].flag
    modifies ret, flags
    ensures nk <= L
    ensures PoolInv(ret[..L], adj, flags[..], qdist, Sentinel)
    ensures Trace(old(ret[..L])[k := old(ret[k]).(flag := false)], ret[..L], scored, pools, ranks)
    ensures nk == MinRank(ranks, L)
    ensures multiset(NeighborIds(ret[..L])) <= multiset(NeighborIds(old(ret[..L]))) + multiset(NeighborIds(scored))
    ensures forall j :: 0 <= j <= k && j < nk ==> !ret[j].flag
    ensures NewlyScored(old(flags[..]), flags[..], scored, qdist)
    ensures nk < L ==> |scored| > 0
  {
    ClearFlag(ret[..L], adj, flags[..], qdist, k);
    ghost var pool := ret[..L];
    ret[k] := ret[k].(flag := false);
    assert ret[..L] == pool[k := pool[k].(flag := false)];
    assert NeighborIds(ret[..L]) == NeighborIds(pool);
    assert forall j :: 0 <= j <= k ==> !ret[j].flag;
    nk, scored, pools, ranks := ExpandNode(adj, qdist, ret, flags, L, ret[k].id);
  }

  /** The nodes scored while expanding: each once, none a seed, with its distance. */
  predicate FullsetOk(fullset: seq<Neighbor>, init: seq<nat>, nd: nat, qdist: nat -> nat) {
    && Distinct(NeighborIds(fullset))
    && (forall i :: 0 <= i < |fullset| ==> fullset[i].id !in init)
    && (forall i :: 0 <= i < |fullset| ==> fullset[i].id < nd && fullset[i].distance == qdist(fullset[i].id))
  }

  /** The visited bitset holds exactly the seeds and the scored nodes. */
  predicate FlagsAre(flags: seq<bool>, init: seq<nat>, fullset: seq<Neighbor>) {
    forall v :: 0 <= v < |flags| ==> (flags[v] <==> v in init || v in NeighborIds(fullset))
  }

  lemma FullsetGrows(flags0: seq<bool>, flags1: seq<bool>, fullset: seq<Neighbor>, scored: seq<Neighbor>,
                     init: seq<nat>, qdist: nat -> nat)
    requires FlagsAre(flags0, init, fullset) && FullsetOk(fullset, init, |flags0|, qdist)
    requires NewlyScored(flags0, flags1, scored, qdist)
    ensures FlagsAre(flags1, init, fullset + scored) && FullsetOk(fullset + scored, init, |flags0|, qdist)
    ensures |fullset + scored| <= |flags0|
  {
    NeighborIdsAppend(fullset, scored);
    var all := fullset + scored;
    forall i, j | 0 <= i < j < |all| ensures all[i].id != all[j].id {
      if i < |fullset| && j >= |fullset| {
        assert all[j] == scored[j - |fullset|];
        assert all[i].id in NeighborIds(fullset);
      } else if i >= |fullset| {
        assert NeighborIds(scored)[i - |fullset|] == all[i].id;
        assert NeighborIds(scored)[j - |fullset|] == all[j].id;
      } else {
        assert NeighborIds(fullset)[i] == all[i].id;
        assert NeighborIds(fullset)[j] == all[j].id;
      }
    }
    forall i | 0 <= i < |all| ensures all[i].id !in init {
      if i >= |fullset| {
        assert all[i] == scored[i - |fullset|];
      }
    }
    DistinctBound(NeighborIds(all), |flags0|);
  }

  /** The pool's ids are seeds or scored nodes, each at most as often as
      it was seeded plus scored. */
  predicate Drawn(pool: seq<Neighbor>, init: seq<nat>, fullset: seq<Neighbor>) {
    multiset(NeighborIds(pool)) <= multiset(init) + multiset(NeighborIds(fullset))
  }

  lemma DrawnGrows(pool0: seq<Neighbor>, pool1: seq<Neighbor>, init: seq<nat>, fullset: seq<Neighbor>, scored: seq<Neighbor>)
    requires Drawn(pool0, init, fullset)
    requires multiset(NeighborIds(pool1)) <= multiset(NeighborIds(pool0)) + multiset(NeighborIds(scored))
    ensures Drawn(pool1, init, fullset + scored)
  {
    NeighborIdsAppend(fullset, scored);
  }

  /** The state of the search loop with the cursor at k: the pool invariant,
      every entry before k expanded, the bitset holding exactly the seeds and
      the scored nodes, and the pool drawn from them. */
  ghost predicate Searching(pool: seq<Neighbor>, adj: seq<seq<nat>>, flags: seq<bool>, init: seq<nat>,
                            qdist: nat -> nat, fullset: seq<Neighbor>, k: nat) {
    && k <= |pool|
    && PoolInv(pool, adj, flags, qdist, Sentinel)
    && (forall j :: 0 <= j < k ==> !pool[j].flag)
    && FlagsAre(flags, init, fullset)
    && FullsetOk(fullset, init, |adj|, qdist)
    && Drawn(pool, init, fullset)
    && |fullset| <= |adj|
  }

  /** One round of the loop: expand the entry at the cursor if it is still
      flagged (nk is then the smallest rank of that expansion's visits, and
      L otherwise), then rewind the cursor to nk if that is not after it,
      and advance it otherwise. */
  method Step(adj: seq<seq<nat>>, init: seq<nat>, qdist: nat -> nat, ret: array<Neighbor>, flags: array<bool>,
              L: nat, k: nat, fullset: seq<Neighbor>)
    returns (k2: nat, fullset2: seq<Neighbor>, nk: nat, ghost pools: seq<seq<Neighbor>>, ghost ranks: seq<nat>)
    requires ValidGraph(adj, |adj|)
    requires 1 <= L && k < L && ret.Length == L + 1 && flags.Length == |adj|
    requires Searching(ret[..L], adj, flags[..], init, qdist, fullset, k)
    modifies ret, flags
    ensures k2 == if nk <= k then nk else k + 1
    ensures old(ret[k].flag) ==> && fullset <= fullset2
                                 && Trace(old(ret[..L])[k := old(ret[k]).(flag := false)], ret[..L],
                                          fullset2[|fullset|..], pools, ranks)
                                 && nk == MinRank(ranks, L)
    ensures !old(ret[k].flag) ==> nk == L && fullset2 == fullset && ret[..L] == old(ret[..L]) && flags[..] == old(flags[..])
    ensures Searching(ret[..L], adj, flags[..], init, qdist, fullset2, k2)
    ensures |fullset2| > |fullset| || (fullset2 == fullset && k2 > k)
  {
    nk := L;
    fullset2 := fullset;
    ghost var p0 := ret[..L];
    pools, ranks := [p0], [];
    if ret[k].flag {
      ghost var flags0 := flags[..];
      ghost var e0 := ret[k];
      var scored;
      nk, scored, pools, ranks := ExpandAt(adj, qdist, ret, flags, L, k);
      FullsetGrows(flags0, flags[..], fullset, scored, init, qdist);
      DrawnGrows(p0, ret[..L], init, fullset, scored);
      fullset2 := fullset + scored;
      assert fullset2[|fullset|..] == scored;
      assert Trace(p0[k := e0.(flag := false)], ret[..L], fullset2[|fullset|..], pools, ranks);
    }
    if nk <= k {
      k2 := nk;
    } else {
      k2 := k + 1;
    }
  }

  /** The search loop over a graph given as adjacency lists, from L seeds.
      Returns the final pool retset[0..L) and every node scored while
      expanding (the fullset of the query overload of get_neighbors). */
  method Search(adj: seq<seq<nat>>, init: seq<nat>, qdist: nat -> nat, L: nat)
    returns (pool: seq<Neighbor>, fullset: seq<Neighbor>)
    requires ValidGraph(adj, |adj|)
    requires 1 <= L == |init|
    requires forall i :: 0 <= i < |init| ==> init[i] < |adj|
    ensures |pool| == L
    ensures Outcome(pool, fullset, adj, init, qdist)
  {
    var nd := |adj|;
    var ret, flags := Seed(adj, init, qdist, L);
    fullset := [];
    var k: nat := 0;
    assert Drawn(ret[..L], init, fullset);
    while k < L
      invariant Searching(ret[..L], adj, flags[..], init, qdist, fullset, k)
      decreases nd - |fullset|, L - k
    {
      var nk;
      ghost var pools, ranks;
      k, fullset, nk, pools, ranks := Step(adj, init, qdist, ret, flags, L, k, fullset);
    }
    pool := ret[..L];
    SearchDone(pool, adj, flags[..], init, qdist, fullset);
  }

  /** What the search ends with: a non-empty pool, sorted, scored, every
      entry expanded, and locally optimal; the scored set repeat-free and
      free of seeds; the pool's ids drawn from the seeds and the scored
      nodes; every seed and every scored node pooled or no closer than the
      last entry; every neighbour of a pooled node a seed or scored. */
  ghost predicate Outcome(pool: seq<Neighbor>, fullset: seq<Neighbor>, adj: seq<seq<nat>>, init: seq<nat>,
                          qdist: nat -> nat) {
    && |pool| >= 1
    && SortedBy(pool, NeighborKey)
    && Scored(pool, |adj|, qdist)
    && (forall j :: 0 <= j < |pool| ==> !pool[j].flag)
    && LocallyOptimal(pool, adj, qdist)
    && FullsetOk(fullset, init, |adj|, qdist)
    && Drawn(pool, init, fullset)
    && (forall i :: 0 <= i < |init| ==> InPool(pool, init[i]) || qdist(init[i]) >= pool[|pool| - 1].distance)
    && (forall i :: 0 <= i < |fullset| ==> InPool(pool, fullset[i].id) || fullset[i].distance >= pool[|pool| - 1].distance)
    && (forall j, x :: 0 <= j < |pool| && x in adj[pool[j].id] ==> x in init || x in NeighborIds(fullset))
  }

  /** The loop's state with the cursor past the end gives the outcome. */
  lemma SearchDone(pool: seq<Neighbor>, adj: seq<seq<nat>>, flags: seq<bool>, init: seq<nat>,
                   qdist: nat -> nat, fullset: seq<Neighbor>)
    requires Searching(pool, adj, flags, init, qdist, fullset, |pool|)
    requires forall i :: 0 <= i < |init| ==> init[i] < |adj|
    ensures Outcome(pool, fullset, adj, init, qdist)
  {
    Finished(pool, adj, flags, qdist, init, fullset);
  }
}
