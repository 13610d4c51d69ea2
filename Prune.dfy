/** Greedy diversified edge selection and the fixed-capacity edge rows it
    writes. The cosine test of the source is a parameter `occludes`, applied to
    the three numbers the source feeds it: the candidate's distance to the
    centre, the accepted entry's distance to the centre, and the distance
    between the two. */
module Prune {
  import opened Pool

  /** The accepted entry r rules candidate c out: same node, or r occludes c. */
  predicate Rejects(r: SimpleNeighbor, c: SimpleNeighbor, dist: (nat, nat) -> nat, occludes: (int, int, nat) -> bool) {
    c.id == r.id || occludes(c.distance, r.distance, dist(r.id, c.id))
  }

  /** Some entry of acc rules c out. */
  predicate Occluded(c: SimpleNeighbor, acc: seq<SimpleNeighbor>, dist: (nat, nat) -> nat, occludes: (int, int, nat) -> bool) {
    exists t :: 0 <= t < |acc| && Rejects(acc[t], c, dist, occludes)
  }

  /** No accepted entry is ruled out by an entry accepted before it. */
  predicate Diversified(r: seq<SimpleNeighbor>, dist: (nat, nat) -> nat, occludes: (int, int, nat) -> bool) {
    forall i, t :: 0 <= t < i < |r| ==> !Rejects(r[t], r[i], dist, occludes)
  }

  predicate IsSubsequence<T(==)>(a: seq<T>, b: seq<T>)
    decreases |b|
  {
    a == [] || (b != [] && ((a[0] == b[0] && IsSubsequence(a[1..], b[1..])) || IsSubsequence(a, b[1..])))
  }

  lemma {:induction false} SubsequenceMembers<T>(a: seq<T>, b: seq<T>)
    requires IsSubsequence(a, b)
    ensures forall x :: x in a ==> x in b
    decreases |b|
  {
    if a != [] {
      if a[0] == b[0] && IsSubsequence(a[1..], b[1..]) {
        SubsequenceMembers(a[1..], b[1..]);
        assert a == [a[0]] + a[1..];
        assert b == [b[0]] + b[1..];
      } else {
        SubsequenceMembers(a, b[1..]);
        assert b == [b[0]] + b[1..];
      }
    }
  }

  /** The scan of the selection loop: pool[j..] is still to be examined, acc
      holds what has been accepted so far, and the scan stops once range
      entries are accepted. */
  function Greedy(pool: seq<SimpleNeighbor>, j: nat, acc: seq<SimpleNeighbor>, range: nat,
                  dist: (nat, nat) -> nat, occludes: (int, int, nat) -> bool): (r: seq<SimpleNeighbor>)
    requires j <= |pool|
    ensures acc <= r
    ensures |r| <= if |acc| < range then range else |acc|
    decreases |pool| - j
  {
    if |acc| >= range || j == |pool| then acc
    else if Occluded(pool[j], acc, dist, occludes) then Greedy(pool, j + 1, acc, range, dist, occludes)
    else Greedy(pool, j + 1, acc + [pool[j]], range, dist, occludes)
  }

  /** What the scan adds is a subsequence of the part of the pool it examines. */
  lemma {:induction false} GreedySubsequence(pool: seq<SimpleNeighbor>, j: nat, acc: seq<SimpleNeighbor>, range: nat,
                                             dist: (nat, nat) -> nat, occludes: (int, int, nat) -> bool)
    requires j <= |pool|
    ensures IsSubsequence(Greedy(pool, j, acc, range, dist, occludes)[|acc|..], pool[j..])
    decreases |pool| - j
  {
    var r := Greedy(pool, j, acc, range, dist, occludes);
    if |acc| >= range || j == |pool| {
      assert r[|acc|..] == [];
    } else if Occluded(pool[j], acc, dist, occludes) {
      GreedySubsequence(pool, j + 1, acc, range, dist, occludes);
      assert pool[j..][1..] == pool[j + 1..];
    } else {
      var acc' := acc + [pool[j]];
      GreedySubsequence(pool, j + 1, acc', range, dist, occludes);
      assert r[|acc|..][0] == pool[j..][0];
      assert r[|acc|..][1..] == r[|acc'|..];
      assert pool[j..][1..] == pool[j + 1..];
    }
  }

  /** Every entry the scan adds passes the occlusion test against every entry
      accepted before it, so the accepted ids are also pairwise distinct. */
  lemma {:induction false} GreedyDiversified(pool: seq<SimpleNeighbor>, j: nat, acc: seq<SimpleNeighbor>, range: nat,
                                             dist: (nat, nat) -> nat, occludes: (int, int, nat) -> bool)
    requires j <= |pool|
    requires Diversified(acc, dist, occludes)
    ensures Diversified(Greedy(pool, j, acc, range, dist, occludes), dist, occludes)
    decreases |pool| - j
  {
    if |acc| >= range || j == |pool| {
    } else if Occluded(pool[j], acc, dist, occludes) {
      GreedyDiversified(pool, j + 1, acc, range, dist, occludes);
    } else {
      var acc' := acc + [pool[j]];
      forall i, t | 0 <= t < i < |acc'|
        ensures !Rejects(acc'[t], acc'[i], dist, occludes)
      {
        if i == |acc| {
          assert acc'[t] == acc[t];
        }
      }
      GreedyDiversified(pool, j + 1, acc', range, dist, occludes);
    }
  }

  /** A scan that ends below range examined the whole pool: every candidate
      it did not keep is ruled out by one it kept. */
  lemma {:induction false} GreedyComplete(pool: seq<SimpleNeighbor>, j: nat, acc: seq<SimpleNeighbor>, range: nat,
                                          dist: (nat, nat) -> nat, occludes: (int, int, nat) -> bool)
    requires j <= |pool|
    ensures var r := Greedy(pool, j, acc, range, dist, occludes);
            |r| < range ==> forall c :: c in pool[j..] ==> c in r || Occluded(c, r, dist, occludes)
    decreases |pool| - j
  {
    var r := Greedy(pool, j, acc, range, dist, occludes);
    if |acc| >= range || j == |pool| {
    } else {
      var acc' := if Occluded(pool[j], acc, dist, occludes) then acc else acc + [pool[j]];
      GreedyComplete(pool, j + 1, acc', range, dist, occludes);
      assert r == Greedy(pool, j + 1, acc', range, dist, occludes);
      if |r| < range {
        forall c | c in pool[j..]
          ensures c in r || Occluded(c, r, dist, occludes)
        {
          if c == pool[j] {
            if Occluded(pool[j], acc, dist, occludes) {
              var t :| 0 <= t < |acc| && Rejects(acc[t], c, dist, occludes);
              assert r[t] == acc[t];
            } else {
              assert r[|acc|] == pool[j];
            }
          } else {
            assert pool[j..] == [pool[j]] + pool[j + 1..];
          }
        }
      }
    }
  }

  /** The diversified selection shared by sync_prune and InterInsert: accept
      pool[start] outright, then scan the rest of the pool in order. */
  function Select(pool: seq<SimpleNeighbor>, start: nat, range: nat,
                  dist: (nat, nat) -> nat, occludes: (int, int, nat) -> bool): (r: seq<SimpleNeighbor>)
    requires start < |pool|
    ensures 1 <= |r| && (|r| <= range || |r| == 1)
    ensures r[0] == pool[start]
    ensures IsSubsequence(r, pool[start..])
    ensures forall x :: x in r ==> x in pool
    ensures Diversified(r, dist, occludes) && DistinctIds(r)
    ensures |r| < range ==> forall c :: c in pool[start..] ==> c in r || Occluded(c, r, dist, occludes)
  {
    var acc := [pool[start]];
    var r := Greedy(pool, start + 1, acc, range, dist, occludes);
    GreedySubsequence(pool, start + 1, acc, range, dist, occludes);
    GreedyDiversified(pool, start + 1, acc, range, dist, occludes);
    GreedyComplete(pool, start + 1, acc, range, dist, occludes);
    assert r == [r[0]] + r[1..];
    assert pool[start..] == [pool[start]] + pool[start + 1..];
    SubsequenceMembers(r, pool[start..]);
    assert forall c :: c in pool[start..] && c != pool[start] ==> c in pool[start + 1..];
    r
  }

  // ---------------------------------------------------------------------------
  // Edge rows: R slots of the shared buffer; a -1 distance ends the valid prefix.

  /** Index of the first sentinel slot, or the row length when there is none. */
  function FirstSentinel(row: seq<SimpleNeighbor>): (k: nat)
    ensures k <= |row|
    ensures forall j :: 0 <= j < k ==> !IsSentinel(row[j])
    ensures k < |row| ==> IsSentinel(row[k])
  {
    if row == [] then 0
    else if IsSentinel(row[0]) then 0
    else 1 + FirstSentinel(row[1..])
  }

  /** FirstSentinel is the only index with no sentinel before it and a
      sentinel (or the end of the row) at it. */
  lemma FirstSentinelAt(row: seq<SimpleNeighbor>, k: nat)
    requires k <= |row|
    requires forall j :: 0 <= j < k ==> !IsSentinel(row[j])
    requires k < |row| ==> IsSentinel(row[k])
    ensures FirstSentinel(row) == k
  {
  }

  /** The edges a row holds: the slots before its first sentinel. */
  function ValidPrefix(row: seq<SimpleNeighbor>): seq<SimpleNeighbor>
  {
    row[..FirstSentinel(row)]
  }

  predicate NoSentinel(s: seq<SimpleNeighbor>) {
    forall i :: 0 <= i < |s| ==> !IsSentinel(s[i])
  }

  /** The row after res is copied into its first slots and, when res leaves
      room, the next slot's distance is set to the sentinel (its id is kept). */
  function WriteRow(row: seq<SimpleNeighbor>, res: seq<SimpleNeighbor>): (r: seq<SimpleNeighbor>)
    requires |res| <= |row|
    ensures |r| == |row|
    ensures NoSentinel(res) ==> ValidPrefix(r) == res
  {
    if |res| < |row| then
      var r := res + [row[|res|].(distance := Sentinel)] + row[|res| + 1..];
      assert forall j :: 0 <= j < |res| ==> r[j] == res[j];
      assert IsSentinel(r[|res|]);
      if NoSentinel(res) then
        FirstSentinelAt(r, |res|);
        assert r[..|res|] == res;
        r
      else r
    else
      if NoSentinel(res) then
        FirstSentinelAt(res, |res|);
        res
      else res
  }

  /** The adjacency list a row stands for: the ids of its valid prefix. */
  function RowList(row: seq<SimpleNeighbor>): seq<nat> {
    Ids(ValidPrefix(row))
  }

  /** The list of a row has one id per slot before the first sentinel: none
      when slot 0 is the sentinel, every slot's id when there is no sentinel. */
  lemma RowListLength(row: seq<SimpleNeighbor>)
    ensures |RowList(row)| == FirstSentinel(row)
    ensures |row| >= 1 && IsSentinel(row[0]) ==> RowList(row) == []
    ensures NoSentinel(row) ==> RowList(row) == Ids(row)
  {
    if NoSentinel(row) {
      FirstSentinelAt(row, |row|);
      assert ValidPrefix(row) == row;
    }
  }

  /** The list Build copies out of a row, as written: the loop records the
      index of the last slot before the first sentinel, and one is added to
      it, so a row whose first slot is a sentinel still yields one id. */
  function BuiltListAsWritten(row: seq<SimpleNeighbor>): (r: seq<nat>)
    requires |row| >= 1
    ensures |r| >= 1
  {
    var k := FirstSentinel(row);
    var last := if k == 0 then 0 else k - 1;
    Ids(row[..last + 1])
  }

  /** An empty row (sentinel in slot 0) yields one stale id as written, where
      the row holds no edge. */
  lemma BuiltListOfEmptyRow()
    ensures var row := [SimpleNeighbor(5, Sentinel), SimpleNeighbor(2, 0)];
            RowList(row) == [] && BuiltListAsWritten(row) == [5]
  {
    var row := [SimpleNeighbor(5, Sentinel), SimpleNeighbor(2, 0)];
    FirstSentinelAt(row, 0);
  }

  /** Whenever the row holds at least one edge, the loop as written copies
      exactly the row's list. */
  lemma BuiltListAgrees(row: seq<SimpleNeighbor>)
    requires |row| >= 1 && |ValidPrefix(row)| >= 1
    ensures BuiltListAsWritten(row) == RowList(row)
  {
  }

  /** The invariant every row keeps once it has been pruned: a non-empty
      valid prefix of distinct ids, all naming nodes of the graph. */
  predicate RowOk(row: seq<SimpleNeighbor>, nd: nat) {
    var p := ValidPrefix(row);
    1 <= |p| && DistinctIds(p) && forall i :: 0 <= i < |p| ==> p[i].id < nd
  }

  // ---------------------------------------------------------------------------
  // sync_prune

  /** The pool entries sync_prune adds: each of q's current neighbours whose id
      is not among the pool's ids, in list order (repeats in the list are kept,
      as the bitset is not updated while adding). */
  function MissingNeighbors(poolIds: seq<nat>, nbrs: seq<nat>, q: nat, dist: (nat, nat) -> nat): (r: seq<Neighbor>)
    ensures forall i :: 0 <= i < |r| ==> r[i].id in nbrs && r[i].id !in poolIds && r[i].distance == dist(q, r[i].id)
    ensures forall x :: x in nbrs && x !in poolIds ==> x in NeighborIds(r)
    ensures |r| <= |nbrs|
  {
    if nbrs == [] then []
    else
      var x := nbrs[|nbrs| - 1];
      var front := nbrs[..|nbrs| - 1];
      var m := MissingNeighbors(poolIds, front, q, dist);
      var t := if x in poolIds then [] else [Neighbor(x, dist(q, x), true)];
      assert nbrs == front + [x];
      NeighborIdsAppend(m, t);
      assert x !in poolIds ==> NeighborIds(t) == [x];
      m + t
  }

  /** The candidates sync_prune sorts: the pool extended with q's missing neighbours. */
  function ExtendedPool(pool: seq<Neighbor>, nbrs: seq<nat>, q: nat, dist: (nat, nat) -> nat): seq<Neighbor>
  {
    pool + MissingNeighbors(NeighborIds(pool), nbrs, q, dist)
  }

  /** One more neighbour of q: appended when the pool lacks it. */
  lemma MissingSnoc(poolIds: seq<nat>, nbrs: seq<nat>, nn: nat, q: nat, dist: (nat, nat) -> nat)
    requires nn < |nbrs|
    ensures MissingNeighbors(poolIds, nbrs[..nn + 1], q, dist)
            == MissingNeighbors(poolIds, nbrs[..nn], q, dist)
               + (if nbrs[nn] in poolIds then [] else [Neighbor(nbrs[nn], dist(q, nbrs[nn]), true)])
  {
    assert nbrs[..nn + 1][..nn] == nbrs[..nn];
  }

  /** Some candidate is not q itself, so the selection has a first entry. */
  predicate HasOtherThan(s: seq<Neighbor>, q: nat) {
    exists i :: 0 <= i < |s| && s[i].id != q
  }

  function PruneCandidates(pool: seq<Neighbor>, nbrs: seq<nat>, q: nat, dist: (nat, nat) -> nat): (c: seq<SimpleNeighbor>)
    ensures SortedBy(c, SimpleKey)
    ensures multiset(c) == multiset(ToSimpleAll(ExtendedPool(pool, nbrs, q, dist)))
  {
    SortBy(ToSimpleAll(ExtendedPool(pool, nbrs, q, dist)), SimpleKey)
  }

  /** Where the selection starts: past a leading entry for q itself. */
  function PruneStart(c: seq<SimpleNeighbor>, q: nat): nat
    requires |c| >= 1
  {
    if c[0].id == q then 1 else 0
  }

  /** The row contents sync_prune computes for q. */
  function PruneSelection(pool: seq<Neighbor>, nbrs: seq<nat>, q: nat, range: nat,
                          dist: (nat, nat) -> nat, occludes: (int, int, nat) -> bool): (r: seq<SimpleNeighbor>)
    requires HasOtherThan(ExtendedPool(pool, nbrs, q, dist), q)
  {
    var c := PruneCandidates(pool, nbrs, q, dist);
    PruneCandidatesLong(pool, nbrs, q, dist);
    Select(c, PruneStart(c, q), range, dist, occludes)
  }

  lemma PruneCandidatesLong(pool: seq<Neighbor>, nbrs: seq<nat>, q: nat, dist: (nat, nat) -> nat)
    requires HasOtherThan(ExtendedPool(pool, nbrs, q, dist), q)
    ensures var c := PruneCandidates(pool, nbrs, q, dist);
            |c| >= 1 && PruneStart(c, q) < |c|
  {
    var e := ExtendedPool(pool, nbrs, q, dist);
    var i :| 0 <= i < |e| && e[i].id != q;
    var s := ToSimpleAll(e);
    var c := PruneCandidates(pool, nbrs, q, dist);
    assert s[i] in multiset(s);
    assert s[i] in c;
    var m :| 0 <= m < |c| && c[m] == s[i];
    if c[0].id == q {
      assert m != 0;
    }
  }

  /** The row sync_prune leaves: between 1 and range entries (range >= 1),
      starting with the closest candidate other than a leading q, drawn in
      order from the sorted candidates, with distinct ids, mutually
      non-occluding, each one either a pool entry or one of q's neighbours. */
  lemma {:induction false} PruneSelectionShape(pool: seq<Neighbor>, nbrs: seq<nat>, q: nat, range: nat,
                                               dist: (nat, nat) -> nat, occludes: (int, int, nat) -> bool)
    requires range >= 1
    requires HasOtherThan(ExtendedPool(pool, nbrs, q, dist), q)
    ensures var c := PruneCandidates(pool, nbrs, q, dist);
            var r := PruneSelection(pool, nbrs, q, range, dist, occludes);
            && 1 <= |r| <= range
            && (c[0].id == q ==> r[0] == c[1])
            && (c[0].id != q ==> r[0] == c[0])
            && IsSubsequence(r, c[PruneStart(c, q)..])
            && DistinctIds(r)
            && Diversified(r, dist, occludes)
            && forall i :: 0 <= i < |r| ==> r[i].id in NeighborIds(pool) || r[i].id in nbrs
  {
    var c := PruneCandidates(pool, nbrs, q, dist);
    var r := PruneSelection(pool, nbrs, q, range, dist, occludes);
    var e := ExtendedPool(pool, nbrs, q, dist);
    PruneCandidatesLong(pool, nbrs, q, dist);
    forall i | 0 <= i < |r|
      ensures r[i].id in NeighborIds(pool) || r[i].id in nbrs
    {
      assert r[i] in c;
      assert r[i] in multiset(ToSimpleAll(e));
      var m :| 0 <= m < |e| && ToSimpleAll(e)[m] == r[i];
      if m < |pool| {
        assert e[m] == pool[m];
        assert NeighborIds(pool)[m] == r[i].id;
      } else {
        var mn := MissingNeighbors(NeighborIds(pool), nbrs, q, dist);
        assert e[m] == mn[m - |pool|];
      }
    }
  }

  // ---------------------------------------------------------------------------
  // InterInsert, one edge at a time

  /** Row d after InterInsert offers it the reverse of an edge n -> d, as
      sn = (n, distance of the edge): unchanged when n is already among its
      edges; sn appended at the first sentinel when the row has room; and
      otherwise the diversified selection over the row's edges plus sn. */
  function Reciprocated(row: seq<SimpleNeighbor>, sn: SimpleNeighbor, range: nat,
                        dist: (nat, nat) -> nat, occludes: (int, int, nat) -> bool): seq<SimpleNeighbor>
    requires |row| == range >= 1
  {
    var p := ValidPrefix(row);
    if sn.id in Ids(p) then row
    else if |p| < range then WriteRow(row, p + [sn])
    else WriteRow(row, Select(SortBy(p + [sn], SimpleKey), 0, range, dist, occludes))
  }

  /** What reciprocating one edge does to a pruned row, case by case, and
      that the row stays pruned (non-empty, distinct ids, ids below nd). */
  lemma ReciprocatedShape(row: seq<SimpleNeighbor>, sn: SimpleNeighbor, range: nat, nd: nat,
                          dist: (nat, nat) -> nat, occludes: (int, int, nat) -> bool)
    requires |row| == range >= 1
    requires RowOk(row, nd) && sn.id < nd && !IsSentinel(sn)
    ensures var p := ValidPrefix(row);
            var r := Reciprocated(row, sn, range, dist, occludes);
            && RowOk(r, nd)
            && |r| == range
            && (sn.id in Ids(p) ==> r == row)
            && (sn.id !in Ids(p) && |p| < range ==>
                  ValidPrefix(r) == p + [sn] && (|p| + 1 < range ==> IsSentinel(r[|p| + 1])))
            && (sn.id !in Ids(p) && |p| == range ==>
                  ValidPrefix(r) == Select(SortBy(p + [sn], SimpleKey), 0, range, dist, occludes)
                  && forall e :: e in ValidPrefix(r) ==> e in p || e == sn)
  {
    var p := ValidPrefix(row);
    var r := Reciprocated(row, sn, range, dist, occludes);
    assert NoSentinel(p);
    if sn.id in Ids(p) {
    } else if |p| < range {
      var res := p + [sn];
      assert NoSentinel(res);
      assert ValidPrefix(r) == res;
      forall i, j | 0 <= i < j < |res|
        ensures res[i].id != res[j].id
      {
        if j == |p| {
          assert Ids(p)[i] == p[i].id;
        }
      }
    } else {
      var c := SortBy(p + [sn], SimpleKey);
      var res := Select(c, 0, range, dist, occludes);
      assert forall e :: e in res ==> e in p + [sn];
      assert NoSentinel(res) by {
        forall i | 0 <= i < |res| ensures !IsSentinel(res[i]) {
          assert res[i] in p + [sn];
        }
      }
      assert ValidPrefix(r) == res;
      forall i | 0 <= i < |res| ensures res[i].id < nd {
        assert res[i] in p + [sn];
      }
    }
  }

  /** When q lists some node other than itself, the extended pool has a
      candidate other than q, so sync_prune has a first entry to keep. */
  lemma ExtendedHasOther(pool: seq<Neighbor>, nbrs: seq<nat>, q: nat, dist: (nat, nat) -> nat)
    requires exists x :: x in nbrs && x != q
    ensures HasOtherThan(ExtendedPool(pool, nbrs, q, dist), q)
  {
    var x :| x in nbrs && x != q;
    var e := ExtendedPool(pool, nbrs, q, dist);
    if x in NeighborIds(pool) {
      var j :| 0 <= j < |pool| && NeighborIds(pool)[j] == x;
      assert e[j] == pool[j];
    } else {
      var m := MissingNeighbors(NeighborIds(pool), nbrs, q, dist);
      var j :| 0 <= j < |m| && NeighborIds(m)[j] == x;
      assert e[|pool| + j] == m[j];
    }
  }

  /** The row sync_prune writes is pruned: its valid prefix is exactly the
      selection, non-empty, with distinct ids below nd (pool distances are
      non-negative, so no selected entry looks like a sentinel). */
  lemma PruneRowOk(row: seq<SimpleNeighbor>, pool: seq<Neighbor>, nbrs: seq<nat>, q: nat, range: nat, nd: nat,
                   dist: (nat, nat) -> nat, occludes: (int, int, nat) -> bool)
    requires |row| == range >= 1
    requires HasOtherThan(ExtendedPool(pool, nbrs, q, dist), q)
    requires forall i :: 0 <= i < |pool| ==> pool[i].id < nd && pool[i].distance >= 0
    requires forall x :: x in nbrs ==> x < nd
    ensures |PruneSelection(pool, nbrs, q, range, dist, occludes)| <= range
    ensures ValidPrefix(WriteRow(row, PruneSelection(pool, nbrs, q, range, dist, occludes)))
            == PruneSelection(pool, nbrs, q, range, dist, occludes)
    ensures RowOk(WriteRow(row, PruneSelection(pool, nbrs, q, range, dist, occludes)), nd)
  {
    var r := PruneSelection(pool, nbrs, q, range, dist, occludes);
    var c := PruneCandidates(pool, nbrs, q, dist);
    var e := ExtendedPool(pool, nbrs, q, dist);
    PruneSelectionShape(pool, nbrs, q, range, dist, occludes);
    PruneCandidatesLong(pool, nbrs, q, dist);
    forall i | 0 <= i < |r|
      ensures !IsSentinel(r[i]) && r[i].id < nd
    {
      assert r[i] in c;
      assert r[i] in multiset(ToSimpleAll(e));
      var m :| 0 <= m < |e| && ToSimpleAll(e)[m] == r[i];
      if m >= |pool| {
        var mn := MissingNeighbors(NeighborIds(pool), nbrs, q, dist);
        assert e[m] == mn[m - |pool|];
      }
      if r[i].id in NeighborIds(pool) {
        var j :| 0 <= j < |pool| && NeighborIds(pool)[j] == r[i].id;
      }
    }
    assert NoSentinel(r);
  }

  // ---------------------------------------------------------------------------
  // The whole buffer

  /** Every row has R slots and is pruned. */
  predicate RowsOk(rows: seq<seq<SimpleNeighbor>>, nd: nat, range: nat) {
    && |rows| == nd && range >= 1
    && forall i :: 0 <= i < nd ==> |rows[i]| == range && RowOk(rows[i], nd)
  }

  /** InterInsert(n) as a fold: each edge n -> d of n's row, in order, offers
      (n, distance) to row d. Every row stays pruned. */
  function ReciprocateAll(rows: seq<seq<SimpleNeighbor>>, n: nat, edges: seq<SimpleNeighbor>, range: nat, nd: nat,
                          dist: (nat, nat) -> nat, occludes: (int, int, nat) -> bool): (r: seq<seq<SimpleNeighbor>>)
    requires RowsOk(rows, nd, range) && n < nd
    requires forall j :: 0 <= j < |edges| ==> edges[j].id < nd && !IsSentinel(edges[j])
    ensures RowsOk(r, nd, range)
    decreases |edges|
  {
    if edges == [] then rows
    else
      var p := ReciprocateAll(rows, n, edges[..|edges| - 1], range, nd, dist, occludes);
      var e := edges[|edges| - 1];
      var sn := SimpleNeighbor(n, e.distance);
      assert e.id < nd && !IsSentinel(e);
      assert |p[e.id]| == range && RowOk(p[e.id], nd);
      ReciprocatedShape(p[e.id], sn, range, nd, dist, occludes);
      p[e.id := Reciprocated(p[e.id], sn, range, dist, occludes)]
  }

  /** The fold over one more edge offers that edge's reverse to its target row. */
  lemma ReciprocateAllSnoc(rows: seq<seq<SimpleNeighbor>>, n: nat, edges: seq<SimpleNeighbor>, i: nat, range: nat,
                           nd: nat, dist: (nat, nat) -> nat, occludes: (int, int, nat) -> bool)
    requires RowsOk(rows, nd, range) && n < nd
    requires forall j :: 0 <= j < |edges| ==> edges[j].id < nd && !IsSentinel(edges[j])
    requires i < |edges|
    ensures var p := ReciprocateAll(rows, n, edges[..i], range, nd, dist, occludes);
            && |p[edges[i].id]| == range
            && ReciprocateAll(rows, n, edges[..i + 1], range, nd, dist, occludes)
               == p[edges[i].id := Reciprocated(p[edges[i].id], SimpleNeighbor(n, edges[i].distance), range, dist, occludes)]
  {
    assert edges[..i + 1][..i] == edges[..i];
  }

  /** The fold over the first i + 1 edges of n's own row, when row n is still
      as it was: the i-th edge is reciprocated into its target row, and row n
      stays as it was (an edge n -> n finds n already in the row). */
  lemma ReciprocateAllStep(rows: seq<seq<SimpleNeighbor>>, n: nat, i: nat, range: nat, nd: nat,
                           dist: (nat, nat) -> nat, occludes: (int, int, nat) -> bool)
    requires RowsOk(rows, nd, range) && n < nd && i < |ValidPrefix(rows[n])|
    requires ReciprocateAll(rows, n, ValidPrefix(rows[n])[..i], range, nd, dist, occludes)[n] == rows[n]
    ensures var e := ValidPrefix(rows[n])[i];
            var p := ReciprocateAll(rows, n, ValidPrefix(rows[n])[..i], range, nd, dist, occludes);
            var r := ReciprocateAll(rows, n, ValidPrefix(rows[n])[..i + 1], range, nd, dist, occludes);
            && e.id < nd && |p[e.id]| == range
            && r == p[e.id := Reciprocated(p[e.id], SimpleNeighbor(n, e.distance), range, dist, occludes)]
            && r[n] == rows[n]
  {
    var edges := ValidPrefix(rows[n]);
    ReciprocateAllSnoc(rows, n, edges, i, range, nd, dist, occludes);
    if edges[i].id == n {
      assert Ids(edges)[i] == n;
    }
  }

  /** The second phase of Link as a fold: InterInsert for nodes 0..m-1 in turn. */
  function InsertAll(rows: seq<seq<SimpleNeighbor>>, m: nat, range: nat, nd: nat,
                     dist: (nat, nat) -> nat, occludes: (int, int, nat) -> bool): (r: seq<seq<SimpleNeighbor>>)
    requires RowsOk(rows, nd, range) && m <= nd
    ensures RowsOk(r, nd, range)
  {
    if m == 0 then rows
    else
      var p := InsertAll(rows, m - 1, range, nd, dist, occludes);
      ReciprocateAll(p, m - 1, ValidPrefix(p[m - 1]), range, nd, dist, occludes)
  }

  /** InterInsert of node m applied to the rows after nodes 0..m-1 gives the
      rows after nodes 0..m. */
  lemma InsertAllStep(rows: seq<seq<SimpleNeighbor>>, m: nat, range: nat, nd: nat,
                      dist: (nat, nat) -> nat, occludes: (int, int, nat) -> bool,
                      p: seq<seq<SimpleNeighbor>>)
    requires RowsOk(rows, nd, range) && m < nd
    requires p == InsertAll(rows, m, range, nd, dist, occludes)
    ensures RowsOk(p, nd, range) && RowOk(p[m], nd)
    ensures InsertAll(rows, m + 1, range, nd, dist, occludes) == ReciprocateAll(p, m, ValidPrefix(p[m]), range, nd, dist, occludes)
  {
  }

  /** Reciprocating the edges of n never changes n's own row: an edge n -> n
      finds n already in the row. */
  lemma {:induction false} ReciprocateKeepsSource(rows: seq<seq<SimpleNeighbor>>, n: nat, edges: seq<SimpleNeighbor>,
                                                 range: nat, nd: nat, dist: (nat, nat) -> nat,
                                                 occludes: (int, int, nat) -> bool)
    requires RowsOk(rows, nd, range) && n < nd
    requires forall j :: 0 <= j < |edges| ==> edges[j].id < nd && !IsSentinel(edges[j])
    requires forall j :: 0 <= j < |edges| && edges[j].id == n ==> n in Ids(ValidPrefix(rows[n]))
    ensures ReciprocateAll(rows, n, edges, range, nd, dist, occludes)[n] == rows[n]
    decreases |edges|
  {
    if edges != [] {
      ReciprocateKeepsSource(rows, n, edges[..|edges| - 1], range, nd, dist, occludes);
    }
  }
}
