/** Candidate records, ascending-distance sorting, and the rank-returning
    ordered insertion that every best-first loop of the index relies on. */
module Pool {

  /** Distance value that marks an empty slot of the edge buffer. Real
      distances are squared L2 norms, never negative, so they never equal it. */
  const Sentinel: int := -1

  /** A candidate: node id, distance to the pool's centre, and whether it
      still waits to be expanded. */
  datatype Neighbor = Neighbor(id: nat, distance: int, flag: bool)

  /** A slot of the fixed-capacity edge buffer. */
  datatype SimpleNeighbor = SimpleNeighbor(id: nat, distance: int)

  predicate IsSentinel(s: SimpleNeighbor) {
    s.distance == Sentinel
  }

  function NeighborKey(n: Neighbor): int { n.distance }

  function SimpleKey(n: SimpleNeighbor): int { n.distance }

  /** The id/distance part of a candidate, as the pruner copies it into the edge buffer. */
  function ToSimple(n: Neighbor): SimpleNeighbor {
    SimpleNeighbor(n.id, n.distance)
  }

  function ToSimpleAll(s: seq<Neighbor>): (r: seq<SimpleNeighbor>)
    ensures |r| == |s|
    ensures forall i :: 0 <= i < |s| ==> r[i] == ToSimple(s[i])
  {
    seq(|s|, i requires 0 <= i < |s| => ToSimple(s[i]))
  }

  /** The ids of a sequence of id/distance pairs, in order. */
  function Ids(s: seq<SimpleNeighbor>): (r: seq<nat>)
    ensures |r| == |s|
    ensures forall i :: 0 <= i < |s| ==> r[i] == s[i].id
  {
    seq(|s|, i requires 0 <= i < |s| => s[i].id)
  }

  /** The ids of a pool of search entries: those of its id/distance pairs. */
  function NeighborIds(s: seq<Neighbor>): (r: seq<nat>)
    ensures |r| == |s|
    ensures forall i :: 0 <= i < |s| ==> r[i] == s[i].id
  {
    seq(|s|, i requires 0 <= i < |s| => s[i].id)
  }

  lemma NeighborIdsAppend(a: seq<Neighbor>, b: seq<Neighbor>)
    ensures NeighborIds(a + b) == NeighborIds(a) + NeighborIds(b)
  {
  }

  predicate DistinctIds(s: seq<SimpleNeighbor>) {
    forall i, j :: 0 <= i < j < |s| ==> s[i].id != s[j].id
  }

  predicate Distinct(s: seq<nat>) {
    forall i, j :: 0 <= i < j < |s| ==> s[i] != s[j]
  }

  predicate SortedBy<T>(s: seq<T>, key: T -> int) {
    forall i, j :: 0 <= i < j < |s| ==> key(s[i]) <= key(s[j])
  }

  /** Inserts x before the first element whose key is not smaller than its own. */
  function InsertBy<T>(x: T, s: seq<T>, key: T -> int): seq<T>
  {
    if s == [] || key(x) <= key(s[0]) then [x] + s
    else [s[0]] + InsertBy(x, s[1..], key)
  }

  /** The insertion adds exactly x. */
  lemma {:induction false} InsertByPerm<T>(x: T, s: seq<T>, key: T -> int)
    ensures multiset(InsertBy(x, s, key)) == multiset(s) + multiset{x}
  {
    if s != [] && key(s[0]) < key(x) {
      InsertByPerm(x, s[1..], key);
      assert s == [s[0]] + s[1..];
    }
  }

  /** A lower bound of x's key and of every key of s bounds the keys of any
      permutation of s plus x. */
  lemma KeysBounded<T>(t: seq<T>, x: T, s: seq<T>, key: T -> int, b: int)
    requires multiset(t) == multiset(s) + multiset{x}
    requires b <= key(x) && forall i :: 0 <= i < |s| ==> b <= key(s[i])
    ensures forall i :: 0 <= i < |t| ==> b <= key(t[i])
  {
    forall i | 0 <= i < |t|
      ensures b <= key(t[i])
    {
      assert t[i] in multiset(t);
      if t[i] != x {
        assert t[i] in multiset(s);
        var m :| 0 <= m < |s| && s[m] == t[i];
      }
    }
  }

  /** Inserting into a sorted sequence keeps it sorted. */
  lemma {:induction false} InsertBySorted<T>(x: T, s: seq<T>, key: T -> int)
    requires SortedBy(s, key)
    ensures SortedBy(InsertBy(x, s, key), key)
  {
    if s != [] && key(s[0]) < key(x) {
      var t := InsertBy(x, s[1..], key);
      InsertBySorted(x, s[1..], key);
      InsertByPerm(x, s[1..], key);
      KeysBounded(t, x, s[1..], key, key(s[0]));
    }
  }

  /** Two sequences with the same multiset have the same length and members. */
  lemma SameMultiset<T>(a: seq<T>, b: seq<T>)
    requires multiset(a) == multiset(b)
    ensures |a| == |b|
    ensures forall y :: y in a <==> y in b
  {
    assert |multiset(a)| == |a| && |multiset(b)| == |b|;
    forall y
      ensures y in a <==> y in b
    {
      assert y in a <==> y in multiset(a);
      assert y in b <==> y in multiset(b);
    }
  }

  /** Ascending sort by key (what std::sort over a candidate range yields; the
      source leaves the order of equal keys unspecified, this model keeps
      input order among them). */
  function SortBy<T(!new)>(s: seq<T>, key: T -> int): (r: seq<T>)
    ensures SortedBy(r, key)
    ensures multiset(r) == multiset(s)
    ensures |r| == |s|
    ensures forall y :: y in r <==> y in s
  {
    if s == [] then []
    else
      var t := SortBy(s[1..], key);
      assert s == [s[0]] + s[1..];
      InsertBySorted(s[0], t, key);
      InsertByPerm(s[0], t, key);
      SameMultiset(InsertBy(s[0], t, key), s);
      InsertBy(s[0], t, key)
  }

  /** Inserting a candidate adds exactly its id to the ids of a pool. */
  lemma {:induction false} InsertByIds(x: Neighbor, s: seq<Neighbor>, key: Neighbor -> int)
    ensures multiset(NeighborIds(InsertBy(x, s, key))) == multiset(NeighborIds(s)) + multiset{x.id}
  {
    if s == [] || key(x) <= key(s[0]) {
      NeighborIdsAppend([x], s);
    } else {
      InsertByIds(x, s[1..], key);
      NeighborIdsAppend([s[0]], InsertBy(x, s[1..], key));
      NeighborIdsAppend([s[0]], s[1..]);
      assert s == [s[0]] + s[1..];
    }
  }

  /** Sorting a pool keeps its ids, each as often as before. */
  lemma {:induction false} SortByIds(s: seq<Neighbor>, key: Neighbor -> int)
    ensures multiset(NeighborIds(SortBy(s, key))) == multiset(NeighborIds(s))
  {
    if s != [] {
      var t := SortBy(s[1..], key);
      SortByCons(s, key);
      IdsCons(s);
      SortByIds(s[1..], key);
      InsertByIds(s[0], t, key);
    }
  }

  /** Sorting a non-empty sequence inserts its head into its sorted tail. */
  lemma SortByCons(s: seq<Neighbor>, key: Neighbor -> int)
    requires s != []
    ensures SortBy(s, key) == InsertBy(s[0], SortBy(s[1..], key), key)
  {
  }

  /** The ids of a non-empty pool: its head's id, then its tail's. */
  lemma IdsCons(s: seq<Neighbor>)
    requires s != []
    ensures multiset(NeighborIds(s)) == multiset{s[0].id} + multiset(NeighborIds(s[1..]))
  {
    var ids, tail := NeighborIds(s), NeighborIds(s[1..]);
    forall i | 0 <= i < |ids| ensures ids[i] == ([s[0].id] + tail)[i] {
      if i > 0 {
        assert ids[i] == s[1..][i - 1].id;
      }
    }
    assert ids == [s[0].id] + tail;
  }

  /** True when some entry of the pool carries id v. */
  predicate InPool(s: seq<Neighbor>, v: nat) {
    exists j :: 0 <= j < |s| && s[j].id == v
  }

  /** Splicing a candidate in at its rank keeps a pool sorted. */
  lemma SpliceSorted(s: seq<Neighbor>, r: nat, nn: Neighbor)
    requires 1 <= |s| && r < |s|
    requires SortedBy(s, NeighborKey)
    requires forall j :: 0 <= j < r ==> s[j].distance <= nn.distance
    requires nn.distance < s[r].distance
    ensures SortedBy(s[..r] + [nn] + s[r..|s| - 1], NeighborKey)
  {
    var t := s[..r] + [nn] + s[r..|s| - 1];
    forall a, b | 0 <= a < b < |t|
      ensures NeighborKey(t[a]) <= NeighborKey(t[b])
    {
      if b < r {
        assert t[a] == s[a] && t[b] == s[b];
      } else if b == r {
        assert t[a] == s[a];
      } else if a < r {
        assert t[a] == s[a] && t[b] == s[b - 1];
        assert NeighborKey(s[a]) <= NeighborKey(s[b - 1]);
      } else if a == r {
        assert t[b] == s[b - 1];
        assert NeighborKey(s[r]) <= NeighborKey(s[b - 1]);
      } else {
        assert t[a] == s[a - 1] && t[b] == s[b - 1];
        assert NeighborKey(s[a - 1]) <= NeighborKey(s[b - 1]);
      }
    }
  }

  /** Ordered insertion into the first k slots of a pool of k+1 slots. The
      caller has already rejected candidates that are not strictly closer than
      the k-th one, so the rank is below k; the entry that was k-th moves to
      slot k, out of the pool's live range. Returns the rank. */
  method InsertIntoPool(addr: array<Neighbor>, k: nat, nn: Neighbor) returns (r: nat)
    requires 1 <= k < addr.Length
    requires SortedBy(addr[..k], NeighborKey)
    requires nn.distance < addr[k - 1].distance
    modifies addr
    ensures r < k
    ensures forall j :: 0 <= j < r ==> addr[j] == old(addr[j]) && addr[j].distance <= nn.distance
    ensures addr[r] == nn && nn.distance < old(addr[r]).distance
    ensures forall j :: r < j <= k ==> addr[j] == old(addr[j - 1])
    ensures forall j :: k < j < addr.Length ==> addr[j] == old(addr[j])
    ensures addr[..k] == old(addr[..k])[..r] + [nn] + old(addr[..k])[r..k - 1]
    ensures SortedBy(addr[..k], NeighborKey)
  {
    ghost var s := addr[..k];
    r := Rank(addr, k, nn);
    SpliceSorted(s, r, nn);
    ghost var t := s[..r] + [nn] + s[r..k - 1];
    SpliceAt(s, r, nn);
    ShiftUp(addr, r, k);
    addr[r] := nn;
    assert forall i :: 0 <= i < k ==> addr[i] == t[i];
    assert addr[..k] == t;
  }

  /** Where each entry of a splice comes from. */
  lemma SpliceAt(s: seq<Neighbor>, r: nat, nn: Neighbor)
    requires r < |s|
    ensures var t := s[..r] + [nn] + s[r..|s| - 1];
            && |t| == |s|
            && (forall i :: 0 <= i < r ==> t[i] == s[i])
            && t[r] == nn
            && (forall i :: r < i < |s| ==> t[i] == s[i - 1])
  {
  }

  /** The first slot below k whose distance exceeds nn's, or k. */
  method Rank(addr: array<Neighbor>, k: nat, nn: Neighbor) returns (r: nat)
    requires k <= addr.Length
    ensures r <= k
    ensures forall j :: 0 <= j < r ==> addr[j].distance <= nn.distance
    ensures r < k ==> nn.distance < addr[r].distance
  {
    r := 0;
    while r < k && addr[r].distance <= nn.distance
      invariant 0 <= r <= k
      invariant forall j :: 0 <= j < r ==> addr[j].distance <= nn.distance
    {
      r := r + 1;
    }
  }

  /** Moves the entries in slots r..k-1 one slot up, leaving slot r as it was. */
  method ShiftUp(addr: array<Neighbor>, r: nat, k: nat)
    requires r <= k < addr.Length
    modifies addr
    ensures forall i :: 0 <= i <= r ==> addr[i] == old(addr[i])
    ensures forall i :: r < i <= k ==> addr[i] == old(addr[i - 1])
    ensures forall i :: k < i < addr.Length ==> addr[i] == old(addr[i])
  {
    var j := k;
    while j > r
      invariant r <= j <= k
      invariant forall i :: 0 <= i <= j ==> addr[i] == old(addr[i])
      invariant forall i :: j < i <= k ==> addr[i] == old(addr[i - 1])
      invariant forall i :: k < i < addr.Length ==> addr[i] == old(addr[i])
    {
      addr[j] := addr[j - 1];
      j := j - 1;
    }
  }
}
