/** Adjacency-list graphs over node ids 0..nd-1: well-formedness, the two-hop
    candidate list of a node, and reachability. */
module Graphs {
  import opened Pool

  /** nd adjacency lists whose ids all name nodes of the graph. */
  predicate ValidGraph(g: seq<seq<nat>>, nd: nat) {
    |g| == nd && forall i, j :: 0 <= i < |g| && 0 <= j < |g[i]| ==> g[i][j] < nd
  }

  /** Every list has at most range entries. */
  predicate DegreeBounded(g: seq<seq<nat>>, range: nat) {
    forall i :: 0 <= i < |g| ==> |g[i]| <= range
  }

  /** g2 is g with ids appended to some lists and nothing else changed. */
  predicate Extends(g: seq<seq<nat>>, g2: seq<seq<nat>>) {
    |g| == |g2| && forall i :: 0 <= i < |g| ==> g[i] <= g2[i]
  }

  /** Node n lists some node other than itself. */
  predicate HasOtherNeighbor(g: seq<seq<nat>>, n: nat)
    requires n < |g|
  {
    exists x :: x in g[n] && x != n
  }

  /** Every node lists some node other than itself. */
  predicate NoLoneNode(g: seq<seq<nat>>) {
    forall n :: 0 <= n < |g| ==> HasOtherNeighbor(g, n)
  }

  // ---------------------------------------------------------------------------
  // Two-hop candidates

  /** The lists of the nodes ns, concatenated in order. */
  function Flatten(g: seq<seq<nat>>, ns: seq<nat>): seq<nat>
    requires forall i :: 0 <= i < |ns| ==> ns[i] < |g|
  {
    if ns == [] then [] else Flatten(g, ns[..|ns| - 1]) + g[ns[|ns| - 1]]
  }

  lemma {:induction false} FlattenMembers(g: seq<seq<nat>>, ns: seq<nat>, x: nat)
    requires forall i :: 0 <= i < |ns| ==> ns[i] < |g|
    ensures x in Flatten(g, ns) <==> exists i :: 0 <= i < |ns| && x in g[ns[i]]
  {
    if ns != [] {
      var front := ns[..|ns| - 1];
      FlattenMembers(g, front, x);
      if x in Flatten(g, ns) && x !in g[ns[|ns| - 1]] {
        var i :| 0 <= i < |front| && x in g[front[i]];
        assert ns[i] == front[i];
      }
      if exists i :: 0 <= i < |ns| && x in g[ns[i]] {
        var i :| 0 <= i < |ns| && x in g[ns[i]];
        if i < |front| {
          assert front[i] == ns[i];
        }
      }
    }
  }

  lemma {:induction false} FlattenPrefix(g: seq<seq<nat>>, ns: seq<nat>, i: nat)
    requires forall k :: 0 <= k < |ns| ==> ns[k] < |g|
    requires i <= |ns|
    ensures Flatten(g, ns[..i]) <= Flatten(g, ns)
    decreases |ns|
  {
    if i < |ns| {
      var front := ns[..|ns| - 1];
      assert ns[..i] == front[..i];
      FlattenPrefix(g, front, i);
    } else {
      assert ns[..i] == ns;
    }
  }

  /** The ids of s in order of first occurrence, leaving out those in seen. */
  function Dedup(seen: set<nat>, s: seq<nat>): (r: seq<nat>)
    ensures Distinct(r)
    ensures forall x :: x in r ==> x in s && x !in seen
    ensures forall x :: x in s && x !in seen ==> x in r
    ensures |r| <= |s|
  {
    if s == [] then []
    else
      var p := Dedup(seen, s[..|s| - 1]);
      var x := s[|s| - 1];
      assert s == s[..|s| - 1] + [x];
      if x in seen || x in p then p else p + [x]
  }

  /** Deduplicating a prefix gives a prefix of the deduplicated whole. */
  lemma {:induction false} DedupPrefix(seen: set<nat>, a: seq<nat>, b: seq<nat>)
    requires a <= b
    ensures Dedup(seen, a) <= Dedup(seen, b)
    decreases |b|
  {
    if |a| < |b| {
      var front := b[..|b| - 1];
      assert a <= front;
      DedupPrefix(seen, a, front);
    } else {
      assert a == b;
    }
  }

  /** One more id: Dedup grows by it exactly when it is new. */
  lemma DedupSnoc(seen: set<nat>, s: seq<nat>, x: nat)
    ensures Dedup(seen, s + [x]) == if x in seen || x in Dedup(seen, s) then Dedup(seen, s) else Dedup(seen, s) + [x]
  {
    assert (s + [x])[..|s|] == s;
  }

  /** Nothing survives deduplication when every id is already seen. */
  lemma {:induction false} DedupAllSeen(seen: set<nat>, s: seq<nat>)
    requires forall k :: 0 <= k < |s| ==> s[k] in seen
    ensures Dedup(seen, s) == []
  {
    if s != [] {
      DedupAllSeen(seen, s[..|s| - 1]);
    }
  }

  /** The first id of s outside seen comes first in the deduplicated s. */
  lemma DedupFirst(seen: set<nat>, s: seq<nat>, m: nat)
    requires m < |s| && s[m] !in seen
    requires forall k :: 0 <= k < m ==> s[k] in seen
    ensures |Dedup(seen, s)| >= 1 && Dedup(seen, s)[0] == s[m]
  {
    var front := s[..m];
    DedupAllSeen(seen, front);
    DedupSnoc(seen, front, s[m]);
    assert s[..m + 1] == front + [s[m]];
    DedupPrefix(seen, s[..m + 1], s);
  }

  /** An id of s outside seen means there is a first one. */
  lemma FirstOutside(seen: set<nat>, s: seq<nat>, x: nat) returns (m: nat)
    requires x in s && x !in seen
    ensures m < |s| && s[m] !in seen
    ensures forall k :: 0 <= k < m ==> s[k] in seen
  {
    m := 0;
    while s[m] in seen
      invariant m < |s| && x in s[m..]
      invariant forall k :: 0 <= k < m ==> s[k] in seen
      decreases |s| - m
    {
      assert s[m..] == [s[m]] + s[m + 1..];
      m := m + 1;
    }
  }

  /** The ids of q's first neighbour's list other than q, each once: all a
      scan that stops after that list can keep. */
  function FirstHop(g: seq<seq<nat>>, q: nat): seq<nat>
    requires ValidGraph(g, |g|) && q < |g|
  {
    if |g[q]| == 0 then [] else Dedup({q}, g[g[q][0]])
  }

  /** x is the first id other than q in the list of q's first neighbour. */
  predicate FirstOther(g: seq<seq<nat>>, q: nat, x: nat)
    requires ValidGraph(g, |g|) && q < |g|
  {
    && |g[q]| > 0
    && exists m :: 0 <= m < |g[g[q][0]]| && g[g[q][0]][m] == x && x != q
                   && forall k :: 0 <= k < m ==> g[g[q][0]][k] == q
  }

  /** The first entry of FirstHop is the first id other than q. */
  lemma FirstHopFirst(g: seq<seq<nat>>, q: nat, x: nat)
    requires ValidGraph(g, |g|) && q < |g|
    ensures FirstOther(g, q, x) <==> |FirstHop(g, q)| >= 1 && FirstHop(g, q)[0] == x
  {
    if FirstOther(g, q, x) {
      var s := g[g[q][0]];
      var m :| 0 <= m < |s| && s[m] == x && x != q && forall k :: 0 <= k < m ==> s[k] == q;
      DedupFirst({q}, s, m);
    }
    if |FirstHop(g, q)| >= 1 && FirstHop(g, q)[0] == x {
      var s := g[g[q][0]];
      assert x in Dedup({q}, s);
      var m := FirstOutside({q}, s, x);
      DedupFirst({q}, s, m);
      assert forall k :: 0 <= k < m ==> s[k] == q;
    }
  }

  /** The ids two hops from q, in the order get_neighbors meets them, each
      once, q excluded. */
  function TwoHop(g: seq<seq<nat>>, q: nat): seq<nat>
    requires ValidGraph(g, |g|) && q < |g|
  {
    Dedup({q}, Flatten(g, g[q]))
  }

  /** x is in the two-hop list of q exactly when x is not q and some
      neighbour of q lists x; the list has no repeats. */
  lemma TwoHopMembers(g: seq<seq<nat>>, q: nat, x: nat)
    requires ValidGraph(g, |g|) && q < |g|
    ensures Distinct(TwoHop(g, q))
    ensures x in TwoHop(g, q) <==> x != q && exists nid :: nid in g[q] && x in g[nid]
  {
    FlattenMembers(g, g[q], x);
    if x != q && exists nid :: nid in g[q] && x in g[nid] {
      var nid :| nid in g[q] && x in g[nid];
      var i :| 0 <= i < |g[q]| && g[q][i] == nid;
      assert x in g[g[q][i]];
    }
  }

  // ---------------------------------------------------------------------------
  // Reachability

  ghost predicate IsPath(g: seq<seq<nat>>, p: seq<nat>) {
    && |p| >= 1
    && (forall i :: 0 <= i < |p| ==> p[i] < |g|)
    && forall i :: 0 <= i < |p| - 1 ==> p[i + 1] in g[p[i]]
  }

  ghost predicate PathFromTo(g: seq<seq<nat>>, p: seq<nat>, r: nat, t: nat) {
    IsPath(g, p) && p[0] == r && p[|p| - 1] == t
  }

  /** t can be reached from r by following edges of g. */
  ghost predicate Reachable(g: seq<seq<nat>>, r: nat, t: nat) {
    exists p :: PathFromTo(g, p, r, t)
  }

  /** Following one more edge extends a path. */
  lemma PathStep(g: seq<seq<nat>>, p: seq<nat>, r: nat, t: nat, u: nat)
    requires PathFromTo(g, p, r, t) && u in g[t] && u < |g|
    ensures PathFromTo(g, p + [u], r, u)
  {
    var p2 := p + [u];
    forall i | 0 <= i < |p2| - 1
      ensures p2[i + 1] in g[p2[i]]
    {
      if i < |p| - 1 {
        assert p2[i] == p[i] && p2[i + 1] == p[i + 1];
      }
    }
  }

  /** Appending edges keeps every path a path, so reachability survives. */
  lemma ReachableMonotone(g: seq<seq<nat>>, g2: seq<seq<nat>>, r: nat, t: nat)
    requires Extends(g, g2)
    requires Reachable(g, r, t)
    ensures Reachable(g2, r, t)
  {
    var p :| PathFromTo(g, p, r, t);
    forall i | 0 <= i < |p| - 1
      ensures p[i + 1] in g2[p[i]]
    {
      assert g[p[i]] <= g2[p[i]];
      var m :| 0 <= m < |g[p[i]]| && g[p[i]][m] == p[i + 1];
      assert g2[p[i]][m] == p[i + 1];
    }
    assert PathFromTo(g2, p, r, t);
  }
}
