/** The connectivity pass of the build (DFS_expand), one root at a time: a
    breadth-first traversal from the root, and, while some node is left
    unreached, an edge to the first unreached node appended to the first
    reached node whose list still has room. */
module Expand {
  import opened Graphs
  import BestFirst

  /** The bitset marks exactly the ids of the ghost set of reached nodes. */
  ghost predicate Marks(flags: seq<bool>, visited: set<nat>) {
    && (forall v :: v in visited ==> v < |flags|)
    && forall v :: 0 <= v < |flags| ==> (flags[v] <==> v in visited)
  }

  /** Every node of the set can be reached from r. */
  ghost predicate AllReach(g: seq<seq<nat>>, r: nat, visited: set<nat>) {
    forall v :: v in visited ==> Reachable(g, r, v)
  }

  lemma ReachableSelf(g: seq<seq<nat>>, r: nat)
    requires r < |g|
    ensures Reachable(g, r, r)
  {
    assert PathFromTo(g, [r], r, r);
  }

  /** A node listed by a reachable node is reachable. */
  lemma ReachStep(g: seq<seq<nat>>, r: nat, t: nat, u: nat)
    requires Reachable(g, r, t) && t < |g| && u in g[t] && u < |g|
    ensures Reachable(g, r, u)
  {
    var p :| PathFromTo(g, p, r, t);
    PathStep(g, p, r, t, u);
  }

  /** Every node of the set lists only nodes of the set, except the nodes
      still waiting in the queue. */
  ghost predicate ClosedBut(g: seq<seq<nat>>, visited: set<nat>, queue: seq<nat>) {
    forall w :: w in visited && w < |g| && w !in queue ==> forall x :: x in g[w] ==> x in visited
  }

  /** A set closed under the edges of g holds everything its members reach. */
  lemma ClosedReach(g: seq<seq<nat>>, s: set<nat>, r: nat, v: nat)
    requires ClosedBut(g, s, []) && r in s && Reachable(g, r, v)
    ensures v in s
  {
    var p :| PathFromTo(g, p, r, v);
    var i := 0;
    while i < |p| - 1
      invariant 0 <= i < |p| && p[i] in s
    {
      assert p[i + 1] in g[p[i]];
      i := i + 1;
    }
  }

  /** Every node r reaches has a full list: no patch can be hosted there. */
  ghost predicate FullFrom(g: seq<seq<nat>>, r: nat, range: nat) {
    forall v :: 0 <= v < |g| && Reachable(g, r, v) ==> |g[v]| >= range
  }

  /** What one root of DFS_expand leaves behind: the root reaches every node,
      or every node it reaches has a full list. */
  ghost predicate Repaired(g: seq<seq<nat>>, r: nat, range: nat) {
    (forall v :: 0 <= v < |g| ==> Reachable(g, r, v)) || FullFrom(g, r, range)
  }

  /** A subset is no larger, and a proper subset is smaller. */
  lemma {:induction false} SubsetCard(a: set<nat>, b: set<nat>)
    requires a <= b
    ensures |a| <= |b|
    ensures a != b ==> |a| < |b|
    decreases b
  {
    if a != b {
      var x :| x in b && x !in a;
      SubsetCard(a, b - {x});
    } else {
    }
  }

  /** The inner loop of the traversal over the list of front: every child not
      yet flagged is flagged and enqueued. */
  method PushChildren(g: seq<seq<nat>>, r: nat, front: nat, flags: array<bool>, queue0: seq<nat>,
                      ghost visited0: set<nat>, ghost complete: bool)
    returns (queue: seq<nat>, ghost visited: set<nat>)
    requires ValidGraph(g, |g|) && flags.Length == |g| && front < |g|
    requires Marks(flags[..], visited0)
    requires forall x :: x in queue0 ==> x in visited0
    requires complete ==> Reachable(g, r, front) && AllReach(g, r, visited0)
    modifies flags
    ensures Marks(flags[..], visited) && visited0 <= visited
    ensures forall x :: x in queue ==> x in visited
    ensures complete ==> AllReach(g, r, visited)
    ensures visited == visited0 ==> queue == queue0
    ensures forall x :: x in queue0 ==> x in queue
    ensures forall x :: x in visited && x !in visited0 ==> x in queue
    ensures forall x :: x in g[front] ==> x in visited
  {
    queue := queue0;
    visited := visited0;
    var j := 0;
    while j < |g[front]|
      invariant 0 <= j <= |g[front]|
      invariant Marks(flags[..], visited) && visited0 <= visited
      invariant forall x :: x in queue ==> x in visited
      invariant complete ==> AllReach(g, r, visited)
      invariant visited == visited0 ==> queue == queue0
      invariant forall x :: x in queue0 ==> x in queue
      invariant forall x :: x in visited && x !in visited0 ==> x in queue
      invariant forall k :: 0 <= k < j ==> g[front][k] in visited
    {
      var child := g[front][j];
      if !flags[child] {
        flags[child] := true;
        if complete {
          ReachStep(g, r, front, child);
        }
        visited := visited + {child};
        queue := queue + [child];
      }
      j := j + 1;
    }
  }

  /** The traversal: pops the queue in FIFO order until it is empty. Every
      node it flags is reachable from r when the flagged ones were, and at
      the end the flagged nodes list only flagged nodes. */
  method Traverse(g: seq<seq<nat>>, r: nat, flags: array<bool>, queue0: seq<nat>,
                  ghost visited0: set<nat>, ghost complete: bool)
    returns (ghost visited: set<nat>)
    requires ValidGraph(g, |g|) && flags.Length == |g|
    requires Marks(flags[..], visited0)
    requires forall x :: x in queue0 ==> x in visited0
    requires complete ==> AllReach(g, r, visited0)
    requires ClosedBut(g, visited0, queue0)
    modifies flags
    ensures Marks(flags[..], visited) && visited0 <= visited
    ensures complete ==> AllReach(g, r, visited)
    ensures ClosedBut(g, visited, [])
  {
    var queue := queue0;
    visited := visited0;
    BestFirst.CardinalityBound(visited, |g|);
    while queue != []
      invariant Marks(flags[..], visited) && visited0 <= visited
      invariant forall x :: x in queue ==> x in visited
      invariant complete ==> AllReach(g, r, visited)
      invariant |visited| <= |g|
      invariant ClosedBut(g, visited, queue)
      decreases |g| - |visited|, |queue|
    {
      var front := queue[0];
      assert front in queue;
      ghost var before := visited;
      ghost var q0 := queue;
      queue, visited := PushChildren(g, r, front, flags, queue[1..], visited, complete);
      BestFirst.CardinalityBound(visited, |g|);
      SubsetCard(before, visited);
      forall w | w in visited && w < |g| && w !in queue
        ensures forall x :: x in g[w] ==> x in visited
      {
        if w != front {
          assert w in before;
          assert q0 == [front] + q0[1..];
          assert w !in q0;
        }
      }
    }
  }

  /** The nodes the bitset leaves unflagged, in increasing order of id. */
  method CollectUnflagged(flags: array<bool>) returns (uncheck: seq<nat>)
    ensures forall x :: x in uncheck ==> x < flags.Length && !flags[x]
    ensures forall v :: 0 <= v < flags.Length && !flags[v] ==> v in uncheck
    ensures |uncheck| > 0 ==> uncheck[0] < flags.Length && forall v :: 0 <= v < uncheck[0] ==> flags[v]
  {
    uncheck := [];
    var j := 0;
    while j < flags.Length
      invariant 0 <= j <= flags.Length
      invariant forall x :: x in uncheck ==> x < j && !flags[x]
      invariant forall v :: 0 <= v < j && !flags[v] ==> v in uncheck
      invariant |uncheck| > 0 ==> uncheck[0] < j && forall v :: 0 <= v < uncheck[0] ==> flags[v]
    {
      if !flags[j] {
        uncheck := uncheck + [j];
      }
      j := j + 1;
    }
  }

  /** The patch step: appends u to the list of the first flagged node whose
      list has fewer than range entries, if there is one. Returns that node,
      or |g| when every flagged node's list is full. */
  method Attach(g: seq<seq<nat>>, flags: seq<bool>, u: nat, range: nat)
    returns (g2: seq<seq<nat>>, host: nat)
    requires |flags| == |g|
    ensures host <= |g|
    ensures forall j :: 0 <= j < host ==> !(flags[j] && |g[j]| < range)
    ensures host < |g| ==> flags[host] && |g[host]| < range && g2 == g[host := g[host] + [u]]
    ensures host == |g| ==> g2 == g
  {
    g2 := g;
    host := 0;
    while host < |g|
      invariant 0 <= host <= |g|
      invariant forall j :: 0 <= j < host ==> !(flags[j] && |g[j]| < range)
    {
      if flags[host] && |g[host]| < range {
        g2 := g[host := g[host] + [u]];
        return;
      }
      host := host + 1;
    }
  }

  /** g0 with ids appended to some lists, and every list that grew holds at
      most range entries. */
  predicate GrownWithin(g0: seq<seq<nat>>, g: seq<seq<nat>>, range: nat) {
    Extends(g0, g) && forall i :: 0 <= i < |g| ==> g[i] == g0[i] || |g[i]| <= range
  }

  lemma GrownTrans(a: seq<seq<nat>>, b: seq<seq<nat>>, c: seq<seq<nat>>, range: nat)
    requires GrownWithin(a, b, range) && GrownWithin(b, c, range)
    ensures GrownWithin(a, c, range)
  {
    forall i | 0 <= i < |a|
      ensures a[i] <= c[i]
    {
      assert a[i] <= b[i] && b[i] <= c[i];
    }
  }

  /** A list that was full before the growth is unchanged by it. */
  lemma FullUnchanged(g0: seq<seq<nat>>, g: seq<seq<nat>>, range: nat, v: nat)
    requires GrownWithin(g0, g, range) && v < |g0| && |g0[v]| >= range
    ensures g[v] == g0[v]
  {
    assert g0[v] <= g[v];
  }

  /** Growth within range keeps the reach of r full: full lists never change,
      so the nodes r reached still list only one another. */
  lemma FullFromGrown(g0: seq<seq<nat>>, g: seq<seq<nat>>, r: nat, range: nat)
    requires ValidGraph(g0, |g0|) && GrownWithin(g0, g, range) && r < |g0|
    requires FullFrom(g0, r, range)
    ensures FullFrom(g, r, range)
  {
    var s := set v: nat | v < |g0| && Reachable(g0, r, v);
    ReachableSelf(g0, r);
    forall w | w in s && w < |g| && w !in []
      ensures forall x :: x in g[w] ==> x in s
    {
      FullUnchanged(g0, g, range, w);
      forall x | x in g[w] ensures x in s {
        ReachStep(g0, r, w, x);
      }
    }
    forall v | 0 <= v < |g| && Reachable(g, r, v) ensures |g[v]| >= range {
      ClosedReach(g, s, r, v);
      FullUnchanged(g0, g, range, v);
    }
  }

  /** Growth within range keeps what a root left behind. */
  lemma RepairedGrown(g0: seq<seq<nat>>, g: seq<seq<nat>>, r: nat, range: nat)
    requires ValidGraph(g0, |g0|) && GrownWithin(g0, g, range) && r < |g0|
    requires Repaired(g0, r, range)
    ensures Repaired(g, r, range)
  {
    if FullFrom(g0, r, range) {
      FullFromGrown(g0, g, r, range);
    } else {
      forall v | 0 <= v < |g| ensures Reachable(g, r, v) {
        ReachableMonotone(g0, g, r, v);
      }
    }
  }

  /** A root whose own list has room reaches every node. */
  lemma RepairedRoom(g: seq<seq<nat>>, r: nat, range: nat)
    requires Repaired(g, r, range) && r < |g| && |g[r]| < range
    ensures forall v :: 0 <= v < |g| ==> Reachable(g, r, v)
  {
    ReachableSelf(g, r);
  }

  /** The patch step and why it keeps the pass's invariants: it attaches u
      as Attach does and returns the host. While every patch so far found a
      host, u becomes reachable from the root; once one did not, every node
      the root reaches has a full list, and stays so. The reached nodes,
      closed under the edges before, are closed again except for u. */
  method Patch(g0: seq<seq<nat>>, g: seq<seq<nat>>, flags: array<bool>, root: nat, u: nat, range: nat,
               ghost visited: set<nat>, ghost complete: bool)
    returns (g2: seq<seq<nat>>, host: nat, ghost complete2: bool)
    requires ValidGraph(g, |g|) && GrownWithin(g0, g, range) && u < |g|
    requires flags.Length == |g| && Marks(flags[..], visited) && root in visited
    requires ClosedBut(g, visited, [])
    requires complete ==> AllReach(g, root, visited)
    requires !complete ==> FullFrom(g, root, range)
    ensures host <= |g|
    ensures forall j :: 0 <= j < host ==> !(flags[j] && |g[j]| < range)
    ensures host < |g| ==> flags[host] && |g[host]| < range && g2 == g[host := g[host] + [u]] && complete2 == complete
    ensures host == |g| ==> g2 == g && !complete2
    ensures ValidGraph(g2, |g|) && GrownWithin(g, g2, range) && GrownWithin(g0, g2, range)
    ensures complete2 ==> AllReach(g2, root, visited + {u})
    ensures !complete2 ==> FullFrom(g2, root, range)
    ensures ClosedBut(g2, visited + {u}, [u])
  {
    g2, host := Attach(g, flags[..], u, range);
    complete2 := complete;
    if host < |g| {
      assert GrownWithin(g, g2, range);
      GrownTrans(g0, g, g2, range);
      if complete {
        forall v | v in visited
          ensures Reachable(g2, root, v)
        {
          ReachableMonotone(g, g2, root, v);
        }
        assert u in g2[host];
        ReachStep(g2, root, host, u);
      } else {
        FullFromGrown(g, g2, root, range);
      }
      assert ValidGraph(g2, |g|) by {
        forall i, j | 0 <= i < |g| && 0 <= j < |g2[i]|
          ensures g2[i][j] < |g|
        {
          if i != host || j < |g[i]| {
            assert g2[i][j] == g[i][j];
          }
        }
      }
    } else {
      complete2 := false;
      forall v | 0 <= v < |g| && Reachable(g, root, v) ensures |g[v]| >= range {
        if complete {
          ClosedReach(g, visited, root, v);
          assert flags[v];
        }
      }
    }
  }

  /** The state of one root's repair between rounds: the graph grown from
      g0 within range, the bitset marking the reached nodes (the root among
      them, the queue inside them), which list only reached nodes except
      those still queued; while every patch found a host the root reaches
      them all, and once one did not, every node the root reaches is full. */
  ghost predicate Repairing(g0: seq<seq<nat>>, g: seq<seq<nat>>, flags: seq<bool>, root: nat, range: nat,
                            queue: seq<nat>, visited: set<nat>, complete: bool) {
    && ValidGraph(g, |g0|) && GrownWithin(g0, g, range)
    && |flags| == |g0| && Marks(flags, visited) && root in visited
    && (forall x :: x in queue ==> x in visited)
    && (complete ==> AllReach(g, root, visited))
    && (!complete ==> FullFrom(g, root, range))
    && ClosedBut(g, visited, queue)
    && |visited| <= |g0|
  }

  /** One round of the repair: traverse from the queue, collect the nodes
      left unflagged, and when there are some, patch the first of them in
      and queue it. */
  method Round(g0: seq<seq<nat>>, g: seq<seq<nat>>, flags: array<bool>, root: nat, range: nat,
               queue: seq<nat>, ghost visited: set<nat>, ghost complete: bool)
    returns (g2: seq<seq<nat>>, uncheck: seq<nat>, queue2: seq<nat>, ghost visited2: set<nat>, ghost complete2: bool)
    requires Repairing(g0, g, flags[..], root, range, queue, visited, complete)
    modifies flags
    ensures Repairing(g0, g2, flags[..], root, range, queue2, visited2, complete2)
    ensures |uncheck| == 0 ==> forall v :: 0 <= v < |g0| ==> v in visited2
    ensures visited <= visited2 && |visited| <= |visited2|
    ensures |uncheck| > 0 ==> |visited2| > |visited|
  {
    var nd := |g0|;
    visited2 := Traverse(g, root, flags, queue, visited, complete);
    SubsetCard(visited, visited2);
    ghost var traversed := visited2;
    g2, complete2, queue2 := g, complete, [];
    uncheck := CollectUnflagged(flags);
    if |uncheck| > 0 {
      var u := uncheck[0];
      assert u in uncheck;
      var host;
      g2, host, complete2 := Patch(g0, g, flags, root, u, range, visited2, complete);
      queue2 := [u];
      flags[u] := true;
      ghost var before := visited2;
      visited2 := visited2 + {u};
      SubsetCard(before, visited2);
    }
    SubsetCard(traversed, visited2);
    BestFirst.CardinalityBound(visited2, nd);
  }

  /** One root of DFS_expand. The lists only grow, and only up to range
      entries; at the end the root reaches every node, or every node it
      reaches has a full list (some patch found no host). In particular,
      when the root's own list still has room, it reaches every node. */
  method ExpandFromRoot(g0: seq<seq<nat>>, root: nat, range: nat) returns (g: seq<seq<nat>>)
    requires ValidGraph(g0, |g0|) && root < |g0|
    ensures ValidGraph(g, |g0|) && GrownWithin(g0, g, range)
    ensures Repaired(g, root, range)
    ensures |g[root]| < range ==> forall v :: 0 <= v < |g| ==> Reachable(g, root, v)
  {
    var nd := |g0|;
    g := g0;
    var flags := new bool[nd](v => false);
    flags[root] := true;
    ghost var visited: set<nat> := {root};
    ghost var complete := true;
    ReachableSelf(g, root);
    var queue := [root];
    BestFirst.CardinalityBound(visited, nd);
    var uncheck: seq<nat> := [0];
    while |uncheck| > 0
      invariant Repairing(g0, g, flags[..], root, range, queue, visited, complete)
      invariant |uncheck| == 0 ==> forall v :: 0 <= v < nd ==> v in visited
      decreases nd - |visited| + (if |uncheck| > 0 then 1 else 0)
    {
      g, uncheck, queue, visited, complete := Round(g0, g, flags, root, range, queue, visited, complete);
    }
    assert Repaired(g, root, range);
    if |g[root]| < range {
      RepairedRoom(g, root, range);
    }
  }
}
