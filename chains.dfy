/** Successor arenas. A list's nodes live in slots 0 .. |next| - 1 of an
    arena; next[i] is the slot that follows slot i, or Nil. A walk from a
    head slot follows these links; since a link may point back to an
    earlier slot, a walk may run round a cycle forever. */
module Chains {

  const Nil: int := -1

  /** Every link names a slot of the arena or Nil. */
  ghost predicate Links(next: seq<int>) {
    forall i :: 0 <= i < |next| ==> Nil <= next[i] < |next|
  }

  /** A cursor: a slot of the arena or Nil. */
  ghost predicate Cursor(next: seq<int>, p: int) {
    Nil <= p < |next|
  }

  /** One link forward; Nil stays Nil. */
  function Step(next: seq<int>, p: int): (q: int)
    requires Links(next) && Cursor(next, p)
    ensures Cursor(next, q)
  {
    if p == Nil then Nil else next[p]
  }

  /** The cursor reached from h after k links. */
  ghost function Walk(next: seq<int>, h: int, k: nat): (p: int)
    requires Links(next) && Cursor(next, h)
    ensures Cursor(next, p)
    decreases k
  {
    if k == 0 then h else Step(next, Walk(next, h, k - 1))
  }

  /** Position a of the walk holds a node that the walk meets again later. */
  ghost predicate Revisited(next: seq<int>, h: int, a: nat)
    requires Links(next) && Cursor(next, h)
  {
    Walk(next, h, a) != Nil && exists b: nat :: a < b && Walk(next, h, b) == Walk(next, h, a)
  }

  /** The walk from h runs into a cycle. */
  ghost predicate Cyclic(next: seq<int>, h: int)
    requires Links(next) && Cursor(next, h)
  {
    exists a: nat :: Revisited(next, h, a)
  }

  /** e is the entrance of the cycle: the first node of the walk that the
      walk meets again. */
  ghost predicate IsEntrance(next: seq<int>, h: int, e: int)
    requires Links(next) && Cursor(next, h)
  {
    exists m: nat ::
      Walk(next, h, m) == e && Revisited(next, h, m) &&
      forall a: nat :: a < m ==> !Revisited(next, h, a)
  }

  /** Walking a + b links is walking a links and then b more. */
  lemma {:induction false} WalkAdd(next: seq<int>, h: int, a: nat, b: nat)
    requires Links(next) && Cursor(next, h)
    ensures Walk(next, h, a + b) == Walk(next, Walk(next, h, a), b)
    decreases b
  {
    if b > 0 {
      WalkAdd(next, h, a, b - 1);
    }
  }

  /** Once a walk has reached Nil it stays there. */
  lemma {:induction false} WalkNil(next: seq<int>, h: int, a: nat, b: nat)
    requires Links(next) && Cursor(next, h) && a <= b
    ensures Walk(next, h, a) == Nil ==> Walk(next, h, b) == Nil
    decreases b - a
  {
    if a < b {
      WalkNil(next, h, a, b - 1);
    }
  }

  /** If the walk comes back to the node at position a after p more links,
      it repeats with period p from position a on. */
  lemma PeriodOnce(next: seq<int>, h: int, a: nat, p: nat, x: nat)
    requires Links(next) && Cursor(next, h)
    requires Walk(next, h, a + p) == Walk(next, h, a) && a <= x
    ensures Walk(next, h, x + p) == Walk(next, h, x)
  {
    WalkAdd(next, h, a + p, x - a);
    WalkAdd(next, h, a, x - a);
    assert a + p + (x - a) == x + p;
  }

  lemma {:induction false} Periodic(next: seq<int>, h: int, a: nat, p: nat, x: nat, t: nat)
    requires Links(next) && Cursor(next, h)
    requires Walk(next, h, a + p) == Walk(next, h, a) && a <= x
    ensures Walk(next, h, x + t * p) == Walk(next, h, x)
    decreases t
  {
    if t > 0 {
      Periodic(next, h, a, p, x, t - 1);
      var y := x + (t - 1) * p;
      PeriodOnce(next, h, a, p, y);
      assert y + p == x + t * p;
    }
  }

  /** A walk that runs into a cycle never reaches Nil. */
  lemma CyclicNeverNil(next: seq<int>, h: int, k: nat)
    requires Links(next) && Cursor(next, h) && Cyclic(next, h)
    ensures Walk(next, h, k) != Nil
  {
    var a: nat :| Revisited(next, h, a);
    var b: nat :| a < b && Walk(next, h, b) == Walk(next, h, a);
    var p := b - a;
    assert a + p == b;
    Periodic(next, h, a, p, a, k);
    var far := a + k * p;
    AtLeast(k, p);
    WalkNil(next, h, k, far);
  }

  lemma AtLeast(k: nat, p: nat)
    requires p >= 1
    ensures k <= k * p
  {
  }

  /** A walk that reaches Nil has no cycle. */
  lemma NilAcyclic(next: seq<int>, h: int, k: nat)
    requires Links(next) && Cursor(next, h)
    ensures Walk(next, h, k) == Nil ==> !Cyclic(next, h)
  {
    if Cyclic(next, h) {
      CyclicNeverNil(next, h, k);
    }
  }

  /** A distinct sequence of slots of an arena of size n has length at most n. */
  lemma DistinctSlots(s: seq<int>, n: nat)
    requires forall i :: 0 <= i < |s| ==> 0 <= s[i] < n
    requires forall i, j :: 0 <= i < j < |s| ==> s[i] != s[j]
    ensures |s| <= n
  {
    var slots: seq<int> := seq(n, i => i);
    DistinctCard(s);
    DistinctCard(slots);
    forall x | x in s
      ensures x in slots
    {
      assert slots[x] == x;
    }
    SubsetCard(set x | x in s, set x | x in slots);
  }

  lemma {:induction false} DistinctCard(s: seq<int>)
    requires forall i, j :: 0 <= i < j < |s| ==> s[i] != s[j]
    ensures |set x | x in s| == |s|
  {
    if s != [] {
      var t := s[..|s| - 1];
      DistinctCard(t);
      assert s == t + [s[|s| - 1]];
      assert (set x | x in s) == (set x | x in t) + {s[|s| - 1]};
      assert s[|s| - 1] !in (set x | x in t);
    }
  }

  lemma SubsetCard(a: set<int>, b: set<int>)
    requires a <= b
    ensures |a| <= |b|
  {
    assert b == a + (b - a);
    assert a * (b - a) == {};
  }

  /** The prefix of length k of the walk, as a sequence of cursors. */
  ghost function WalkPrefix(next: seq<int>, h: int, k: nat): (w: seq<int>)
    requires Links(next) && Cursor(next, h)
    ensures |w| == k && forall j :: 0 <= j < k ==> w[j] == Walk(next, h, j)
  {
    if k == 0 then [] else WalkPrefix(next, h, k - 1) + [Walk(next, h, k - 1)]
  }

  /** Pigeonhole: within |next| links a walk either reaches Nil or repeats. */
  lemma Pigeonhole(next: seq<int>, h: int)
    requires Links(next) && Cursor(next, h)
    ensures Walk(next, h, |next|) == Nil || Cyclic(next, h)
  {
    var n := |next|;
    if Walk(next, h, n) != Nil && !Cyclic(next, h) {
      var w := WalkPrefix(next, h, n + 1);
      forall i | 0 <= i < n + 1
        ensures 0 <= w[i] < n
      {
        WalkNil(next, h, i, n);
      }
      forall i, j | 0 <= i < j < n + 1
        ensures w[i] != w[j]
      {
        assert !Revisited(next, h, i);
      }
      DistinctSlots(w, n);
      assert false;
    }
  }

  /** The first revisited position of the walk, below any revisited one. */
  lemma {:induction false} FirstRevisited(next: seq<int>, h: int, a: nat) returns (m: nat)
    requires Links(next) && Cursor(next, h) && Revisited(next, h, a)
    ensures m <= a && Revisited(next, h, m)
    ensures forall j: nat :: j < m ==> !Revisited(next, h, j)
    decreases a
  {
    if exists j: nat :: j < a && Revisited(next, h, j) {
      var j: nat :| j < a && Revisited(next, h, j);
      m := FirstRevisited(next, h, j);
    } else {
      m := a;
    }
  }

  /** On a cyclic walk the hare (two links per step) meets the tortoise (one
      link per step) after some j >= 1 steps. */
  lemma MeetingExists(next: seq<int>, h: int) returns (j: nat)
    requires Links(next) && Cursor(next, h) && Cyclic(next, h)
    ensures j >= 1 && Walk(next, h, j) == Walk(next, h, 2 * j)
  {
    var a: nat :| Revisited(next, h, a);
    var b: nat :| a < b && Walk(next, h, b) == Walk(next, h, a);
    var p := b - a;
    assert a + p == b;
    j := (a + 1) * p;
    assert j >= a + 1;
    Periodic(next, h, a, p, j, a + 1);
    assert j + (a + 1) * p == 2 * j;
  }

  /** If the tortoise and hare meet after i >= 1 steps, walking i links from
      the first revisited position m comes back to it, and m <= i. */
  lemma MeetingAligned(next: seq<int>, h: int, m: nat, i: nat)
    requires Links(next) && Cursor(next, h)
    requires Revisited(next, h, m) && forall j: nat :: j < m ==> !Revisited(next, h, j)
    requires i >= 1 && Walk(next, h, i) == Walk(next, h, 2 * i)
    ensures m <= i && Walk(next, h, m + i) == Walk(next, h, m)
  {
    assert Cyclic(next, h);
    CyclicNeverNil(next, h, i);
    assert i < 2 * i;
    assert Revisited(next, h, i);
    var b: nat :| m < b && Walk(next, h, b) == Walk(next, h, m);
    assert m + (b - m) == b;
    AlignedPeriod(next, h, m, b - m, i);
  }

  /** The arithmetic of MeetingAligned: with period q from position m and a
      meeting after i >= m steps, i more links from m come back to m. */
  lemma AlignedPeriod(next: seq<int>, h: int, m: nat, q: nat, i: nat)
    requires Links(next) && Cursor(next, h)
    requires q >= 1 && Walk(next, h, m + q) == Walk(next, h, m)
    requires m <= i && Walk(next, h, i + i) == Walk(next, h, i)
    ensures Walk(next, h, m + i) == Walk(next, h, m)
  {
    var x := m + i * q;
    AtLeast(i, q);
    Periodic(next, h, m, q, m, i);
    PeriodOnce(next, h, i, i, x);
    Periodic(next, h, m, q, m + i, i);
    assert x + i == m + i + i * q;
  }

  /** A walk has at most one entrance; EntranceExists gives one on a cyclic walk. */
  lemma EntranceUnique(next: seq<int>, h: int, e1: int, e2: int)
    requires Links(next) && Cursor(next, h)
    requires IsEntrance(next, h, e1) && IsEntrance(next, h, e2)
    ensures e1 == e2
  {
    var m1: nat :| Walk(next, h, m1) == e1 && Revisited(next, h, m1) &&
      forall a: nat :: a < m1 ==> !Revisited(next, h, a);
    var m2: nat :| Walk(next, h, m2) == e2 && Revisited(next, h, m2) &&
      forall a: nat :: a < m2 ==> !Revisited(next, h, a);
    assert m1 == m2;
  }

  /** A walk that runs into a cycle has an entrance. */
  lemma EntranceExists(next: seq<int>, h: int) returns (m: nat)
    requires Links(next) && Cursor(next, h) && Cyclic(next, h)
    ensures IsEntrance(next, h, Walk(next, h, m))
    ensures Revisited(next, h, m) && forall j: nat :: j < m ==> !Revisited(next, h, j)
  {
    var a: nat :| Revisited(next, h, a);
    m := FirstRevisited(next, h, a);
  }

  /** nodes lists, in order, the slots of an acyclic chain from h to Nil. */
  ghost predicate IsChain(next: seq<int>, h: int, nodes: seq<nat>) {
    && (forall i :: 0 <= i < |nodes| ==> nodes[i] < |next|)
    && h == (if nodes == [] then Nil else nodes[0])
    && (forall i :: 0 <= i < |nodes| ==>
          next[nodes[i]] == (if i + 1 < |nodes| then nodes[i + 1] else Nil))
  }

  /** The values stored at the given slots, in order. */
  function Gather(vals: seq<int>, nodes: seq<nat>): (r: seq<int>)
    requires forall i :: 0 <= i < |nodes| ==> nodes[i] < |vals|
    ensures |r| == |nodes| && forall i :: 0 <= i < |nodes| ==> r[i] == vals[nodes[i]]
  {
    seq(|nodes|, i requires 0 <= i < |nodes| => vals[nodes[i]])
  }

  /** Along a chain the walk visits exactly its slots and then stays at Nil. */
  lemma {:induction false} ChainWalk(next: seq<int>, h: int, nodes: seq<nat>, k: nat)
    requires Links(next) && Cursor(next, h) && IsChain(next, h, nodes)
    ensures Walk(next, h, k) == if k < |nodes| then nodes[k] else Nil
  {
    if k > 0 {
      ChainWalk(next, h, nodes, k - 1);
      if k - 1 < |nodes| {
        ChainLink(next, h, nodes, k - 1);
      }
    }
  }

  /** A chain has no cycle. */
  lemma ChainAcyclic(next: seq<int>, h: int, nodes: seq<nat>)
    requires Links(next) && Cursor(next, h) && IsChain(next, h, nodes)
    ensures !Cyclic(next, h)
  {
    ChainWalk(next, h, nodes, |nodes|);
    NilAcyclic(next, h, |nodes|);
  }

  /** A chain passes through each slot at most once. */
  lemma ChainDistinct(next: seq<int>, h: int, nodes: seq<nat>)
    requires Links(next) && Cursor(next, h) && IsChain(next, h, nodes)
    ensures forall i, j :: 0 <= i < j < |nodes| ==> nodes[i] != nodes[j]
  {
    ChainAcyclic(next, h, nodes);
    forall i, j | 0 <= i < j < |nodes|
      ensures nodes[i] != nodes[j]
    {
      ChainWalk(next, h, nodes, i);
      ChainWalk(next, h, nodes, j);
      assert !Revisited(next, h, i);
    }
  }

  /** The link out of the slot at position j of a chain. */
  lemma ChainLink(next: seq<int>, h: int, nodes: seq<nat>, j: nat)
    requires IsChain(next, h, nodes) && j < |nodes|
    ensures nodes[j] < |next|
    ensures next[nodes[j]] == if j + 1 < |nodes| then nodes[j + 1] else Nil
  {
  }

  /** The part of a chain from any of its slots on is a chain too. */
  lemma ChainSuffix(next: seq<int>, h: int, nodes: seq<nat>, k: nat, suffix: seq<nat>)
    requires IsChain(next, h, nodes) && k < |nodes| && suffix == nodes[k..]
    ensures IsChain(next, suffix[0], suffix)
  {
    forall i | 0 <= i < |suffix|
      ensures suffix[i] < |next|
      ensures next[suffix[i]] == (if i + 1 < |suffix| then suffix[i + 1] else Nil)
    {
      ChainLink(next, h, nodes, k + i);
    }
  }

  /** Relinking a slot outside a chain leaves the chain intact. */
  lemma ChainFrame(next: seq<int>, h: int, nodes: seq<nat>, x: nat, v: int)
    requires IsChain(next, h, nodes) && x < |next| && x !in nodes
    ensures IsChain(next[x := v], h, nodes)
  {
    forall i | 0 <= i < |nodes|
      ensures nodes[i] < |next[x := v]|
      ensures next[x := v][nodes[i]] == (if i + 1 < |nodes| then nodes[i + 1] else Nil)
    {
      ChainLink(next, h, nodes, i);
    }
  }

  /** Pointing the slot at position k of a chain past the next one drops
      the slot at position k + 1 from the chain. */
  lemma ChainUnlink(next: seq<int>, h: int, nodes: seq<nat>, k: nat)
    requires Links(next) && Cursor(next, h) && IsChain(next, h, nodes) && k + 1 < |nodes|
    ensures IsChain(next[nodes[k] := next[nodes[k + 1]]], h, nodes[..k + 1] + nodes[k + 2..])
  {
    ChainDistinct(next, h, nodes);
    var next' := next[nodes[k] := next[nodes[k + 1]]];
    var nodes' := nodes[..k + 1] + nodes[k + 2..];
    forall j | 0 <= j < |nodes'|
      ensures nodes'[j] < |next'|
      ensures next'[nodes'[j]] == (if j + 1 < |nodes'| then nodes'[j + 1] else Nil)
    {
      if j < k {
        ChainLink(next, h, nodes, j);
        assert nodes'[j] == nodes[j] && nodes'[j + 1] == nodes[j + 1];
      } else if j == k {
        ChainLink(next, h, nodes, k + 1);
        assert nodes'[j] == nodes[k];
        assert j + 1 < |nodes'| ==> nodes'[j + 1] == nodes[k + 2];
      } else {
        ChainLink(next, h, nodes, j + 1);
        assert nodes'[j] == nodes[j + 1];
        assert j + 1 < |nodes'| ==> nodes'[j + 1] == nodes[j + 2];
      }
    }
    assert nodes'[0] == nodes[0];
    assert IsChain(next', h, nodes');
  }

  /** Dropping the slot at position j drops the value at position j. */
  lemma GatherDrop(vals: seq<int>, nodes: seq<nat>, j: nat)
    requires forall i :: 0 <= i < |nodes| ==> nodes[i] < |vals|
    requires j < |nodes|
    ensures Gather(vals, nodes[..j] + nodes[j + 1..]) == Gather(vals, nodes)[..j] + Gather(vals, nodes)[j + 1..]
  {
    var dropped := nodes[..j] + nodes[j + 1..];
    var g := Gather(vals, nodes);
    var r := Gather(vals, dropped);
    assert |r| == |g[..j] + g[j + 1..]|;
    forall i | 0 <= i < |r|
      ensures r[i] == (g[..j] + g[j + 1..])[i]
    {
      if i < j {
        assert dropped[i] == nodes[i];
      } else {
        assert dropped[i] == nodes[i + 1];
      }
    }
  }

  /** A slot whose link is the head of a chain extends it at the front. */
  lemma ChainCons(next: seq<int>, h: int, nodes: seq<nat>, x: nat, ext: seq<nat>)
    requires IsChain(next, h, nodes) && x < |next| && next[x] == h && ext == [x] + nodes
    ensures IsChain(next, x, ext)
  {
    forall i | 0 <= i < |ext|
      ensures ext[i] < |next|
      ensures next[ext[i]] == (if i + 1 < |ext| then ext[i + 1] else Nil)
    {
      if i > 0 {
        ChainLink(next, h, nodes, i - 1);
      }
    }
  }

  /** Pointing a slot outside a chain at the chain's head extends the chain
      at the front; this is one step of reversing a list. */
  lemma ChainPush(next: seq<int>, h: int, nodes: seq<nat>, x: nat, ext: seq<nat>)
    requires IsChain(next, h, nodes) && x < |next| && x !in nodes && ext == [x] + nodes
    ensures IsChain(next[x := h], x, ext)
  {
    ChainFrame(next, h, nodes, x, h);
    ChainCons(next[x := h], h, nodes, x, ext);
  }

  /** In a sequence without repetitions, the element at k is not among
      those before it. */
  lemma DistinctAt(s: seq<nat>, k: nat)
    requires forall i, j :: 0 <= i < j < |s| ==> s[i] != s[j]
    requires k < |s|
    ensures s[k] !in s[..k]
  {
    forall i | 0 <= i < k
      ensures s[..k][i] != s[k]
    {
    }
  }
}
