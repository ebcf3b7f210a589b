/** The singly linked list of the linkedlist package. Nodes live in an
    arena: slot i holds the value vals[i] and the link next[i] (Nil for the
    last node), and head is the first slot or Nil for a list without nodes.
    A list that the list operations built is a chain: the ghost field nodes
    lists its slots from the head to the last node. Rewiring a link, as the
    cycle tests do, keeps the arena well formed but may end the chain. An
    absent list (a nil *List) is a null reference. */
module LinkedLists {
  import opened Options
  import opened Sequences
  import opened Rendering
  import opened Chains

  class LinkedList {
    var vals: seq<int>
    var next: seq<int>
    var head: int
    ghost var nodes: seq<nat>

    /** Every link and the head name a slot of the arena or Nil. */
    ghost predicate WellFormed()
      reads this
    {
      |vals| == |next| && Links(next) && Cursor(next, head)
    }

    /** The links from the head run through nodes and end at Nil. */
    ghost predicate Valid()
      reads this
    {
      WellFormed() && IsChain(next, head, nodes)
    }

    /** The values of the list, from the head on. */
    ghost function Values(): seq<int>
      reads this
      requires Valid()
    {
      Gather(vals, nodes)
    }

    /** createLinkedListFromArray: one node per element, in order; a nil or
        empty array gives a present list without nodes. */
    constructor FromArray(a: seq<int>)
      ensures Valid() && Values() == a
      ensures vals == a && head == (if a == [] then Nil else 0)
      ensures next == seq(|a|, i => if i + 1 < |a| then i + 1 else Nil)
    {
      vals := a;
      next := seq(|a|, i => if i + 1 < |a| then i + 1 else Nil);
      head := if a == [] then Nil else 0;
      nodes := seq(|a|, i => i);
    }

    /** The assignment node.Next = other that the cycle tests perform. */
    method Relink(from: nat, to: int)
      requires WellFormed() && from < |next| && Cursor(next, to)
      modifies this
      ensures WellFormed()
      ensures vals == old(vals) && head == old(head) && next == old(next)[from := to]
    {
      next := next[from := to];
    }

    /** insertNodeHead: a new first node holding v. */
    method InsertHead(v: int)
      requires Valid()
      modifies this
      ensures Valid() && Values() == [v] + old(Values())
    {
      var slot := |vals|;
      vals := vals + [v];
      next := next + [head];
      head := slot;
      ghost var old_values := Gather(old(vals), old(nodes));
      nodes := [slot] + nodes;
      forall i | 0 <= i < |nodes|
        ensures nodes[i] < |next|
        ensures next[nodes[i]] == (if i + 1 < |nodes| then nodes[i + 1] else Nil)
      {
        if i > 0 {
          ChainLink(old(next), old(head), old(nodes), i - 1);
        }
      }
      assert IsChain(next, head, nodes);
      assert Values() == [v] + old_values;
    }

    /** The last slot of a non-empty chain, found by walking the links. */
    method LastSlot() returns (p: nat)
      requires Valid() && head != Nil
      ensures |nodes| > 0 && p == nodes[|nodes| - 1]
    {
      p := head;
      ghost var k := 0;
      while next[p] != Nil
        invariant k < |nodes| && p == nodes[k]
        decreases |nodes| - k
      {
        ChainLink(next, head, nodes, k);
        p := next[p];
        k := k + 1;
      }
      ChainLink(next, head, nodes, k);
    }

    /** insertNodeTail: a new last node holding v. */
    method InsertTail(v: int)
      requires Valid()
      modifies this
      ensures Valid() && Values() == old(Values()) + [v]
    {
      var slot := |vals|;
      if head == Nil {
        vals := vals + [v];
        next := next + [Nil];
        head := slot;
        nodes := [slot];
      } else {
        var last := LastSlot();
        ChainDistinct(next, head, nodes);
        ghost var old_nodes := nodes;
        vals := vals + [v];
        next := (next + [Nil])[last := slot];
        nodes := nodes + [slot];
        forall i | 0 <= i < |nodes|
          ensures next[nodes[i]] == (if i + 1 < |nodes| then nodes[i + 1] else Nil)
        {
          if i + 1 < |old_nodes| {
            ChainLink(old(next), old(head), old_nodes, i);
          }
        }
      }
    }

    /** delNodeHead: the first node is dropped; no change without nodes. */
    method DelHead()
      requires Valid()
      modifies this
      ensures Valid()
      ensures Values() == if old(Values()) == [] then [] else old(Values())[1..]
    {
      if head != Nil {
        ChainLink(next, head, nodes, 0);
        if |nodes| == 1 {
          nodes := [];
        } else {
          ChainSuffix(next, head, nodes, 1, nodes[1..]);
          nodes := nodes[1..];
        }
        head := next[head];
      }
    }

    /** delNodeTail: the last node is dropped; no change without nodes. */
    method DelTail()
      requires Valid()
      modifies this
      ensures Valid()
      ensures Values() == if old(Values()) == [] then [] else old(Values())[..|old(Values())| - 1]
    {
      if head == Nil {
        return;
      }
      ChainLink(next, head, nodes, 0);
      if next[head] == Nil {
        head := Nil;
        nodes := [];
        return;
      }
      var p := head;
      ghost var k := 0;
      ChainLink(next, head, nodes, 1);
      while next[next[p]] != Nil
        modifies {}
        invariant k + 1 < |nodes| && p == nodes[k] && next[p] == nodes[k + 1]
        invariant nodes[k + 1] < |next|
        decreases |nodes| - k
      {
        ChainLink(next, head, nodes, k + 1);
        p := next[p];
        k := k + 1;
        ChainLink(next, head, nodes, k + 1);
      }
      ChainLink(next, head, nodes, k + 1);
      UnlinkAfter(p, k);
    }

    /** Unlinks the node after slot p, the slot at position k of the chain,
        by pointing p at the node after that; p's link becomes Nil when the
        dropped node was the last one. */
    method UnlinkAfter(p: nat, ghost k: nat)
      requires Valid() && k + 1 < |nodes| && p == nodes[k]
      modifies this
      ensures Valid()
      ensures Values() == old(Values())[..k + 1] + old(Values())[k + 2..]
    {
      ChainLink(next, head, nodes, k);
      ChainLink(next, head, nodes, k + 1);
      ChainUnlink(next, head, nodes, k);
      GatherDrop(vals, nodes, k + 1);
      next := next[p := next[next[p]]];
      nodes := nodes[..k + 1] + nodes[k + 2..];
    }

    /** reverse: the links are turned round one node at a time, so the
        values end up in the opposite order. */
    method Reverse()
      requires Valid()
      modifies this
      ensures Valid() && Values() == Sequences.Reverse(old(Values()))
    {
      next, head := ReverseLinks(next, head, nodes);
      nodes := Sequences.Reverse<nat>(nodes);
      forall j | 0 <= j < |nodes|
        ensures Values()[j] == Sequences.Reverse(old(Values()))[j]
      {
        ReverseAt<nat>(old(nodes), j);
        ReverseAt(old(Values()), j);
      }
    }

    /** rmListNthFromEnd: the node n places from the end is unlinked, so n
        equal to the length removes the head and n = 1 the last node; an n
        outside 1 .. length leaves the list alone. A leading cursor walks n
        links first, then a trailing cursor follows it to the end. */
    method RemoveNthFromEnd(n: int)
      requires Valid()
      modifies this
      ensures Valid()
      ensures 1 <= n <= |old(Values())| ==>
        Values() == old(Values())[..|old(Values())| - n] + old(Values())[|old(Values())| - n + 1..]
      ensures !(1 <= n <= |old(Values())|) ==> Values() == old(Values())
    {
      if head == Nil || n <= 0 {
        return;
      }
      ghost var len := |nodes|;
      var lead := head;
      var i := 0;
      while i < n
        modifies {}
        invariant 0 <= i <= n && i <= len
        invariant lead == (if i < len then nodes[i] else Nil)
      {
        if lead == Nil {
          return;
        }
        ChainLink(next, head, nodes, i);
        lead := next[lead];
        i := i + 1;
      }
      if lead == Nil {
        DelHead();
        return;
      }
      var trail := head;
      ghost var k := 0;
      while next[lead] != Nil
        modifies {}
        invariant n + k < len && lead == nodes[n + k] && trail == nodes[k]
        decreases len - k
      {
        ChainLink(next, head, nodes, n + k);
        ChainLink(next, head, nodes, k);
        lead := next[lead];
        trail := next[trail];
        k := k + 1;
      }
      ChainLink(next, head, nodes, n + k);
      UnlinkAfter(trail, k);
    }

    /** The values of the list, gathered by walking it. */
    method ToSeq() returns (vs: seq<int>)
      requires Valid()
      ensures vs == Values()
    {
      vs := [];
      var p := head;
      ghost var i := 0;
      while p != Nil
        invariant i <= |nodes| && p == (if i < |nodes| then nodes[i] else Nil)
        invariant vs == Values()[..i]
        decreases |nodes| - i
      {
        ChainLink(next, head, nodes, i);
        vs := vs + [vals[p]];
        p := next[p];
        i := i + 1;
      }
    }

    /** String: the rendering of the values, "nil" for a list without nodes. */
    method String() returns (s: string)
      requires Valid()
      ensures s == Render(Values())
    {
      s := "";
      var p := head;
      ghost var vs := Values();
      ghost var i := 0;
      while p != Nil
        invariant i <= |nodes| && p == (if i < |nodes| then nodes[i] else Nil)
        invariant s + Render(vs[i..]) == Render(vs)
        decreases |nodes| - i
      {
        ChainLink(next, head, nodes, i);
        var entry := IntToString(vals[p]) + "->";
        RenderFrom(vs, i);
        assert (s + entry) + Render(vs[i + 1..]) == s + Render(vs[i..]);
        s := s + entry;
        p := next[p];
        i := i + 1;
      }
      assert vs[i..] == [];
      s := s + "nil";
    }

    /** isPalindrome: the values read the same from both ends. */
    method IsPalindrome() returns (b: bool)
      requires Valid()
      ensures b <==> Palindrome(Values())
    {
      var vs := ToSeq();
      PalindromeByHalves(vs);
      var i := 0;
      while i < |vs| / 2
        invariant 0 <= i <= |vs| / 2
        invariant forall j :: 0 <= j < i ==> vs[j] == vs[|vs| - 1 - j]
      {
        if vs[i] != vs[|vs| - 1 - i] {
          return false;
        }
        i := i + 1;
      }
      return true;
    }
  }

  /** The link reversal of reverse: walking the chain ns from h, each
      node's link is pointed back at the node before it; the last node
      becomes the new head. */
  method ReverseLinks(next: seq<int>, h: int, ghost ns: seq<nat>) returns (links: seq<int>, last: int)
    requires Links(next) && Cursor(next, h) && IsChain(next, h, ns)
    ensures |links| == |next| && Links(links) && Cursor(links, last)
    ensures IsChain(links, last, Sequences.Reverse(ns))
  {
    ghost var n := |ns|;
    ChainDistinct(next, h, ns);
    links := next;
    var prev := Nil;
    var cur := h;
    ghost var k := 0;
    ghost var done: seq<nat> := [];
    while cur != Nil
      invariant k <= n && |links| == |next| && Links(links) && Cursor(links, prev)
      invariant cur == (if k < n then ns[k] else Nil)
      invariant done == Sequences.Reverse(ns[..k]) && IsChain(links, prev, done)
      invariant forall i :: k <= i < n ==> links[ns[i]] == next[ns[i]]
      decreases n - k
    {
      ReverseStep(next, h, ns, links, prev, done, k);
      var after := links[cur];
      links := links[cur := prev];
      done := [cur] + done;
      prev := cur;
      cur := after;
      k := k + 1;
    }
    assert ns[..k] == ns;
    last := prev;
  }

  /** One turn of the reversal loop: the slot at position k is pointed back
      at the reversed prefix, which then reaches one position further. */
  lemma ReverseStep(next: seq<int>, h: int, ns: seq<nat>, links: seq<int>, prev: int, done: seq<nat>, k: nat)
    requires Links(next) && Cursor(next, h) && IsChain(next, h, ns) && k < |ns|
    requires forall i, j :: 0 <= i < j < |ns| ==> ns[i] != ns[j]
    requires |links| == |next| && Links(links) && Cursor(links, prev)
    requires done == Sequences.Reverse(ns[..k]) && IsChain(links, prev, done)
    requires forall i :: k <= i < |ns| ==> links[ns[i]] == next[ns[i]]
    ensures links[ns[k]] == (if k + 1 < |ns| then ns[k + 1] else Nil)
    ensures Links(links[ns[k] := prev])
    ensures [ns[k]] + done == Sequences.Reverse(ns[..k + 1])
    ensures IsChain(links[ns[k] := prev], ns[k], [ns[k]] + done)
    ensures forall i :: k + 1 <= i < |ns| ==> links[ns[k] := prev][ns[i]] == next[ns[i]]
  {
    var x := ns[k];
    ChainLink(next, h, ns, k);
    DistinctAt(ns, k);
    ReversePermutation(ns[..k]);
    assert x !in multiset(done);
    ChainPush(links, prev, done, x, [x] + done);
    assert ns[..k + 1] == ns[..k] + [x];
    ReverseSnoc(ns[..k], x);
    forall i | k + 1 <= i < |ns|
      ensures links[x := prev][ns[i]] == next[ns[i]]
    {
      assert ns[i] != x;
    }
  }

  /** What a possibly absent list stands for: None if it is absent, else
      its values. */
  ghost function View(l: LinkedList?): Option<seq<int>>
    reads l
    requires l != null ==> l.Valid()
  {
    if l == null then None else Some(l.Values())
  }

  /** isLinkedListEqual: two absent lists are equal, an absent and a present
      list are not (even one without nodes), and two present lists are
      equal when they hold the same values in the same order. */
  method Equal(l: LinkedList?, o: LinkedList?) returns (eq: bool)
    requires l != null ==> l.Valid()
    requires o != null ==> o.Valid()
    ensures eq <==> View(l) == View(o)
  {
    if l == null || o == null {
      return l == o;
    }
    var p, q := l.head, o.head;
    ghost var i := 0;
    while p != Nil && q != Nil
      invariant i <= |l.nodes| && p == (if i < |l.nodes| then l.nodes[i] else Nil)
      invariant i <= |o.nodes| && q == (if i < |o.nodes| then o.nodes[i] else Nil)
      invariant l.Values()[..i] == o.Values()[..i]
      decreases |l.nodes| - i
    {
      ChainLink(l.next, l.head, l.nodes, i);
      ChainLink(o.next, o.head, o.nodes, i);
      if l.vals[p] != o.vals[q] {
        assert l.Values()[i] != o.Values()[i];
        return false;
      }
      assert l.Values()[..i + 1] == l.Values()[..i] + [l.Values()[i]];
      assert o.Values()[..i + 1] == o.Values()[..i] + [o.Values()[i]];
      p := l.next[p];
      q := o.next[q];
      i := i + 1;
    }
    eq := p == q;
    if eq {
      assert l.Values() == l.Values()[..i];
      assert o.Values() == o.Values()[..i];
    } else {
      assert |l.Values()| != |o.Values()|;
    }
  }

  /** String on a possibly absent list: an absent list renders as "nil",
      exactly like a list without nodes. */
  method Rendered(l: LinkedList?) returns (s: string)
    requires l != null ==> l.Valid()
    ensures s == Render(if l == null then [] else l.Values())
    ensures l == null ==> s == "nil"
  {
    if l == null {
      s := "nil";
    } else {
      s := l.String();
    }
  }

  /** isPalindrome on a possibly absent list: an absent list is a
      palindrome. */
  method Palindromic(l: LinkedList?) returns (b: bool)
    requires l != null ==> l.Valid()
    ensures l == null ==> b
    ensures l != null ==> (b <==> Palindrome(l.Values()))
  {
    if l == null {
      b := true;
    } else {
      b := l.IsPalindrome();
    }
  }

  /** getMiddleNode: the slow cursor stops at position (n - 1) / 2, the
      earlier of the two middles of an even-length list; Nil for an absent
      list or one without nodes. */
  method MiddleNode(l: LinkedList?) returns (m: int)
    requires l != null ==> l.Valid()
    ensures l == null || l.nodes == [] ==> m == Nil
    ensures l != null && l.nodes != [] ==> m == l.nodes[(|l.nodes| - 1) / 2]
  {
    if l == null || l.head == Nil {
      return Nil;
    }
    ghost var n := |l.nodes|;
    var slow, fast := l.head, l.head;
    ghost var i := 0;
    ChainLink(l.next, l.head, l.nodes, 0);
    while l.next[fast] != Nil && l.next[l.next[fast]] != Nil
      invariant 2 * i < n && slow == l.nodes[i] && fast == l.nodes[2 * i]
      invariant l.next[fast] == (if 2 * i + 1 < n then l.nodes[2 * i + 1] else Nil)
      decreases n - i
    {
      ChainLink(l.next, l.head, l.nodes, 2 * i + 1);
      ChainLink(l.next, l.head, l.nodes, i);
      slow := l.next[slow];
      fast := l.next[l.next[fast]];
      i := i + 1;
      ChainLink(l.next, l.head, l.nodes, 2 * i);
    }
    if 2 * i + 1 < n {
      ChainLink(l.next, l.head, l.nodes, 2 * i + 1);
    }
    m := slow;
  }

  /** The list that starts at the middle node holds the later half of the
      values, which is what the middle-node table compares. */
  lemma MiddleSuffix(l: LinkedList)
    requires l.Valid() && l.nodes != []
    ensures IsChain(l.next, l.nodes[(|l.nodes| - 1) / 2], l.nodes[(|l.nodes| - 1) / 2..])
    ensures Gather(l.vals, l.nodes[(|l.nodes| - 1) / 2..]) == l.Values()[(|l.nodes| - 1) / 2..]
  {
    var k := (|l.nodes| - 1) / 2;
    ChainSuffix(l.next, l.head, l.nodes, k, l.nodes[k..]);
  }

  /** Floyd's first phase on the arena: the tortoise moves one link and the
      hare two per step until the hare runs off the end (no cycle) or the
      two land on the same node, which happens exactly when the walk from
      h runs into a cycle. steps counts the tortoise's moves. */
  method Meet(next: seq<int>, h: int) returns (found: bool, meet: int, ghost steps: nat)
    requires Links(next) && Cursor(next, h)
    ensures found <==> Cyclic(next, h)
    ensures found ==> steps >= 1 && meet == Walk(next, h, steps) && meet == Walk(next, h, 2 * steps)
  {
    var slow, fast := h, h;
    ghost var i: nat := 0;
    ghost var bound: nat;
    if Cyclic(next, h) {
      bound := MeetingExists(next, h);
    } else {
      Pigeonhole(next, h);
      bound := |next|;
    }
    while true
      invariant slow == Walk(next, h, i) && fast == Walk(next, h, 2 * i)
      invariant Cyclic(next, h) ==> i < bound && bound >= 1 && Walk(next, h, bound) == Walk(next, h, 2 * bound)
      invariant !Cyclic(next, h) ==> bound == |next| && Walk(next, h, |next|) == Nil && i <= bound
      decreases bound - i
    {
      if fast == Nil || next[fast] == Nil {
        NilAcyclic(next, h, 2 * i);
        NilAcyclic(next, h, 2 * i + 1);
        return false, Nil, 0;
      }
      WalkNil(next, h, i, 2 * i);
      if |next| <= 2 * i + 1 {
        WalkNil(next, h, |next|, 2 * i + 1);
      }
      slow := next[slow];
      fast := next[next[fast]];
      i := i + 1;
      if slow == fast {
        WalkNil(next, h, i, 2 * i - 1);
        assert Revisited(next, h, i) by {
          assert i < 2 * i && Walk(next, h, 2 * i) == Walk(next, h, i);
        }
        return true, slow, i;
      }
    }
  }

  /** hasCycle: true exactly when the list is present and the walk from
      its head runs into a cycle. */
  method HasCycle(l: LinkedList?) returns (b: bool)
    requires l != null ==> l.WellFormed()
    ensures b <==> l != null && Cyclic(l.next, l.head)
  {
    if l == null {
      return false;
    }
    var meet;
    ghost var steps;
    b, meet, steps := Meet(l.next, l.head);
  }

  /** Floyd's second phase: one cursor from the head and one from the
      meeting point, both one link per step, meet at the entrance. */
  method EntranceFrom(next: seq<int>, h: int, meet: int, ghost steps: nat) returns (e: int)
    requires Links(next) && Cursor(next, h) && Cyclic(next, h)
    requires steps >= 1 && meet == Walk(next, h, steps) && meet == Walk(next, h, 2 * steps)
    ensures IsEntrance(next, h, e)
  {
    ghost var mu := EntranceExists(next, h);
    MeetingAligned(next, h, mu, steps);
    var p, q := h, meet;
    ghost var k: nat := 0;
    while p != q
      invariant k <= mu && p == Walk(next, h, k) && q == Walk(next, h, steps + k)
      decreases mu - k
    {
      assert k < mu;
      CyclicNeverNil(next, h, k);
      CyclicNeverNil(next, h, steps + k);
      p := next[p];
      q := next[q];
      k := k + 1;
    }
    CyclicNeverNil(next, h, k);
    assert Revisited(next, h, k) by {
      assert k < steps + k && Walk(next, h, steps + k) == Walk(next, h, k);
    }
    assert k == mu;
    e := p;
  }

  /** getCycleEntrance: the first node of the walk from the head that the
      walk meets again; Nil for an absent list or one without a cycle. */
  method CycleEntrance(l: LinkedList?) returns (e: int)
    requires l != null ==> l.WellFormed()
    ensures l == null ==> e == Nil
    ensures l != null && !Cyclic(l.next, l.head) ==> e == Nil
    ensures l != null && Cyclic(l.next, l.head) ==> IsEntrance(l.next, l.head, e)
  {
    if l == null {
      return Nil;
    }
    var found, meet, steps := Meet(l.next, l.head);
    if !found {
      return Nil;
    }
    e := EntranceFrom(l.next, l.head, meet, steps);
  }

  /** A list built by the list operations has no cycle. */
  lemma ValidAcyclic(l: LinkedList)
    requires l.Valid()
    ensures !Cyclic(l.next, l.head)
  {
    ChainAcyclic(l.next, l.head, l.nodes);
  }

  /** mergeTwoSortedList: the values of both lists in one present list, the
      smaller head first and the first list's head on a tie; an absent list
      counts as empty. */
  method MergeTwoSorted(a: LinkedList?, b: LinkedList?) returns (r: LinkedList)
    requires a != null ==> a.Valid()
    requires b != null ==> b.Valid()
    ensures r.Valid()
    ensures r.Values() == Merge(if a == null then [] else a.Values(), if b == null then [] else b.Values())
  {
    var xs: seq<int> := [];
    var ys: seq<int> := [];
    if a != null {
      xs := a.ToSeq();
    }
    if b != null {
      ys := b.ToSeq();
    }
    var out := MergeValues(xs, ys);
    r := new LinkedList.FromArray(out);
  }

  /** The two-cursor merge loop over the values of two lists. */
  method MergeValues(xs: seq<int>, ys: seq<int>) returns (out: seq<int>)
    ensures out == Merge(xs, ys)
  {
    var a, b := xs, ys;
    out := [];
    while a != [] || b != []
      invariant Merge(xs, ys) == out + Merge(a, b)
      decreases |a| + |b|
    {
      if a != [] && (b == [] || a[0] <= b[0]) {
        MergeLeftStep(out, a, b);
        out, a := out + [a[0]], a[1..];
      } else {
        MergeRightStep(out, a, b);
        out, b := out + [b[0]], b[1..];
      }
    }
    assert out + Merge([], []) == out;
  }

  /** Taking the head of the first list keeps the merge loop's invariant. */
  lemma MergeLeftStep(out: seq<int>, a: seq<int>, b: seq<int>)
    requires a != [] && (b == [] || a[0] <= b[0])
    ensures out + Merge(a, b) == (out + [a[0]]) + Merge(a[1..], b)
  {
    MergeTakeLeft(a, b);
    assert out + ([a[0]] + Merge(a[1..], b)) == (out + [a[0]]) + Merge(a[1..], b);
  }

  /** Taking the head of the second list keeps the merge loop's invariant. */
  lemma MergeRightStep(out: seq<int>, a: seq<int>, b: seq<int>)
    requires b != [] && (a == [] || a[0] > b[0])
    ensures out + Merge(a, b) == (out + [b[0]]) + Merge(a, b[1..])
  {
    MergeTakeRight(a, b);
    assert out + ([b[0]] + Merge(a, b[1..])) == (out + [b[0]]) + Merge(a, b[1..]);
  }

  /** The arena of the seven-node cycle tests: 1 .. 7 with the link of the
      node holding 6 pointed back at the node holding 5; the node holding 7
      is no longer reached from the head. */
  const SevenRewired: seq<int> := [1, 2, 3, 4, 5, 4, Nil]

  /** Up to the rewired link, the walk visits the slots in order. */
  lemma {:induction false} SevenPrefix(k: nat)
    requires k <= 5
    ensures Walk(SevenRewired, 0, k) == k
  {
    if k > 0 {
      SevenPrefix(k - 1);
    }
  }

  /** From position 4 on, the walk alternates between slots 4 and 5. */
  lemma {:induction false} SevenLoop(k: nat)
    requires k >= 4
    ensures 4 <= Walk(SevenRewired, 0, k) <= 5
  {
    if k == 4 {
      SevenPrefix(4);
    } else {
      SevenLoop(k - 1);
    }
  }

  /** In the rewired seven-node arena the walk from the head is cyclic and
      enters the cycle at slot 4. */
  lemma SevenEntrance()
    ensures Links(SevenRewired) && Cyclic(SevenRewired, 0)
    ensures IsEntrance(SevenRewired, 0, 4)
  {
    var next := SevenRewired;
    SevenPrefix(5);
    SevenPrefix(4);
    assert Walk(next, 0, 6) == 4;
    assert Revisited(next, 0, 4);
    forall a: nat | a < 4
      ensures !Revisited(next, 0, a)
    {
      SevenPrefix(a);
      forall b: nat | a < b
        ensures Walk(next, 0, b) != a
      {
        if b <= 5 {
          SevenPrefix(b);
        } else {
          SevenLoop(b);
        }
      }
    }
  }

  /** The arena of the three-node cycle test: the last node's link points
      back at the head. */
  const ThreeRewired: seq<int> := [1, 2, 0]

  /** In the rewired three-node arena the walk is cyclic and the entrance
      is the head. */
  lemma ThreeEntrance()
    ensures Links(ThreeRewired) && Cyclic(ThreeRewired, 0)
    ensures IsEntrance(ThreeRewired, 0, 0)
  {
    assert Walk(ThreeRewired, 0, 3) == 0;
    assert Revisited(ThreeRewired, 0, 0);
  }

  /** The hasCycle and getCycleEntrance tests on 1 .. 7 with the link of
      the sixth node pointed at the fifth: a cycle, entered at the node
      holding 5. */
  method SevenCycleScenario() returns (cyclic: bool, entranceValue: int)
    ensures cyclic && entranceValue == 5
  {
    var l := new LinkedList.FromArray([1, 2, 3, 4, 5, 6, 7]);
    l.Relink(5, 4);
    assert l.next == SevenRewired;
    SevenEntrance();
    cyclic := HasCycle(l);
    var e := CycleEntrance(l);
    EntranceUnique(l.next, l.head, e, 4);
    entranceValue := l.vals[e];
  }

  /** The getCycleEntrance test on 1, 2, 3 with the last link pointed at
      the head: the entrance is the head, holding 1. */
  method ThreeCycleScenario() returns (cyclic: bool, entranceValue: int)
    ensures cyclic && entranceValue == 1
  {
    var l := new LinkedList.FromArray([1, 2, 3]);
    l.Relink(2, 0);
    assert l.next == ThreeRewired;
    ThreeEntrance();
    cyclic := HasCycle(l);
    var e := CycleEntrance(l);
    EntranceUnique(l.next, l.head, e, 0);
    entranceValue := l.vals[e];
  }
}
