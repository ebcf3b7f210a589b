/** The two stacks of the stack package. A SequentialStack keeps its items in
    a buffer whose size is fixed when the stack is made and ignores a Push
    once the buffer is full; a ChainStack links one node per item and has no
    bound. Contents are listed bottom to top, as Equal compares them. */
module Stacks {
  import opened Options

  /** One entry of an op list: an op named "Push" pushes its value, any
      other op pops (and ignores the value). */
  datatype StackOp = StackOp(op: string, val: int)

  /** The contents after a Push of v; with a bound, a full stack is left as it is. */
  function Pushed(c: seq<int>, bound: Option<nat>, v: int): (c': seq<int>) {
    if bound.Some? && |c| >= bound.value then c else c + [v]
  }

  /** The contents after a Pop; popping an empty stack leaves it empty. */
  function Popped(c: seq<int>): (c': seq<int>) {
    if c == [] then [] else c[..|c| - 1]
  }

  function Step(c: seq<int>, bound: Option<nat>, o: StackOp): (c': seq<int>) {
    if o.op == "Push" then Pushed(c, bound, o.val) else Popped(c)
  }

  /** The contents after replaying ops, in order, from contents c. */
  function Replay(c: seq<int>, bound: Option<nat>, ops: seq<StackOp>): (c': seq<int>)
    decreases |ops|
  {
    if ops == [] then c else Step(Replay(c, bound, ops[..|ops| - 1]), bound, ops[|ops| - 1])
  }

  /** A bounded stack never holds more than its bound. */
  lemma {:induction false} ReplayWithinBound(c: seq<int>, cap: nat, ops: seq<StackOp>)
    requires |c| <= cap
    ensures |Replay(c, Some(cap), ops)| <= cap
    decreases |ops|
  {
    if ops != [] {
      ReplayWithinBound(c, cap, ops[..|ops| - 1]);
    }
  }

  /** Replaying two op lists one after the other is replaying their concatenation. */
  lemma {:induction false} ReplayConcat(c: seq<int>, bound: Option<nat>, ops: seq<StackOp>, more: seq<StackOp>)
    ensures Replay(c, bound, ops + more) == Replay(Replay(c, bound, ops), bound, more)
    decreases |more|
  {
    if more == [] {
      assert ops + more == ops;
    } else {
      assert (ops + more)[..|ops + more| - 1] == ops + more[..|more| - 1];
      ReplayConcat(c, bound, ops, more[..|more| - 1]);
    }
  }

  /** Last in, first out: a Push with room to spare followed by a Pop
      restores the contents. */
  lemma PushThenPop(c: seq<int>, bound: Option<nat>, v: int)
    requires bound.None? || |c| < bound.value
    ensures Popped(Pushed(c, bound, v)) == c
    ensures Pushed(c, bound, v)[|c|] == v
  {
    assert (c + [v])[..|c|] == c;
  }

  /** Without a bound, pushing the values of xs one by one puts them on top
      in order. */
  lemma {:induction false} ReplayPushes(c: seq<int>, xs: seq<int>)
    ensures Replay(c, None, seq(|xs|, i requires 0 <= i < |xs| => StackOp("Push", xs[i]))) == c + xs
    decreases |xs|
  {
    var ops := seq(|xs|, i requires 0 <= i < |xs| => StackOp("Push", xs[i]));
    if xs == [] {
      assert ops == [];
    } else {
      var init := xs[..|xs| - 1];
      var front := seq(|init|, i requires 0 <= i < |init| => StackOp("Push", init[i]));
      assert ops[..|ops| - 1] == front;
      ReplayPushes(c, init);
      assert c + init + [xs[|xs| - 1]] == c + xs;
    }
  }

  /** The op tables replayed on a stack of capacity 2: no ops; two pushes;
      a third push on the full stack, which is ignored; and pops of an
      empty stack, which do not disturb later pushes. */
  lemma CapacityTwoTable()
    ensures Replay([], Some(2), []) == []
    ensures Replay([], Some(2), [StackOp("Push", 1), StackOp("Push", 2)]) == [1, 2]
    ensures Replay([], Some(2), [StackOp("Push", 1), StackOp("Push", 2), StackOp("Push", 3)]) == [1, 2]
    ensures Replay([], Some(2), [StackOp("Push", 1), StackOp("Pop", 0), StackOp("Pop", 0), StackOp("Push", 2), StackOp("Push", 3)]) == [2, 3]
  {
    var ops := [StackOp("Push", 1), StackOp("Push", 2), StackOp("Push", 3)];
    assert ops[..2] == [StackOp("Push", 1), StackOp("Push", 2)];
    assert ops[..2][..1] == [StackOp("Push", 1)];
    var ops4 := [StackOp("Push", 1), StackOp("Pop", 0), StackOp("Pop", 0), StackOp("Push", 2), StackOp("Push", 3)];
    assert ops4[..1] == [StackOp("Push", 1)];
    assert ops4[..2] == [StackOp("Push", 1), StackOp("Pop", 0)];
    assert ops4[..3] == [StackOp("Push", 1), StackOp("Pop", 0), StackOp("Pop", 0)];
    assert ops4[..4] == ops4[..3] + [StackOp("Push", 2)];
    assert ops4[..2][..1] == ops4[..1] && ops4[..3][..2] == ops4[..2] && ops4[..4][..3] == ops4[..3];
    assert Replay([], Some(2), ops4[..1]) == [1];
    assert Replay([], Some(2), ops4[..2]) == [];
    assert Replay([], Some(2), ops4[..3]) == [];
    assert Replay([], Some(2), ops4[..4]) == [2];
  }

  /** A stack whose items live in a buffer allocated once. A stack made with
      a negative capacity has no buffer at all (a nil slice), which Equal can
      tell apart from an empty one. */
  class SequentialStack {
    var data: array<int>
    var count: nat
    const isNil: bool

    ghost predicate Valid()
      reads this
    {
      count <= data.Length && (isNil ==> data.Length == 0)
    }

    /** The items, bottom to top. */
    ghost function Contents(): seq<int>
      reads this, data
      requires Valid()
    {
      data[..count]
    }

    function Capacity(): nat
      reads this
    {
      data.Length
    }

    constructor (cap: int)
      ensures Valid() && fresh(data)
      ensures Contents() == []
      ensures isNil <==> cap < 0
      ensures Capacity() == if cap < 0 then 0 else cap
    {
      data := new int[if cap < 0 then 0 else cap];
      count := 0;
      isNil := cap < 0;
    }

    method Push(v: int)
      requires Valid()
      modifies this, data
      ensures Valid() && data == old(data)
      ensures Contents() == Pushed(old(Contents()), Some(Capacity()), v)
    {
      if count < data.Length {
        data[count] := v;
        count := count + 1;
      }
    }

    method Pop() returns (v: int, ok: bool)
      requires Valid()
      modifies this
      ensures Valid() && data == old(data)
      ensures Contents() == Popped(old(Contents()))
      ensures ok <==> old(Contents()) != []
      ensures v == if ok then old(Contents())[|old(Contents())| - 1] else 0
    {
      if count == 0 {
        return 0, false;
      }
      count := count - 1;
      v, ok := data[count], true;
    }

    method Count() returns (n: nat)
      requires Valid()
      ensures n == |Contents()|
    {
      n := count;
    }

    /** The stack equals a nil comparison exactly when it has no buffer, and
        equals a present slice exactly when its contents are those items in
        the same order. */
    method Equal(compare: Option<seq<int>>) returns (eq: bool)
      requires Valid()
      ensures eq <==> if isNil then compare == None else compare == Some(Contents())
    {
      if isNil || compare == None {
        return isNil && compare == None;
      }
      var c := compare.value;
      if |c| != count {
        return false;
      }
      var i := 0;
      while i < count
        invariant i <= count
        invariant c[..i] == data[..i]
      {
        if data[i] != c[i] {
          return false;
        }
        i := i + 1;
      }
      assert c == c[..i];
      return true;
    }
  }

  /** Replays ops on s, as the tables do. */
  method ReplaySequential(s: SequentialStack, ops: seq<StackOp>)
    requires s.Valid()
    modifies s, s.data
    ensures s.Valid() && s.data == old(s.data)
    ensures s.Contents() == Replay(old(s.Contents()), Some(s.Capacity()), ops)
  {
    ghost var c0 := s.Contents();
    for i := 0 to |ops|
      invariant s.Valid() && s.data == old(s.data)
      invariant s.Contents() == Replay(c0, Some(s.Capacity()), ops[..i])
    {
      assert ops[..i + 1][..i] == ops[..i];
      if ops[i].op == "Push" {
        s.Push(ops[i].val);
      } else {
        var _, _ := s.Pop();
      }
    }
    assert ops[..|ops|] == ops;
  }

  /** One node of a chain stack. Nodes never change once made; content is
      the items from the bottom of the stack up to this node. */
  class Node {
    const val: int
    const next: Node?
    ghost const content: seq<int>
    ghost const depth: nat

    ghost predicate Valid()
      decreases depth
    {
      (next == null ==> content == [val] && depth == 0) &&
      (next != null ==> content == next.content + [val] && next.depth < depth && next.Valid())
    }

    constructor (v: int, below: Node?)
      requires below != null ==> below.Valid()
      ensures Valid() && val == v && next == below
      ensures content == (if below == null then [] else below.content) + [v]
    {
      val := v;
      next := below;
      content := (if below == null then [] else below.content) + [v];
      depth := if below == null then 0 else below.depth + 1;
    }
  }

  /** A stack of linked nodes with no capacity limit. */
  class ChainStack {
    var top: Node?
    var count: nat

    ghost predicate Valid()
      reads this
    {
      top != null ==> top.Valid()
    }

    /** The items, bottom to top. */
    ghost function Contents(): seq<int>
      reads this
    {
      if top == null then [] else top.content
    }

    constructor ()
      ensures Valid() && Contents() == [] && count == 0
    {
      top := null;
      count := 0;
    }

    ghost predicate Counted()
      reads this
    {
      Valid() && count == |Contents()|
    }

    method Push(v: int)
      requires Counted()
      modifies this
      ensures Counted()
      ensures Contents() == Pushed(old(Contents()), None, v)
    {
      top := new Node(v, top);
      count := count + 1;
    }

    method Pop() returns (v: int, ok: bool)
      requires Counted()
      modifies this
      ensures Counted()
      ensures Contents() == Popped(old(Contents()))
      ensures ok <==> old(Contents()) != []
      ensures v == if ok then old(Contents())[|old(Contents())| - 1] else 0
    {
      if top == null {
        return 0, false;
      }
      v, ok := top.val, true;
      top := top.next;
      count := count - 1;
    }

    method Count() returns (n: nat)
      requires Counted()
      ensures n == |Contents()|
    {
      n := count;
    }
  }

  /** Replays ops on s; the chain stack follows the unbounded replay. */
  method ReplayChain(s: ChainStack, ops: seq<StackOp>)
    requires s.Counted()
    modifies s
    ensures s.Counted()
    ensures s.Contents() == Replay(old(s.Contents()), None, ops)
  {
    ghost var c0 := s.Contents();
    for i := 0 to |ops|
      invariant s.Counted()
      invariant s.Contents() == Replay(c0, None, ops[..i])
    {
      assert ops[..i + 1][..i] == ops[..i];
      if ops[i].op == "Push" {
        s.Push(ops[i].val);
      } else {
        var _, _ := s.Pop();
      }
    }
    assert ops[..|ops|] == ops;
  }

  /** The comparisons of the equality tables: a stack made with capacity -1
      equals nil but not an empty slice; an empty stack of capacity 1 does
      not equal nil; after pushing 1 then 2 on a stack of capacity 2 the
      stack equals [1, 2] only. */
  method SequentialEqualTable() returns (e1: bool, e2: bool, e3: bool, e4: bool, e5: bool, e6: bool)
    ensures e1 && !e2 && !e3 && !e4 && !e5 && e6
  {
    var s := new SequentialStack(-1);
    e1 := s.Equal(None);
    e2 := s.Equal(Some([]));
    var t := new SequentialStack(1);
    e3 := t.Equal(None);
    var u := new SequentialStack(2);
    var ops := [StackOp("Push", 1), StackOp("Push", 2)];
    ReplaySequential(u, ops);
    assert ops[..1] == [StackOp("Push", 1)];
    assert Replay([], Some(2), ops[..1]) == [1];
    assert u.Contents() == [1, 2];
    e4 := u.Equal(Some([2]));
    e5 := u.Equal(Some([2, 1]));
    e6 := u.Equal(Some([1, 2]));
  }

  /** The sequential-stack session: on a stack of capacity 3, push 1 and 2,
      then pop three times, the last time from an empty stack; then push 10
      and 2, pop, push 3, pop, and pop once more. */
  method SequentialSession() returns (counts: seq<nat>, pops: seq<(int, bool)>)
    ensures counts == [2, 1, 0, 0, 1, 0]
    ensures pops == [(2, true), (1, true), (0, false), (10, true)]
  {
    var s := new SequentialStack(3);
    s.Push(1);
    s.Push(2);
    var c1, v1, ok1, c2, v2, ok2, c3, v3, ok3, c4 := SequentialDrain(s);
    s.Push(10);
    s.Push(2);
    assert s.Contents() == [10, 2];
    var _, _ := s.Pop();
    s.Push(3);
    assert s.Contents() == [10, 3];
    var _, _ := s.Pop();
    assert s.Contents() == [10];
    var c5 := s.Count();
    var v4, ok4 := s.Pop();
    var c6 := s.Count();
    counts := [c1, c2, c3, c4, c5, c6];
    pops := [(v1, ok1), (v2, ok2), (v3, ok3), (v4, ok4)];
  }

  /** The first part of the session: counting and popping a stack that
      holds 1 and 2 until it is empty, and once more. */
  method SequentialDrain(s: SequentialStack) returns (c1: nat, v1: int, ok1: bool, c2: nat, v2: int, ok2: bool, c3: nat, v3: int, ok3: bool, c4: nat)
    requires s.Valid() && s.Contents() == [1, 2]
    modifies s
    ensures s.Valid() && s.data == old(s.data) && s.Contents() == []
    ensures c1 == 2 && v1 == 2 && ok1 && c2 == 1 && v2 == 1 && ok2 && c3 == 0 && v3 == 0 && !ok3 && c4 == 0
  {
    c1 := s.Count();
    v1, ok1 := s.Pop();
    c2 := s.Count();
    assert s.Contents() == [1];
    v2, ok2 := s.Pop();
    c3 := s.Count();
    assert s.Contents() == [];
    v3, ok3 := s.Pop();
    c4 := s.Count();
  }

  /** The same session on a chain stack gives the same counts and pops. */
  method ChainSession() returns (counts: seq<nat>, pops: seq<(int, bool)>)
    ensures counts == [2, 1, 0, 0, 1, 0]
    ensures pops == [(2, true), (1, true), (0, false), (10, true)]
  {
    var s := new ChainStack();
    s.Push(1);
    s.Push(2);
    var c1, v1, ok1, c2, v2, ok2, c3, v3, ok3, c4 := ChainDrain(s);
    s.Push(10);
    s.Push(2);
    assert s.Contents() == [10, 2];
    var _, _ := s.Pop();
    s.Push(3);
    assert s.Contents() == [10, 3];
    var _, _ := s.Pop();
    assert s.Contents() == [10];
    var c5 := s.Count();
    var v4, ok4 := s.Pop();
    var c6 := s.Count();
    counts := [c1, c2, c3, c4, c5, c6];
    pops := [(v1, ok1), (v2, ok2), (v3, ok3), (v4, ok4)];
  }

  /** The first part of the session: counting and popping a stack that
      holds 1 and 2 until it is empty, and once more. */
  method ChainDrain(s: ChainStack) returns (c1: nat, v1: int, ok1: bool, c2: nat, v2: int, ok2: bool, c3: nat, v3: int, ok3: bool, c4: nat)
    requires s.Counted() && s.Contents() == [1, 2]
    modifies s
    ensures s.Counted() && s.Contents() == []
    ensures c1 == 2 && v1 == 2 && ok1 && c2 == 1 && v2 == 1 && ok2 && c3 == 0 && v3 == 0 && !ok3 && c4 == 0
  {
    c1 := s.Count();
    v1, ok1 := s.Pop();
    c2 := s.Count();
    assert s.Contents() == [1];
    v2, ok2 := s.Pop();
    c3 := s.Count();
    assert s.Contents() == [];
    v3, ok3 := s.Pop();
    c4 := s.Count();
  }
}
