/** The two-stack evaluation of expressions: an operand stack and an
    operator stack, where each operator first applies the stacked operators
    that bind at least as strongly, and the end of the text applies all of
    them. */
module Evaluation {
  import opened Options
  import opened Expressions

  /** 0 when the links have no + or -, else 1: the size of the stacks below
      the current term. */
  function Depth(ls: seq<Link>): nat {
    if LastAdditive(ls) < 0 then 0 else 1
  }

  /** The current term: the literal after the last + or - (or the first
      literal) and the links after it. */
  function TermFirst(first: nat, ls: seq<Link>): nat {
    var p := LastAdditive(ls);
    if p < 0 then first else ls[p].operand
  }

  function TermLinks(ls: seq<Link>): seq<Link> {
    ls[LastAdditive(ls) + 1..]
  }

  /** Below the current term: the value of everything before the last + or
      - and that operator, when there is one. */
  ghost predicate Below(first: nat, ls: seq<Link>, nums: seq<int>, ops: seq<Operator>) {
    var p := LastAdditive(ls);
    if p < 0 then nums == [] && ops == []
    else ExprValue(first, ls[..p]).Ok? && nums == [ExprValue(first, ls[..p]).value] && ops == [ls[p].op]
  }

  /** The stacks for a term: its single literal, or the value of all but
      its last link, the pending operator and the last literal. */
  ghost predicate TermStacked(tf: nat, tl: seq<Link>, nums: seq<int>, ops: seq<Operator>) {
    if tl == [] then nums == [tf] && ops == []
    else
      var last := tl[|tl| - 1];
      TermValue(tf, tl[..|tl| - 1]).Ok? &&
      nums == [TermValue(tf, tl[..|tl| - 1]).value, last.operand] && ops == [last.op]
  }

  /** The stacks after reading the prefix (first, ls), before any reduction. */
  ghost predicate Stacked(first: nat, ls: seq<Link>, nums: seq<int>, ops: seq<Operator>) {
    var d := Depth(ls);
    |nums| >= d && |ops| >= d && Below(first, ls, nums[..d], ops[..d]) &&
    TermStacked(TermFirst(first, ls), TermLinks(ls), nums[d..], ops[d..])
  }

  /** The stacks once the current term is reduced to its value. */
  ghost predicate TermReduced(first: nat, ls: seq<Link>, nums: seq<int>, ops: seq<Operator>) {
    var d := Depth(ls);
    var t := TermValue(TermFirst(first, ls), TermLinks(ls));
    |nums| >= d && |ops| >= d && Below(first, ls, nums[..d], ops[..d]) &&
    t.Ok? && nums[d..] == [t.value] && ops[d..] == []
  }

  /** The stacks once the whole prefix is reduced to its value. */
  ghost predicate FullyReduced(first: nat, ls: seq<Link>, nums: seq<int>, ops: seq<Operator>) {
    ExprValue(first, ls).Ok? && nums == [ExprValue(first, ls).value] && ops == []
  }

  ghost predicate Reducing(first: nat, ls: seq<Link>, nums: seq<int>, ops: seq<Operator>, level: nat) {
    Stacked(first, ls, nums, ops) || TermReduced(first, ls, nums, ops) ||
    (level == 1 && FullyReduced(first, ls, nums, ops))
  }

  /** The two stacks, each listed bottom to top. */
  datatype Stacks = Stacks(nums: seq<int>, ops: seq<Operator>)

  /** One pair of stacks on top of the other; None if either is. */
  function Join(a: Option<Stacks>, b: Option<Stacks>): (r: Option<Stacks>)
    ensures r.Some? <==> a.Some? && b.Some?
  {
    if a.Some? && b.Some? then Some(Stacks(a.value.nums + b.value.nums, a.value.ops + b.value.ops))
    else None
  }

  /** What lies below the current term; None if the prefix before the last
      + or - fails. */
  function BelowStacks(first: nat, ls: seq<Link>): Option<Stacks> {
    var p := LastAdditive(ls);
    if p < 0 then Some(Stacks([], []))
    else
      match ExprValue(first, ls[..p])
      case Ok(a) => Some(Stacks([a], [ls[p].op]))
      case Err(_) => None
  }

  /** The stacks of a term before any reduction; None if all but its last
      link fail. */
  function TermStacks(tf: nat, tl: seq<Link>): Option<Stacks> {
    if tl == [] then Some(Stacks([tf], []))
    else
      var last := tl[|tl| - 1];
      match TermValue(tf, tl[..|tl| - 1])
      case Ok(b) => Some(Stacks([b, last.operand], [last.op]))
      case Err(_) => None
  }

  /** The stacks after reading the prefix (first, ls), before any reduction. */
  function Pending(first: nat, ls: seq<Link>): Option<Stacks> {
    Join(BelowStacks(first, ls), TermStacks(TermFirst(first, ls), TermLinks(ls)))
  }

  /** The stacks once the prefix is reduced as far as level asks: the current
      term for level 2, everything for level 1. */
  function Reduced(first: nat, ls: seq<Link>, level: nat): Option<Stacks> {
    if level == 2 then
      Join(BelowStacks(first, ls),
           match TermValue(TermFirst(first, ls), TermLinks(ls))
           case Ok(t) => Some(Stacks([t], []))
           case Err(_) => None)
    else
      match ExprValue(first, ls)
      case Ok(v) => Some(Stacks([v], []))
      case Err(_) => None
  }

  lemma BelowStacksAre(first: nat, ls: seq<Link>, nums: seq<int>, ops: seq<Operator>)
    ensures BelowStacks(first, ls) == Some(Stacks(nums, ops)) <==> Below(first, ls, nums, ops)
    ensures BelowStacks(first, ls).Some? ==>
      |BelowStacks(first, ls).value.nums| == Depth(ls) && |BelowStacks(first, ls).value.ops| == Depth(ls)
  {
  }

  /** Joined stacks split back at the height of the lower pair. */
  lemma JoinAt(a: Option<Stacks>, b: Option<Stacks>, nums: seq<int>, ops: seq<Operator>, d: nat)
    requires a.Some? ==> |a.value.nums| == d && |a.value.ops| == d
    ensures Join(a, b) == Some(Stacks(nums, ops)) <==>
      |nums| >= d && |ops| >= d && a == Some(Stacks(nums[..d], ops[..d])) && b == Some(Stacks(nums[d..], ops[d..]))
  {
    if Join(a, b) == Some(Stacks(nums, ops)) {
      assert nums[..d] == a.value.nums && nums[d..] == b.value.nums;
      assert ops[..d] == a.value.ops && ops[d..] == b.value.ops;
    }
    if |nums| >= d && |ops| >= d && a == Some(Stacks(nums[..d], ops[..d])) && b == Some(Stacks(nums[d..], ops[d..])) {
      assert nums[..d] + nums[d..] == nums && ops[..d] + ops[d..] == ops;
    }
  }

  /** The pending stacks are the ones the stacked predicate describes. */
  lemma PendingStacked(first: nat, ls: seq<Link>, nums: seq<int>, ops: seq<Operator>)
    ensures Pending(first, ls) == Some(Stacks(nums, ops)) <==> Stacked(first, ls, nums, ops)
  {
    var d := Depth(ls);
    if |nums| >= d && |ops| >= d {
      BelowStacksAre(first, ls, nums[..d], ops[..d]);
    }
    JoinAt(BelowStacks(first, ls), TermStacks(TermFirst(first, ls), TermLinks(ls)), nums, ops, d);
  }

  /** The reduced stacks are the ones the reduced predicates describe. */
  lemma ReducedAre(first: nat, ls: seq<Link>, nums: seq<int>, ops: seq<Operator>, level: nat)
    requires level == 1 || level == 2
    ensures Reduced(first, ls, level) == Some(Stacks(nums, ops)) <==>
      if level == 2 then TermReduced(first, ls, nums, ops) else FullyReduced(first, ls, nums, ops)
  {
    if level == 2 {
      var d := Depth(ls);
      if |nums| >= d && |ops| >= d {
        BelowStacksAre(first, ls, nums[..d], ops[..d]);
      }
      var t := TermValue(TermFirst(first, ls), TermLinks(ls));
      JoinAt(BelowStacks(first, ls), if t.Ok? then Some(Stacks([t.value], [])) else None, nums, ops, d);
    }
  }

  /** The current term takes its value from the stacked pending operation. */
  lemma ReduceTerm(first: nat, ls: seq<Link>, nums: seq<int>, ops: seq<Operator>)
    requires Stacked(first, ls, nums, ops) && TermLinks(ls) != []
    ensures |nums| >= 2 && ops != []
    ensures var r := Apply(nums[|nums| - 2], ops[|ops| - 1], nums[|nums| - 1]);
      r == TermValue(TermFirst(first, ls), TermLinks(ls)) &&
      (r.Err? ==> DividesByZero(ls)) &&
      (r.Ok? ==> TermReduced(first, ls, nums[..|nums| - 2] + [r.value], ops[..|ops| - 1]))
  {
    var d := Depth(ls);
    var tl := TermLinks(ls);
    var p := LastAdditive(ls);
    var r := Apply(nums[|nums| - 2], ops[|ops| - 1], nums[|nums| - 1]);
    if r.Err? {
      TermFails(TermFirst(first, ls), tl);
      var j :| ZeroAt(tl, j);
      assert ZeroAt(ls, j + p + 1);
    } else {
      var nums' := nums[..|nums| - 2] + [r.value];
      assert nums'[..d] == nums[..d];
      assert ops[..|ops| - 1][..d] == ops[..d];
    }
  }

  /** The expression takes its value from the stacked + or -. */
  lemma ReduceSum(first: nat, ls: seq<Link>, nums: seq<int>, ops: seq<Operator>)
    requires TermReduced(first, ls, nums, ops) && Depth(ls) == 1
    ensures |nums| == 2 && |ops| == 1
    ensures Apply(nums[0], ops[0], nums[1]) == ExprValue(first, ls)
    ensures ExprValue(first, ls).Ok?
  {
    assert nums == nums[..1] + nums[1..];
    assert ops == ops[..1] + ops[1..];
  }

  /** One reduction: the top operator applied to the two top operands is a
      step of the evaluation of the prefix, and fails only if the prefix
      divides by zero. */
  lemma ReduceStep(first: nat, ls: seq<Link>, nums: seq<int>, ops: seq<Operator>, level: nat)
    requires level == 1 || level == 2
    requires Reducing(first, ls, nums, ops, level)
    requires ops != [] && Prec(ops[|ops| - 1]) >= level
    ensures |nums| >= 2
    ensures var r := Apply(nums[|nums| - 2], ops[|ops| - 1], nums[|nums| - 1]);
      (r.Err? ==> DividesByZero(ls)) &&
      (r.Ok? ==> Reducing(first, ls, nums[..|nums| - 2] + [r.value], ops[..|ops| - 1], level))
  {
    if Stacked(first, ls, nums, ops) && TermLinks(ls) != [] {
      ReduceTerm(first, ls, nums, ops);
    } else {
      var d := Depth(ls);
      if Stacked(first, ls, nums, ops) {
        assert TermReduced(first, ls, nums, ops);
      }
      assert d == 1;
      ReduceSum(first, ls, nums, ops);
      assert level == 1 by {
        assert ops[0] == ls[LastAdditive(ls)].op;
      }
    }
  }

  /** When no reduction applies any more, the stacks are reduced as far as
      the level asks: the current term before a * / or %, everything before
      a + or - and at the end of the text. */
  lemma ReduceDone(first: nat, ls: seq<Link>, nums: seq<int>, ops: seq<Operator>, level: nat)
    requires level == 1 || level == 2
    requires Reducing(first, ls, nums, ops, level)
    requires ops == [] || Prec(ops[|ops| - 1]) < level
    ensures level == 2 ==> TermReduced(first, ls, nums, ops)
    ensures level == 1 ==> FullyReduced(first, ls, nums, ops)
  {
    var d := Depth(ls);
    var tl := TermLinks(ls);
    if Stacked(first, ls, nums, ops) && tl != [] {
      assert false;
    }
    if level == 1 && TermReduced(first, ls, nums, ops) {
      assert d == 0;
      assert ls[0..] == ls;
    }
  }

  /** The last + or - of a longer prefix. */
  lemma LastAdditiveSnoc(ls: seq<Link>, l: Link)
    ensures LastAdditive(ls + [l]) == if Additive(l.op) then |ls| else LastAdditive(ls)
  {
    assert (ls + [l])[..|ls|] == ls;
  }

  /** A * / or % link leaves what lies below the current term as it was. */
  lemma BelowSnoc(first: nat, ls: seq<Link>, l: Link, nums: seq<int>, ops: seq<Operator>)
    requires !Additive(l.op)
    ensures Below(first, ls + [l], nums, ops) == Below(first, ls, nums, ops)
    ensures TermFirst(first, ls + [l]) == TermFirst(first, ls)
    ensures TermLinks(ls + [l]) == TermLinks(ls) + [l]
    ensures Depth(ls + [l]) == Depth(ls)
  {
    var ls' := ls + [l];
    LastAdditiveSnoc(ls, l);
    var p := LastAdditive(ls);
    if p >= 0 {
      assert ls'[..p] == ls[..p];
      assert ls'[p] == ls[p];
    }
  }

  /** Pushing a + or - and the next literal onto fully reduced stacks gives
      the stacks of the longer prefix. */
  lemma PushAdditive(first: nat, ls: seq<Link>, nums: seq<int>, ops: seq<Operator>, o: Operator, n: nat)
    requires Additive(o) && FullyReduced(first, ls, nums, ops)
    ensures Stacked(first, ls + [Link(o, n)], nums + [n], ops + [o])
  {
    var ls' := ls + [Link(o, n)];
    LastAdditiveSnoc(ls, Link(o, n));
    assert ls'[..|ls|] == ls;
    assert Below(first, ls', (nums + [n])[..1], (ops + [o])[..1]);
    assert TermLinks(ls') == [];
    assert (nums + [n])[1..] == [n] && (ops + [o])[1..] == [];
  }

  /** Pushing a * / or % and the next literal onto stacks whose current term
      is reduced gives the stacks of the longer prefix. */
  lemma PushMultiplicative(first: nat, ls: seq<Link>, nums: seq<int>, ops: seq<Operator>, o: Operator, n: nat)
    requires !Additive(o) && TermReduced(first, ls, nums, ops)
    ensures Stacked(first, ls + [Link(o, n)], nums + [n], ops + [o])
  {
    var l := Link(o, n);
    var d := Depth(ls);
    BelowSnoc(first, ls, l, nums[..d], ops[..d]);
    var tl := TermLinks(ls) + [l];
    assert tl[..|tl| - 1] == TermLinks(ls);
    assert (nums + [n])[..d] == nums[..d] && (ops + [o])[..d] == ops[..d];
    assert (nums + [n])[d..] == nums[d..] + [n] && (ops + [o])[d..] == ops[d..] + [o];
  }

  /** Applies the operators on top of the stacks while they bind at least
      as strongly as level. */
  method Reduce(ghost first: nat, ghost ls: seq<Link>, nums0: seq<int>, ops0: seq<Operator>, level: nat)
    returns (nums: seq<int>, ops: seq<Operator>, failed: bool)
    requires level == 1 || level == 2
    requires Pending(first, ls) == Some(Stacks(nums0, ops0))
    ensures failed ==> DividesByZero(ls)
    ensures !failed ==> Reduced(first, ls, level) == Some(Stacks(nums, ops))
  {
    PendingStacked(first, ls, nums0, ops0);
    nums, ops := nums0, ops0;
    while ops != [] && Prec(ops[|ops| - 1]) >= level
      invariant Reducing(first, ls, nums, ops, level)
      decreases |ops|
    {
      ReduceStep(first, ls, nums, ops, level);
      var r := Apply(nums[|nums| - 2], ops[|ops| - 1], nums[|nums| - 1]);
      if r.Err? {
        return nums, ops, true;
      }
      nums, ops := nums[..|nums| - 2] + [r.value], ops[..|ops| - 1];
    }
    ReduceDone(first, ls, nums, ops, level);
    ReducedAre(first, ls, nums, ops, level);
    failed := false;
  }

  /** Evaluates the text with an operand stack and an operator stack: each
      operator first applies the stacked operators that bind at least as
      strongly, and the end of the text applies all of them. */
  method ExpEvaluationSeq(s: string) returns (v: int, err: Option<Failure>)
    ensures Evaluate(s) == if err == None then Ok(v) else Err(err.value)
    ensures err != None ==> v == 0
  {
    if s == [] {
      return 0, None;
    }
    var tokens := Tokenize(s);
    if tokens == None || Parse(tokens.value) == None {
      return 0, Some(InvalidExp);
    }
    EvaluateParsed(s);
    v, err := EvaluateStacks(Parse(tokens.value).value);
  }

  /** The two-stack evaluation of a chain. */
  method EvaluateStacks(e: Chain) returns (v: int, err: Option<Failure>)
    ensures ExprValue(e.first, e.links) == if err == None then Ok(v) else Err(err.value)
    ensures err != None ==> v == 0
  {
    ExprFails(e.first, e.links);
    var nums, ops, failed := Shift(e.first, e.links);
    if !failed {
      nums, ops, failed := Reduce(e.first, e.links, nums, ops, 1);
    }
    if failed {
      return 0, Some(DivisionByZero);
    }
    v, err := nums[0], None;
  }

  /** Reads the links one by one: before each operator, applies the stacked
      operators that bind at least as strongly, then pushes the operator and
      its literal. */
  method Shift(first: nat, ls: seq<Link>) returns (nums: seq<int>, ops: seq<Operator>, failed: bool)
    ensures failed ==> DividesByZero(ls)
    ensures !failed ==> Pending(first, ls) == Some(Stacks(nums, ops))
  {
    nums, ops := [first], [];
    PendingStart(first, ls);
    for i := 0 to |ls|
      invariant Pending(first, ls[..i]) == Some(Stacks(nums, ops))
    {
      var l := ls[i];
      nums, ops, failed := Reduce(first, ls[..i], nums, ops, Prec(l.op));
      if failed {
        ZeroPrefix(ls, i);
        assert DividesByZero(ls);
        return;
      }
      PushNext(first, ls, i, nums, ops);
      nums, ops := nums + [l.operand], ops + [l.op];
    }
    PendingWhole(first, ls, nums, ops);
    failed := false;
  }

  /** The stacks before any link: the first literal alone. */
  lemma PendingStart(first: nat, ls: seq<Link>)
    ensures Pending(first, ls[..0]) == Some(Stacks([first], []))
  {
    assert ls[..0] == [];
    PendingEmpty(first);
  }

  lemma PendingEmpty(first: nat)
    ensures Pending(first, []) == Some(Stacks([first], []))
  {
    var noNums: seq<int>, noOps: seq<Operator> := [], [];
    assert noNums + [first] == [first] && noOps + noOps == noOps;
  }

  lemma PendingWhole(first: nat, ls: seq<Link>, nums: seq<int>, ops: seq<Operator>)
    requires Pending(first, ls[..|ls|]) == Some(Stacks(nums, ops))
    ensures Pending(first, ls) == Some(Stacks(nums, ops))
  {
    assert ls[..|ls|] == ls;
  }

  /** Pushing link i once the stacks are reduced as its operator asks gives
      the stacks of the prefix that ends with it. */
  lemma PushNext(first: nat, ls: seq<Link>, i: nat, nums: seq<int>, ops: seq<Operator>)
    requires i < |ls|
    requires Reduced(first, ls[..i], Prec(ls[i].op)) == Some(Stacks(nums, ops))
    ensures Pending(first, ls[..i + 1]) == Some(Stacks(nums + [ls[i].operand], ops + [ls[i].op]))
  {
    assert ls[..i + 1] == ls[..i] + [Link(ls[i].op, ls[i].operand)];
    ReducedAre(first, ls[..i], nums, ops, Prec(ls[i].op));
    PendingStacked(first, ls[..i + 1], nums + [ls[i].operand], ops + [ls[i].op]);
    if Additive(ls[i].op) {
      PushAdditive(first, ls[..i], nums, ops, ls[i].op, ls[i].operand);
    } else {
      PushMultiplicative(first, ls[..i], nums, ops, ls[i].op, ls[i].operand);
    }
  }

  lemma ZeroPrefix(ls: seq<Link>, k: nat)
    requires k <= |ls| && DividesByZero(ls[..k])
    ensures DividesByZero(ls)
  {
    var j :| ZeroAt(ls[..k], j);
    assert ZeroAt(ls, j);
  }
}
