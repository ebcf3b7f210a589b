/** Integer infix expressions over non-negative decimal literals and the
    operators + - * / %, where * / % bind tighter than + - and operators of
    equal strength group to the left. The empty text evaluates to 0. Text
    holding any other character, or not of the form literal, operator,
    literal, ..., literal, is an invalid expression; a / or % whose right
    operand is 0 is a division by zero. */
module Expressions {
  import opened Options
  import opened Rendering

  datatype Operator = Plus | Minus | Times | Quotient | Remainder

  predicate Additive(o: Operator) {
    o == Plus || o == Minus
  }

  /** Binding strength: 1 for + and -, 2 for * / and %. */
  function Prec(o: Operator): nat {
    if Additive(o) then 1 else 2
  }

  function OperatorOf(c: char): Option<Operator> {
    if c == '+' then Some(Plus)
    else if c == '-' then Some(Minus)
    else if c == '*' then Some(Times)
    else if c == '/' then Some(Quotient)
    else if c == '%' then Some(Remainder)
    else None
  }

  function Symbol(o: Operator): (c: char)
    ensures OperatorOf(c) == Some(o)
  {
    match o
    case Plus => '+'
    case Minus => '-'
    case Times => '*'
    case Quotient => '/'
    case Remainder => '%'
  }

  datatype Token = Num(n: nat) | Op(op: Operator)

  /** Splits text into literals (maximal digit runs) and operators; None at
      any other character. */
  function Tokenize(s: string): (ts: Option<seq<Token>>)
    decreases |s|
  {
    if s == [] then Some([])
    else if IsDigit(s[0]) then
      var k := DigitSpan(s);
      match Tokenize(s[k..])
      case None => None
      case Some(rest) => Some([Num(DigitsValue(s[..k]))] + rest)
    else
      match OperatorOf(s[0])
      case None => None
      case Some(o) =>
        match Tokenize(s[1..])
        case None => None
        case Some(rest) => Some([Op(o)] + rest)
  }

  /** An operator and the literal on its right. */
  datatype Link = Link(op: Operator, operand: nat)

  /** An expression: a first literal, then links. */
  datatype Chain = Chain(first: nat, links: seq<Link>)

  /** Reads tokens of the form operator, literal, ..., operator, literal. */
  function Links(ts: seq<Token>): Option<seq<Link>>
    decreases |ts|
  {
    if ts == [] then Some([])
    else if |ts| >= 2 && ts[0].Op? && ts[1].Num? then
      match Links(ts[2..])
      case None => None
      case Some(rest) => Some([Link(ts[0].op, ts[1].n)] + rest)
    else None
  }

  /** Reads tokens of the form literal, operator, literal, ..., literal. */
  function Parse(ts: seq<Token>): Option<Chain> {
    if ts != [] && ts[0].Num? then
      match Links(ts[1..])
      case None => None
      case Some(ls) => Some(Chain(ts[0].n, ls))
    else None
  }

  function Abs(a: int): nat {
    if a < 0 then -a else a
  }

  /** Integer quotient rounded toward zero. */
  function Quot(a: int, b: int): int
    requires b != 0
  {
    var q := Abs(a) / Abs(b);
    if (a < 0) == (b < 0) then q else -q
  }

  /** Remainder of the quotient rounded toward zero; it has the sign of a. */
  function Rem(a: int, b: int): int
    requires b != 0
  {
    a - b * Quot(a, b)
  }

  datatype Failure = InvalidExp | DivisionByZero

  datatype Result = Ok(value: int) | Err(failure: Failure)

  function Apply(a: int, o: Operator, b: int): Result {
    match o
    case Plus => Ok(a + b)
    case Minus => Ok(a - b)
    case Times => Ok(a * b)
    case Quotient => if b == 0 then Err(DivisionByZero) else Ok(Quot(a, b))
    case Remainder => if b == 0 then Err(DivisionByZero) else Ok(Rem(a, b))
  }

  /** The value of a term: the first literal combined with the links left
      to right. */
  function TermValue(first: nat, ls: seq<Link>): (r: Result)
    decreases |ls|
  {
    if ls == [] then Ok(first)
    else
      match TermValue(first, ls[..|ls| - 1])
      case Err(f) => Err(f)
      case Ok(a) => Apply(a, ls[|ls| - 1].op, ls[|ls| - 1].operand)
  }

  /** The position of the last + or - link, or -1 if there is none. */
  function LastAdditive(ls: seq<Link>): (p: int)
    ensures -1 <= p < |ls|
    ensures p >= 0 ==> Additive(ls[p].op)
    ensures forall j :: p < j < |ls| ==> !Additive(ls[j].op)
    decreases |ls|
  {
    if ls == [] then -1
    else if Additive(ls[|ls| - 1].op) then |ls| - 1
    else LastAdditive(ls[..|ls| - 1])
  }

  /** The value of an expression: the expression before the last + or -
      combined with the term after it; a term alone if there is none. */
  function ExprValue(first: nat, ls: seq<Link>): (r: Result)
    decreases |ls|
  {
    var p := LastAdditive(ls);
    if p < 0 then TermValue(first, ls)
    else
      match ExprValue(first, ls[..p])
      case Err(f) => Err(f)
      case Ok(a) =>
        match TermValue(ls[p].operand, ls[p + 1..])
        case Err(f) => Err(f)
        case Ok(b) => Apply(a, ls[p].op, b)
  }

  /** The result of evaluating a text, as the pair (value, error) is read:
      Ok(v) for (v, nil), Err(f) for (0, f). */
  function Evaluate(s: string): (r: Result) {
    if s == [] then Ok(0)
    else
      match Tokenize(s)
      case None => Err(InvalidExp)
      case Some(ts) =>
        match Parse(ts)
        case None => Err(InvalidExp)
        case Some(e) => ExprValue(e.first, e.links)
  }

  // ----- Division by zero -----

  /** The link at j is a / or % by the literal 0. */
  predicate ZeroAt(ls: seq<Link>, j: int) {
    0 <= j < |ls| && (ls[j].op == Quotient || ls[j].op == Remainder) && ls[j].operand == 0
  }

  ghost predicate DividesByZero(ls: seq<Link>) {
    exists j :: ZeroAt(ls, j)
  }

  lemma ZeroSplit(ls: seq<Link>, k: nat)
    requires k < |ls|
    ensures DividesByZero(ls) <==> DividesByZero(ls[..k]) || ZeroAt(ls, k) || DividesByZero(ls[k + 1..])
  {
    if DividesByZero(ls) {
      var j :| ZeroAt(ls, j);
      if j < k {
        assert ZeroAt(ls[..k], j);
      } else if j > k {
        assert ZeroAt(ls[k + 1..], j - k - 1);
      }
    }
    if DividesByZero(ls[..k]) {
      var j :| ZeroAt(ls[..k], j);
      assert ZeroAt(ls, j);
    }
    if DividesByZero(ls[k + 1..]) {
      var j :| ZeroAt(ls[k + 1..], j);
      assert ZeroAt(ls, j + k + 1);
    }
  }

  /** A term fails exactly when it divides by a literal 0, and then with a
      division by zero. */
  lemma {:induction false} TermFails(first: nat, ls: seq<Link>)
    ensures TermValue(first, ls).Err? <==> DividesByZero(ls)
    ensures TermValue(first, ls).Err? ==> TermValue(first, ls) == Err(DivisionByZero)
    decreases |ls|
  {
    if ls != [] {
      var k := |ls| - 1;
      TermFails(first, ls[..k]);
      ZeroSplit(ls, k);
      assert ls[k + 1..] == [];
    }
  }

  /** An expression fails exactly when it divides by a literal 0, and then
      with a division by zero. */
  lemma {:induction false} ExprFails(first: nat, ls: seq<Link>)
    ensures ExprValue(first, ls).Err? <==> DividesByZero(ls)
    ensures ExprValue(first, ls).Err? ==> ExprValue(first, ls) == Err(DivisionByZero)
    decreases |ls|
  {
    var p := LastAdditive(ls);
    if p < 0 {
      TermFails(first, ls);
    } else {
      ExprFails(first, ls[..p]);
      TermFails(ls[p].operand, ls[p + 1..]);
      ZeroSplit(ls, p);
    }
  }

  /** No + or - among the links. */
  predicate Multiplicative(ls: seq<Link>) {
    forall j :: 0 <= j < |ls| ==> !Additive(ls[j].op)
  }

  /** An expression without + or - is a single term. */
  lemma SingleTerm(first: nat, ms: seq<Link>)
    requires Multiplicative(ms)
    ensures ExprValue(first, ms) == TermValue(first, ms)
  {
    assert LastAdditive(ms) < 0;
  }

  /** An expression whose last + or - is followed by the term (n, ms)
      combines the expression before it with that term. */
  lemma LastTerm(first: nat, ls: seq<Link>, o: Operator, n: nat, ms: seq<Link>)
    requires Additive(o) && Multiplicative(ms)
    ensures ExprValue(first, ls + [Link(o, n)] + ms) ==
      match ExprValue(first, ls)
      case Err(f) => Err(f)
      case Ok(a) =>
        match TermValue(n, ms)
        case Err(f) => Err(f)
        case Ok(b) => Apply(a, o, b)
  {
    var all := ls + [Link(o, n)] + ms;
    var p := LastAdditive(all);
    assert all[|ls|] == Link(o, n);
    assert p == |ls|;
    assert all[..p] == ls && all[p + 1..] == ms;
  }

  /** A term never has a negative value, so its quotients and remainders
      never see a negative operand and rounding toward zero is plain
      division. */
  lemma {:induction false} TermNonNegative(first: nat, ls: seq<Link>)
    requires Multiplicative(ls) && TermValue(first, ls).Ok?
    ensures TermValue(first, ls).value >= 0
    decreases |ls|
  {
    if ls != [] {
      var k := |ls| - 1;
      TermNonNegative(first, ls[..k]);
      var a := TermValue(first, ls[..k]).value;
      var b := ls[k].operand;
      if ls[k].op == Remainder && b != 0 {
        assert Quot(a, b) == a / b;
      }
    }
  }

  // ----- Text, tokens and chains -----

  /** No two literals side by side. */
  predicate Separated(ts: seq<Token>) {
    forall i :: 0 <= i < |ts| - 1 ==> !(ts[i].Num? && ts[i + 1].Num?)
  }

  /** The text of tokens: literals in decimal, operators as their symbol. */
  function Show(ts: seq<Token>): string {
    if ts == [] then "" else TokenText(ts[0]) + Show(ts[1..])
  }

  function TokenText(t: Token): string {
    match t
    case Num(n) => NatToString(n)
    case Op(o) => [Symbol(o)]
  }

  /** Tokenizing the text of separated tokens gives the tokens back. */
  lemma {:induction false} TokenizeShow(ts: seq<Token>)
    requires Separated(ts)
    ensures Tokenize(Show(ts)) == Some(ts)
  {
    if ts != [] {
      var rest := Show(ts[1..]);
      assert Separated(ts[1..]);
      TokenizeShow(ts[1..]);
      match ts[0]
      case Num(n) =>
        assert rest == [] || !IsDigit(rest[0]) by {
          if ts[1..] != [] {
            assert ts[1].Op?;
            assert rest[0] == Symbol(ts[1].op);
          }
        }
        var digits := NatToString(n);
        var s := digits + rest;
        DigitSpanOf(digits, rest);
        NatToStringValue(n);
        assert s[0] == digits[0];
        assert s[..|digits|] == digits && s[|digits|..] == rest;
        assert ts == [Num(n)] + ts[1..];
      case Op(o) =>
        var s := [Symbol(o)] + rest;
        assert s[1..] == rest;
        assert ts == [Op(o)] + ts[1..];
    }
  }

  /** The tokens of a chain. */
  function Spell(e: Chain): seq<Token> {
    [Num(e.first)] + SpellLinks(e.links)
  }

  function SpellLinks(ls: seq<Link>): seq<Token> {
    if ls == [] then [] else [Op(ls[0].op), Num(ls[0].operand)] + SpellLinks(ls[1..])
  }

  /** Parsing the tokens of a chain gives the chain back. */
  lemma {:induction false} LinksSpell(ls: seq<Link>)
    ensures Links(SpellLinks(ls)) == Some(ls)
  {
    if ls != [] {
      var ts := SpellLinks(ls);
      assert ts[2..] == SpellLinks(ls[1..]);
      LinksSpell(ls[1..]);
      assert ls == [ls[0]] + ls[1..];
    }
  }

  lemma ParseSpell(e: Chain)
    ensures Parse(Spell(e)) == Some(e)
  {
    assert Spell(e)[1..] == SpellLinks(e.links);
    LinksSpell(e.links);
  }

  lemma {:induction false} SpellSeparated(ls: seq<Link>)
    ensures |SpellLinks(ls)| == 2 * |ls|
    ensures forall i :: 0 <= i < |SpellLinks(ls)| ==> (SpellLinks(ls)[i].Num? <==> i % 2 == 1)
  {
    if ls != [] {
      SpellSeparated(ls[1..]);
    }
  }

  /** The text of a chain evaluates to the value of the chain. */
  lemma EvaluateChain(e: Chain)
    ensures Evaluate(Show(Spell(e))) == ExprValue(e.first, e.links)
  {
    var ts := Spell(e);
    SpellSeparated(e.links);
    assert Separated(ts) by {
      forall i | 0 <= i < |ts| - 1
        ensures !(ts[i].Num? && ts[i + 1].Num?)
      {
        if i > 0 {
          assert ts[i] == SpellLinks(e.links)[i - 1];
        }
        assert ts[i + 1] == SpellLinks(e.links)[i];
      }
    }
    TokenizeShow(ts);
    ParseSpell(e);
    assert Show(ts) != [] by {
      assert Show(ts) == NatToString(e.first) + Show(ts[1..]);
    }
  }

  /** Text with a character that is neither a digit nor an operator is invalid. */
  lemma {:induction false} StrayCharacter(s: string, i: nat)
    requires i < |s| && !IsDigit(s[i]) && OperatorOf(s[i]) == None
    ensures Tokenize(s) == None
    ensures Evaluate(s) == Err(InvalidExp)
    decreases |s|
  {
    if i > 0 && IsDigit(s[0]) {
      var k := DigitSpan(s);
      assert k <= i;
      assert s[k..][i - k] == s[i];
      StrayCharacter(s[k..], i - k);
    } else if i > 0 {
      assert s[1..][i - 1] == s[i];
      StrayCharacter(s[1..], i - 1);
    }
  }

  /** The tokens of text that ends in an operator end in that operator. */
  lemma {:induction false} TokenizeLast(s: string, ts: seq<Token>)
    requires s != [] && Tokenize(s) == Some(ts) && OperatorOf(s[|s| - 1]).Some?
    ensures ts != [] && ts[|ts| - 1].Op?
    decreases |s|
  {
    if IsDigit(s[0]) {
      var k := DigitSpan(s);
      assert k < |s|;
      assert s[k..][|s[k..]| - 1] == s[|s| - 1];
      TokenizeLast(s[k..], Tokenize(s[k..]).value);
    } else if |s| > 1 {
      assert s[1..][|s[1..]| - 1] == s[|s| - 1];
      TokenizeLast(s[1..], Tokenize(s[1..]).value);
    }
  }

  /** Links end in a literal. */
  lemma {:induction false} LinksLast(ts: seq<Token>)
    requires ts != [] && Links(ts).Some?
    ensures ts[|ts| - 1].Num?
    decreases |ts|
  {
    if |ts| > 2 {
      LinksLast(ts[2..]);
      assert ts[2..][|ts[2..]| - 1] == ts[|ts| - 1];
    }
  }

  /** Text that ends in an operator is invalid. */
  lemma TrailingOperator(s: string)
    requires s != [] && OperatorOf(s[|s| - 1]).Some?
    ensures Evaluate(s) == Err(InvalidExp)
  {
    if Tokenize(s).Some? {
      var ts := Tokenize(s).value;
      TokenizeLast(s, ts);
      if Parse(ts).Some? && |ts| > 1 {
        LinksLast(ts[1..]);
      }
    }
  }

  lemma {:induction false} ShowConcat(a: seq<Token>, b: seq<Token>)
    ensures Show(a + b) == Show(a) + Show(b)
  {
    if a == [] {
      assert a + b == b;
    } else {
      assert (a + b)[0] == a[0] && (a + b)[1..] == a[1..] + b;
      ShowConcat(a[1..], b);
      var head := TokenText(a[0]);
      assert Show(a + b) == head + Show(a[1..] + b);
    }
  }

  lemma {:induction false} SpellLinksSnoc(ls: seq<Link>, l: Link)
    ensures SpellLinks(ls + [l]) == SpellLinks(ls) + [Op(l.op), Num(l.operand)]
  {
    if ls != [] {
      assert (ls + [l])[1..] == ls[1..] + [l];
      SpellLinksSnoc(ls[1..], l);
    }
  }

  /** The text of a chain with one more link is the text of the chain, the
      operator and the literal. */
  lemma ShowSnoc(first: nat, ls: seq<Link>, l: Link)
    ensures Show(Spell(Chain(first, ls + [l]))) == Show(Spell(Chain(first, ls))) + [Symbol(l.op)] + NatToString(l.operand)
  {
    SpellLinksSnoc(ls, l);
    var ts := Spell(Chain(first, ls));
    assert Spell(Chain(first, ls + [l])) == ts + [Op(l.op), Num(l.operand)];
    var tail := [Op(l.op), Num(l.operand)];
    ShowConcat(ts, tail);
    assert tail[1..] == [Num(l.operand)] && tail[1..][1..] == [];
    assert Show([Num(l.operand)]) == NatToString(l.operand) + Show([]);
    assert Show(tail) == [Symbol(l.op)] + Show([Num(l.operand)]);
  }

  /** A valid text evaluates to the value of its chain. */
  lemma EvaluateParsed(s: string)
    requires s != [] && Tokenize(s).Some? && Parse(Tokenize(s).value).Some?
    ensures var e := Parse(Tokenize(s).value).value; Evaluate(s) == ExprValue(e.first, e.links)
  {
  }

  /** Evaluation fails with a division by zero exactly when the text is a
      valid expression in which a / or % has the literal 0 on its right. */
  lemma DivisionByZeroExactly(s: string)
    ensures Evaluate(s) == Err(DivisionByZero) <==>
      s != [] && Tokenize(s).Some? && Parse(Tokenize(s).value).Some? &&
      DividesByZero(Parse(Tokenize(s).value).value.links)
  {
    if s != [] && Tokenize(s).Some? && Parse(Tokenize(s).value).Some? {
      var e := Parse(Tokenize(s).value).value;
      EvaluateParsed(s);
      ExprFails(e.first, e.links);
    }
  }
}

/** The evaluation table of the expression tests. */
module ExpressionTable {
  import opened Rendering
  import opened Expressions

  /** The text of a chain built one link at a time. */
  lemma TextStart(first: nat, digits: string)
    requires NatToString(first) == digits
    ensures Show(Spell(Chain(first, []))) == digits
  {
  }

  lemma TextStep(first: nat, ls: seq<Link>, l: Link, ls': seq<Link>, t: string, digits: string, t': string)
    requires Show(Spell(Chain(first, ls))) == t
    requires ls' == ls + [l] && NatToString(l.operand) == digits && t' == t + [Symbol(l.op)] + digits
    ensures Show(Spell(Chain(first, ls'))) == t'
  {
    ShowSnoc(first, ls, l);
  }

  lemma SumTable()
    ensures Evaluate("1+2") == Ok(3)
  {
    var l1 := Link(Plus, 2);
    TextStart(1, "1");
    TextStep(1, [], l1, [l1], "1", "2", "1+2");
    EvaluateChain(Chain(1, [l1]));
    LastTerm(1, [], Plus, 2, []);
  }

  lemma MixedText()
    ensures Show(Spell(Chain(1, [Link(Plus, 2), Link(Times, 3), Link(Quotient, 2), Link(Minus, 1)]))) == "1+2*3/2-1"
  {
    var l1, l2, l3, l4 := Link(Plus, 2), Link(Times, 3), Link(Quotient, 2), Link(Minus, 1);
    TextStart(1, "1");
    TextStep(1, [], l1, [l1], "1", "2", "1+2");
    TextStep(1, [l1], l2, [l1, l2], "1+2", "3", "1+2*3");
    TextStep(1, [l1, l2], l3, [l1, l2, l3], "1+2*3", "2", "1+2*3/2");
    TextStep(1, [l1, l2, l3], l4, [l1, l2, l3, l4], "1+2*3/2", "1", "1+2*3/2-1");
  }

  /** The value of 1+2*3/2, the start of two of the tests. */
  lemma HeadValue()
    ensures ExprValue(1, [Link(Plus, 2), Link(Times, 3), Link(Quotient, 2)]) == Ok(4)
  {
    var l1, l2, l3 := Link(Plus, 2), Link(Times, 3), Link(Quotient, 2);
    assert TermValue(2, [l2, l3]) == Ok(3) by {
      assert [l2, l3][..1] == [l2];
      assert TermValue(2, [l2]) == Ok(6);
      assert Quot(6, 2) == 3;
    }
    LastTerm(1, [], Plus, 2, [l2, l3]);
    assert [] + [l1] + [l2, l3] == [l1, l2, l3];
  }

  lemma MixedValue()
    ensures ExprValue(1, [Link(Plus, 2), Link(Times, 3), Link(Quotient, 2), Link(Minus, 1)]) == Ok(3)
  {
    var l1, l2, l3, l4 := Link(Plus, 2), Link(Times, 3), Link(Quotient, 2), Link(Minus, 1);
    HeadValue();
    LastTerm(1, [l1, l2, l3], Minus, 1, []);
    assert [l1, l2, l3] + [l4] + [] == [l1, l2, l3, l4];
  }

  lemma MixedTable()
    ensures Evaluate("1+2*3/2-1") == Ok(3)
  {
    MixedText();
    MixedValue();
    EvaluateChain(Chain(1, [Link(Plus, 2), Link(Times, 3), Link(Quotient, 2), Link(Minus, 1)]));
  }

  lemma LongText()
    ensures Show(Spell(Chain(1, [Link(Plus, 2), Link(Times, 3), Link(Quotient, 2), Link(Minus, 1),
                                 Link(Times, 2), Link(Plus, 4), Link(Remainder, 3)]))) == "1+2*3/2-1*2+4%3"
  {
    var l1, l2, l3, l4 := Link(Plus, 2), Link(Times, 3), Link(Quotient, 2), Link(Minus, 1);
    var l5, l6, l7 := Link(Times, 2), Link(Plus, 4), Link(Remainder, 3);
    MixedText();
    TextStep(1, [l1, l2, l3, l4], l5, [l1, l2, l3, l4, l5], "1+2*3/2-1", "2", "1+2*3/2-1*2");
    TextStep(1, [l1, l2, l3, l4, l5], l6, [l1, l2, l3, l4, l5, l6], "1+2*3/2-1*2", "4", "1+2*3/2-1*2+4");
    TextStep(1, [l1, l2, l3, l4, l5, l6], l7, [l1, l2, l3, l4, l5, l6, l7], "1+2*3/2-1*2+4", "3", "1+2*3/2-1*2+4%3");
  }

  lemma LongValue()
    ensures ExprValue(1, [Link(Plus, 2), Link(Times, 3), Link(Quotient, 2), Link(Minus, 1),
                          Link(Times, 2), Link(Plus, 4), Link(Remainder, 3)]) == Ok(3)
  {
    var l1, l2, l3, l4 := Link(Plus, 2), Link(Times, 3), Link(Quotient, 2), Link(Minus, 1);
    var l5, l6, l7 := Link(Times, 2), Link(Plus, 4), Link(Remainder, 3);
    HeadValue();
    LastTerm(1, [l1, l2, l3], Minus, 1, [l5]);
    assert [l1, l2, l3] + [l4] + [l5] == [l1, l2, l3, l4, l5];
    assert TermValue(1, [l5]) == Ok(2);
    LastTerm(1, [l1, l2, l3, l4, l5], Plus, 4, [l7]);
    assert [l1, l2, l3, l4, l5] + [l6] + [l7] == [l1, l2, l3, l4, l5, l6, l7];
    assert TermValue(4, [l7]) == Ok(1) by {
      assert Quot(4, 3) == 1;
    }
  }

  lemma LongTable()
    ensures Evaluate("1+2*3/2-1*2+4%3") == Ok(3)
    ensures Evaluate("1+2*3/2-1*2+4%3+") == Err(InvalidExp)
  {
    LongText();
    LongValue();
    EvaluateChain(Chain(1, [Link(Plus, 2), Link(Times, 3), Link(Quotient, 2), Link(Minus, 1),
                            Link(Times, 2), Link(Plus, 4), Link(Remainder, 3)]));
    TrailingOperator("1+2*3/2-1*2+4%3+");
  }

  lemma NegativeText()
    ensures Show(Spell(Chain(3, [Link(Times, 2), Link(Plus, 2), Link(Minus, 5), Link(Times, 6)]))) == "3*2+2-5*6"
  {
    var l1, l2, l3, l4 := Link(Times, 2), Link(Plus, 2), Link(Minus, 5), Link(Times, 6);
    TextStart(3, "3");
    TextStep(3, [], l1, [l1], "3", "2", "3*2");
    TextStep(3, [l1], l2, [l1, l2], "3*2", "2", "3*2+2");
    TextStep(3, [l1, l2], l3, [l1, l2, l3], "3*2+2", "5", "3*2+2-5");
    TextStep(3, [l1, l2, l3], l4, [l1, l2, l3, l4], "3*2+2-5", "6", "3*2+2-5*6");
  }

  lemma NegativeValue()
    ensures ExprValue(3, [Link(Times, 2), Link(Plus, 2), Link(Minus, 5), Link(Times, 6)]) == Ok(-22)
  {
    var l1, l2, l3, l4 := Link(Times, 2), Link(Plus, 2), Link(Minus, 5), Link(Times, 6);
    SingleTerm(3, [l1]);
    LastTerm(3, [l1], Plus, 2, []);
    assert [l1] + [l2] + [] == [l1, l2];
    LastTerm(3, [l1, l2], Minus, 5, [l4]);
    assert [l1, l2] + [l3] + [l4] == [l1, l2, l3, l4];
  }

  /** A result below zero: 3*2+2-5*6 is -22. */
  lemma NegativeTable()
    ensures Evaluate("3*2+2-5*6") == Ok(-22)
  {
    NegativeText();
    NegativeValue();
    EvaluateChain(Chain(3, [Link(Times, 2), Link(Plus, 2), Link(Minus, 5), Link(Times, 6)]));
  }

  /** Literals of several digits: 12*200 is 2400. */
  lemma ProductTable()
    ensures Evaluate("12*200") == Ok(2400)
  {
    var l := Link(Times, 200);
    assert NatToString(12) == "12";
    assert NatToString(200) == "200" by {
      assert NatToString(20) == "20";
    }
    TextStart(12, "12");
    TextStep(12, [], l, [l], "12", "200", "12*200");
    EvaluateChain(Chain(12, [l]));
    SingleTerm(12, [l]);
  }

  /** Twelve divided by a literal 0, whichever of / and % divides. */
  lemma ByZero(o: Operator)
    requires o == Quotient || o == Remainder
    ensures Evaluate("12" + [Symbol(o)] + "0") == Err(DivisionByZero)
  {
    var l := Link(o, 0);
    assert NatToString(12) == "12";
    TextStart(12, "12");
    TextStep(12, [], l, [l], "12", "0", "12" + [Symbol(o)] + "0");
    EvaluateChain(Chain(12, [l]));
    SingleTerm(12, [l]);
  }

  /** Division and remainder by a literal 0 fail with a division by zero. */
  lemma ZeroTable()
    ensures Evaluate("12/0") == Err(DivisionByZero)
    ensures Evaluate("12%0") == Err(DivisionByZero)
  {
    ByZero(Quotient);
    assert "12" + [Symbol(Quotient)] + "0" == "12/0";
    ByZero(Remainder);
    assert "12" + [Symbol(Remainder)] + "0" == "12%0";
  }

  /** A parenthesis is not part of the syntax; the empty text is 0. */
  lemma InvalidTable()
    ensures Evaluate("12(200+2") == Err(InvalidExp)
    ensures Evaluate("") == Ok(0)
  {
    StrayCharacter("12(200+2", 2);
  }
}
