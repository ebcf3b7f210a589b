/** Bracket matching: a string matches when its round, square and curly
    brackets are properly nested and all closed; other characters are
    ignored. Nested is the grammar of such strings, Run the stack machine
    that checks them, and BracketMatch the stack loop. */
module Brackets {
  import opened Options

  predicate IsOpen(c: char) {
    c == '(' || c == '[' || c == '{'
  }

  predicate IsClose(c: char) {
    c == ')' || c == ']' || c == '}'
  }

  function Closer(c: char): (d: char)
    requires IsOpen(c)
    ensures IsClose(d)
  {
    if c == '(' then ')' else if c == '[' then ']' else '}'
  }

  /** Properly nested text: empty; a character that is no bracket followed
      by nested text; or an opening bracket, nested text, the matching
      closing bracket and nested text. */
  ghost predicate Nested(t: string)
    decreases |t|
  {
    t == [] ||
    (!IsOpen(t[0]) && !IsClose(t[0]) && Nested(t[1..])) ||
    exists k :: Enclosed(t, k)
  }

  /** t opens with a bracket whose matching closer is at k, with nested
      text inside the pair and after it. */
  ghost predicate Enclosed(t: string, k: int)
    decreases |t|, 0
  {
    1 <= k < |t| && IsOpen(t[0]) && t[k] == Closer(t[0]) && Nested(t[1..k]) && Nested(t[k + 1..])
  }

  /** The stack of still-open brackets after reading t from stack st, or
      None once a closing bracket does not match the top of the stack. */
  function Run(t: string, st: seq<char>): (r: Option<seq<char>>)
    decreases |t|
  {
    if t == [] then Some(st)
    else if IsOpen(t[0]) then Run(t[1..], st + [t[0]])
    else if IsClose(t[0]) then
      if st != [] && IsOpen(st[|st| - 1]) && Closer(st[|st| - 1]) == t[0] then Run(t[1..], st[..|st| - 1])
      else None
    else Run(t[1..], st)
  }

  predicate AllOpen(st: seq<char>) {
    forall j :: 0 <= j < |st| ==> IsOpen(st[j])
  }

  /** Reading a + b is reading a and then b. */
  lemma {:induction false} RunConcat(a: string, b: string, st: seq<char>)
    ensures Run(a + b, st) == match Run(a, st) case None => None case Some(x) => Run(b, x)
    decreases |a|
  {
    if a == [] {
      assert a + b == b;
    } else {
      assert (a + b)[0] == a[0];
      assert (a + b)[1..] == a[1..] + b;
      if IsOpen(a[0]) {
        RunConcat(a[1..], b, st + [a[0]]);
      } else if IsClose(a[0]) {
        if st != [] && IsOpen(st[|st| - 1]) && Closer(st[|st| - 1]) == a[0] {
          RunConcat(a[1..], b, st[..|st| - 1]);
        }
      } else {
        RunConcat(a[1..], b, st);
      }
    }
  }

  /** Nested text leaves any stack as it found it. */
  lemma {:induction false} NestedRuns(t: string, st: seq<char>)
    requires Nested(t)
    ensures Run(t, st) == Some(st)
    decreases |t|
  {
    if t != [] {
      if IsOpen(t[0]) {
        var k :| Enclosed(t, k);
        var rest := [t[k]] + t[k + 1..];
        assert t[1..] == t[1..k] + rest;
        RunConcat(t[1..k], rest, st + [t[0]]);
        NestedRuns(t[1..k], st + [t[0]]);
        assert rest[1..] == t[k + 1..];
        assert (st + [t[0]])[..|st|] == st;
        NestedRuns(t[k + 1..], st);
      } else {
        NestedRuns(t[1..], st);
      }
    }
  }

  /** Nested text followed by nested text is nested. */
  lemma {:induction false} NestedConcat(u: string, v: string)
    requires Nested(u) && Nested(v)
    ensures Nested(u + v)
    decreases |u|
  {
    if u == [] {
      assert u + v == v;
    } else {
      var w := u + v;
      assert w[0] == u[0];
      if IsOpen(u[0]) {
        var k :| Enclosed(u, k);
        NestedConcat(u[k + 1..], v);
        assert w[k] == u[k];
        assert w[1..k] == u[1..k];
        assert w[k + 1..] == u[k + 1..] + v;
        assert Enclosed(w, k);
      } else {
        NestedConcat(u[1..], v);
        assert w[1..] == u[1..] + v;
      }
    }
  }

  /** t closes the open brackets of st, top first: t is nested text, the
      closer of the top, and text that closes the rest of the stack. */
  ghost predicate Closes(t: string, st: seq<char>)
    decreases |st|, 1
  {
    if st == [] then Nested(t) else exists k :: ClosesAt(t, st, k)
  }

  /** t closes the top of st at k: nested text before k, the closer of the
      top at k, and text after k that closes the rest of st. */
  ghost predicate ClosesAt(t: string, st: seq<char>, k: int)
    decreases |st|, 0
  {
    st != [] && IsOpen(st[|st| - 1]) && 0 <= k < |t| && t[k] == Closer(st[|st| - 1]) &&
    Nested(t[..k]) && Closes(t[k + 1..], st[..|st| - 1])
  }

  /** A character that is no bracket may go in front of text that closes a stack. */
  lemma CloseSkip(t: string, st: seq<char>)
    requires t != [] && !IsOpen(t[0]) && !IsClose(t[0])
    requires Closes(t[1..], st)
    ensures Closes(t, st)
  {
    if st != [] {
      var k :| ClosesAt(t[1..], st, k);
      var u := t[..k + 1];
      assert u[0] == t[0] && u[1..] == t[1..][..k];
      assert Nested(u);
      assert t[k + 2..] == t[1..][k + 1..];
      assert ClosesAt(t, st, k + 1);
    }
  }

  /** Nested text may go in front of text that closes a stack. */
  lemma CloseAfterNested(u: string, rest: string, st: seq<char>)
    requires Nested(u) && Closes(rest, st)
    ensures Closes(u + rest, st)
  {
    if st == [] {
      NestedConcat(u, rest);
    } else {
      var k :| ClosesAt(rest, st, k);
      var w := u + rest;
      NestedConcat(u, rest[..k]);
      assert w[..|u| + k] == u + rest[..k];
      assert w[|u| + k + 1..] == rest[k + 1..];
      assert ClosesAt(w, st, |u| + k);
    }
  }

  /** Text that takes a stack of open brackets to the empty stack closes it. */
  lemma {:induction false} RunCloses(t: string, st: seq<char>)
    requires AllOpen(st) && Run(t, st) == Some([])
    ensures Closes(t, st)
    decreases |t|
  {
    if t == [] {
      assert st == [];
    } else if IsOpen(t[0]) {
      var o := t[0];
      var ext := st + [o];
      assert AllOpen(ext);
      RunCloses(t[1..], ext);
      assert ext[|ext| - 1] == o && ext[..|ext| - 1] == st;
      var s1 := t[1..];
      var k :| ClosesAt(s1, ext, k);
      var u := t[..k + 2];
      assert s1[..k] == t[1..k + 1];
      assert u[1..k + 1] == t[1..k + 1];
      assert u[k + 2..] == [];
      assert Enclosed(u, k + 1);
      assert t == u + s1[k + 1..];
      CloseAfterNested(u, s1[k + 1..], st);
    } else if IsClose(t[0]) {
      RunCloses(t[1..], st[..|st| - 1]);
      assert t[..0] == [];
      assert t[1..] == t[0 + 1..];
      assert ClosesAt(t, st, 0);
    } else {
      RunCloses(t[1..], st);
      CloseSkip(t, st);
    }
  }

  /** The stack machine accepts exactly the nested strings. */
  lemma RunDecides(t: string)
    ensures Run(t, []) == Some([]) <==> Nested(t)
  {
    if Run(t, []) == Some([]) {
      RunCloses(t, []);
    }
    if Nested(t) {
      NestedRuns(t, []);
    }
  }

  /** Reads the string once, pushing opening brackets and popping one for
      each matching closing bracket; true when the stack ends empty. */
  method BracketMatch(s: string) returns (b: bool)
    ensures b <==> Nested(s)
  {
    RunDecides(s);
    var stack: seq<char> := [];
    for i := 0 to |s|
      invariant AllOpen(stack)
      invariant Run(s, []) == Run(s[i..], stack)
    {
      var c := s[i];
      assert s[i..][0] == c && s[i..][1..] == s[i + 1..];
      if IsOpen(c) {
        stack := stack + [c];
      } else if IsClose(c) {
        if stack == [] || Closer(stack[|stack| - 1]) != c {
          return false;
        }
        stack := stack[..|stack| - 1];
      }
    }
    assert s[|s|..] == [];
    b := stack == [];
  }

  /** The balanced strings of the table. */

  /** A pair of matching brackets around nested text is nested. */
  lemma Wrap(o: char, u: string)
    requires IsOpen(o) && Nested(u)
    ensures Nested([o] + u + [Closer(o)])
  {
    var t := [o] + u + [Closer(o)];
    assert t[1..|u| + 1] == u;
    assert t[|u| + 2..] == [];
    assert Enclosed(t, |u| + 1);
  }

  /** Nested text followed by an opening bracket is not nested: the
      bracket is never closed. */
  lemma OpenAtEnd(t: string, o: char)
    requires Nested(t) && IsOpen(o)
    ensures !Nested(t + [o])
  {
    NestedRuns(t, []);
    RunConcat(t, [o], []);
    assert [o][1..] == [];
    RunDecides(t + [o]);
  }

  /** Each pair of brackets on its own. */
  lemma Pairs()
    ensures Nested("()") && Nested("[]") && Nested("{}")
  {
    assert Nested("");
    Wrap('{', "");
    Wrap('(', "");
    Wrap('[', "");
    assert [('(')] + "" + [')'] == "()" && [('[')] + "" + [']'] == "[]" && [('{')] + "" + ['}'] == "{}";
  }

  /** Short balanced strings of the table, built by the grammar. */
  lemma MatchedShort()
    ensures Nested("{}") && Nested("()") && Nested("()[]{}")
  {
    Pairs();
    assert "()" + "[]" == "()[]" && "()[]" + "{}" == "()[]{}";
    NestedConcat("()", "[]");
    NestedConcat("()[]", "{}");
  }

  lemma MatchedRound()
    ensures Nested("([{()}])")
  {
    Pairs();
    Wrap('{', "()");
    assert [('{')] + "()" + ['}'] == "{()}";
    Wrap('[', "{()}");
    assert [('[')] + "{()}" + [']'] == "[{()}]";
    Wrap('(', "[{()}]");
    assert [('(')] + "[{()}]" + [')'] == "([{()}])";
  }

  /** "{{([])}}", the inner part of the second half of the deep test string; a step towards MatchedDeep, not a table row of its own. */
  lemma MatchedCurly()
    ensures Nested("{{([])}}")
  {
    Pairs();
    Wrap('(', "[]");
    assert [('(')] + "[]" + [')'] == "([])";
    Wrap('{', "([])");
    assert [('{')] + "([])" + ['}'] == "{([])}";
    Wrap('{', "{([])}");
    assert [('{')] + "{([])}" + ['}'] == "{{([])}}";
  }

  lemma MatchedSquareInner()
    ensures Nested("[{{([])}}]")
  {
    MatchedCurly();
    Wrap('[', "{{([])}}");
    assert [('[')] + "{{([])}}" + [']'] == "[{{([])}}]";
  }

  lemma SquareText()
    ensures [('[')] + "[{{([])}}]" + [']'] == "[[{{([])}}]]"
  {
  }

  lemma MatchedSquare()
    ensures Nested("[[{{([])}}]]")
  {
    MatchedSquareInner();
    Wrap('[', "[{{([])}}]");
    SquareText();
  }

  lemma DeepText()
    ensures "([{()}])" + "[[{{([])}}]]" == "([{()}])[[{{([])}}]]"
  {
  }

  /** Two deeply nested strings of the table one after the other. */
  lemma MatchedDeep()
    ensures Nested("([{()}])[[{{([])}}]]")
  {
    MatchedRound();
    MatchedSquare();
    DeepText();
    NestedConcat("([{()}])", "[[{{([])}}]]");
  }

  /** A balanced string followed by an opening bracket that is never closed. */
  lemma UnmatchedTail()
    ensures !Nested("([{()}])[[{{([])}}]][")
  {
    MatchedDeep();
    OpenAtEnd("([{()}])[[{{([])}}]]", '[');
    assert "([{()}])[[{{([])}}]]" + ['['] == "([{()}])[[{{([])}}]][";
  }

  /** An opening bracket left open, alone or among other characters. */
  lemma UnmatchedOpen()
    ensures !Nested("(") && !Nested("a[c") && !Nested("a{c")
  {
    RunDecides("(");
    RunDecides("a[c");
    RunDecides("a{c");
  }

  lemma UnmatchedOpenLong()
    ensures !Nested("ddf(1345")
  {
    RunDecides("ddf(1345");
  }

  /** A closing bracket that was never opened. */
  lemma UnmatchedClose()
    ensures !Nested("a)c")
  {
    RunDecides("a)c");
  }

  lemma UnmatchedCloseLong()
    ensures !Nested("ddf]1345") && !Nested("ddf}1345")
  {
    RunDecides("ddf]1345");
    RunDecides("ddf}1345");
  }
}
