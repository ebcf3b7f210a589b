/** Back/forward browser history kept in two stacks, both listed bottom to
    top. The back stack starts with the home page; "n" opens a page, "b"
    moves the current page from the back stack onto the forward stack, "f"
    moves the top of the forward stack back; any other op changes nothing. */
module Browser {
  import opened Sequences

  datatype WebOp = WebOp(op: string, page: string)

  datatype History = History(back: seq<string>, forward: seq<string>)

  /** The home page, "首页". */
  const Home: string := "\U{9996}\U{9875}"

  const Start: History := History([Home], [])

  function Step(h: History, w: WebOp): (h': History) {
    if w.op == "n" then
      History(h.back + [w.page], h.forward)
    else if w.op == "b" then
      if |h.back| <= 1 then h
      else History(h.back[..|h.back| - 1], h.forward + [h.back[|h.back| - 1]])
    else if w.op == "f" then
      if h.forward == [] then h
      else History(h.back + [h.forward[|h.forward| - 1]], h.forward[..|h.forward| - 1])
    else h
  }

  /** The history after the ops, in order, from the start page. */
  function Replay(ops: seq<WebOp>): (h: History)
    decreases |ops|
  {
    if ops == [] then Start else Step(Replay(ops[..|ops| - 1]), ops[|ops| - 1])
  }

  /** The pages in visiting order: the back stack, then the forward stack
      from its top down. Going back and forward only moves the cursor. */
  function Trail(h: History): seq<string> {
    h.back + Reverse(h.forward)
  }

  /** Replays ops with the two stacks, returning the back and forward
      stacks. */
  method BrowserFB(ops: seq<WebOp>) returns (back: seq<string>, forward: seq<string>)
    ensures History(back, forward) == Replay(ops)
    ensures |back| >= 1 && back[0] == Home
  {
    back, forward := [Home], [];
    for i := 0 to |ops|
      invariant History(back, forward) == Replay(ops[..i])
      invariant |back| >= 1 && back[0] == Home
    {
      assert ops[..i + 1][..i] == ops[..i];
      var w := ops[i];
      if w.op == "n" {
        back := back + [w.page];
      } else if w.op == "b" {
        if |back| > 1 {
          forward := forward + [back[|back| - 1]];
          back := back[..|back| - 1];
        }
      } else if w.op == "f" {
        if forward != [] {
          back := back + [forward[|forward| - 1]];
          forward := forward[..|forward| - 1];
        }
      }
    }
    assert ops[..|ops|] == ops;
  }

  /** The home page stays at the bottom of the back stack whatever the ops. */
  lemma {:induction false} HomeStays(ops: seq<WebOp>)
    ensures |Replay(ops).back| >= 1 && Replay(ops).back[0] == Home
    decreases |ops|
  {
    if ops != [] {
      HomeStays(ops[..|ops| - 1]);
    }
  }

  /** Going back or forward never loses or reorders a page. */
  lemma MovesKeepTrail(h: History, w: WebOp)
    requires w.op == "b" || w.op == "f"
    ensures Trail(Step(h, w)) == Trail(h)
  {
    if w.op == "b" && |h.back| > 1 {
      var top := h.back[|h.back| - 1];
      ReverseSnoc(h.forward, top);
      assert h.back == h.back[..|h.back| - 1] + [top];
    } else if w.op == "f" && h.forward != [] {
      var top := h.forward[|h.forward| - 1];
      var rest := h.forward[..|h.forward| - 1];
      assert h.forward == rest + [top];
      ReverseSnoc(rest, top);
    }
  }

  /** Opening a page puts it at the end of the back stack and leaves the
      pages before it in place. */
  lemma OpenAppends(h: History, page: string)
    ensures Step(h, WebOp("n", page)).back == h.back + [page]
    ensures Step(h, WebOp("n", page)).forward == h.forward
  {
  }

  /** Going back and then forward returns to the same history, and so does
      going forward and then back. */
  lemma BackThenForward(h: History)
    requires |h.back| > 1
    ensures Step(Step(h, WebOp("b", "")), WebOp("f", "")) == h
  {
    assert h.back[..|h.back| - 1] + [h.back[|h.back| - 1]] == h.back;
  }

  lemma ForwardThenBack(h: History)
    requires h.forward != [] && h.back != []
    ensures Step(Step(h, WebOp("f", "")), WebOp("b", "")) == h
  {
    assert h.forward[..|h.forward| - 1] + [h.forward[|h.forward| - 1]] == h.forward;
  }

  /** Going forward with an empty forward stack changes nothing. */
  lemma ForwardAtEnd(h: History, page: string)
    requires h.forward == []
    ensures Step(h, WebOp("f", page)) == h
  {
  }

  /** The op tables: an empty op changes nothing; opening web1; then going
      back; going forward with nothing ahead; back and forward again. */
  lemma ShortTable()
    ensures Replay([WebOp("", "")]) == History([Home], [])
    ensures Replay([WebOp("n", "web1")]) == History([Home, "web1"], [])
    ensures Replay([WebOp("n", "web1"), WebOp("b", "")]) == History([Home], ["web1"])
    ensures Replay([WebOp("n", "web1"), WebOp("f", "")]) == History([Home, "web1"], [])
    ensures Replay([WebOp("n", "web1"), WebOp("b", ""), WebOp("f", "")]) == History([Home, "web1"], [])
  {
    var one := [WebOp("", "")];
    assert one[..0] == [];
    var open := [WebOp("n", "web1")];
    assert open[..0] == [];
    var two := [WebOp("n", "web1"), WebOp("b", "")];
    assert two[..1] == open;
    var twof := [WebOp("n", "web1"), WebOp("f", "")];
    assert twof[..1] == open;
    var three := [WebOp("n", "web1"), WebOp("b", ""), WebOp("f", "")];
    assert three[..2] == two;
  }

  /** Replaying one more op steps the replayed history by that op. */
  lemma ReplaySnoc(ops: seq<WebOp>, w: WebOp)
    ensures Replay(ops + [w]) == Step(Replay(ops), w)
  {
    assert (ops + [w])[..|ops|] == ops;
  }

  /** The first half of the long op table: three pages opened and a
      forward with nothing ahead. */
  lemma LongOpens()
    ensures Replay([WebOp("n", "web1"), WebOp("n", "web2"), WebOp("n", "web3"), WebOp("f", "")]) ==
      History([Home, "web1", "web2", "web3"], [])
  {
    var one := [WebOp("n", "web1")];
    assert one[..0] == [];
    assert Replay(one) == History([Home, "web1"], []);
    var two := [WebOp("n", "web1"), WebOp("n", "web2")];
    ReplaySnoc(one, WebOp("n", "web2"));
    assert one + [WebOp("n", "web2")] == two;
    assert Replay(two) == History([Home, "web1", "web2"], []);
    var three := [WebOp("n", "web1"), WebOp("n", "web2"), WebOp("n", "web3")];
    ReplaySnoc(two, WebOp("n", "web3"));
    assert two + [WebOp("n", "web3")] == three;
    assert Replay(three) == History([Home, "web1", "web2", "web3"], []);
    ReplaySnoc(three, WebOp("f", ""));
    assert three + [WebOp("f", "")] ==
      [WebOp("n", "web1"), WebOp("n", "web2"), WebOp("n", "web3"), WebOp("f", "")];
  }

  /** Going back after a replay whose back stack holds more than the home
      page moves its top onto the forward stack. */
  lemma BackAfter(ops: seq<WebOp>, below: seq<string>, top: string, ahead: seq<string>)
    requires below != [] && Replay(ops) == History(below + [top], ahead)
    ensures Replay(ops + [WebOp("b", "")]) == History(below, ahead + [top])
  {
    ReplaySnoc(ops, WebOp("b", ""));
    var b := below + [top];
    assert b[..|b| - 1] == below;
  }

  /** The long op table: opening three pages, a forward with nothing ahead
      and three backs leave the home page behind and the three pages ahead,
      the first one opened on top. */
  lemma LongTable()
    ensures Replay([WebOp("n", "web1"), WebOp("n", "web2"), WebOp("n", "web3"), WebOp("f", ""),
                    WebOp("b", ""), WebOp("b", ""), WebOp("b", "")]) == History([Home], ["web3", "web2", "web1"])
  {
    var four := [WebOp("n", "web1"), WebOp("n", "web2"), WebOp("n", "web3"), WebOp("f", "")];
    LongOpens();
    var back := WebOp("b", "");
    var noPages: seq<string> := [];
    assert [Home, "web1", "web2", "web3"] == [Home, "web1", "web2"] + ["web3"];
    BackAfter(four, [Home, "web1", "web2"], "web3", noPages);
    assert [Home, "web1", "web2"] == [Home, "web1"] + ["web2"] && noPages + ["web3"] == ["web3"];
    BackAfter(four + [back], [Home, "web1"], "web2", ["web3"]);
    assert [Home, "web1"] == [Home] + ["web1"] && ["web3"] + ["web2"] == ["web3", "web2"];
    BackAfter(four + [back] + [back], [Home], "web1", ["web3", "web2"]);
    assert ["web3", "web2"] + ["web1"] == ["web3", "web2", "web1"];
    assert four + [back] + [back] + [back] ==
      [WebOp("n", "web1"), WebOp("n", "web2"), WebOp("n", "web3"), WebOp("f", ""),
       WebOp("b", ""), WebOp("b", ""), WebOp("b", "")];
  }
}
