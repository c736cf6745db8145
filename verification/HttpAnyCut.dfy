/**
 Runs of messages that are each read first however they are cut (HttpFirstEnd.AlwaysFirst), framed or not: where the
 reads are cut does not matter for them either (src/handler/HttpFraming.cpp:116-251).
 */
module HttpAnyCut {
  import opened Chars
  import opened HttpScan
  import opened HttpFraming
  import opened HttpCuts
  import opened HttpFirstEnd

  // ----- more pieces after those that were read -------------------------------------------------

  lemma ReadMore(input: seq<string>, more: seq<string>, max: nat)
    requires max > 0 && Read(input, max).data != ""
    ensures Read(input + more, max) == Got(Read(input, max).data, Read(input, max).rest + more)
  {
    assert (input + more)[0] == input[0] && (input + more)[1..] == input[1..] + more;
    assert [input[0]] + input[1..] == input;
    if |input[0]| > max {
      assert [input[0][max..]] + (input[1..] + more) == ([input[0][max..]] + input[1..]) + more;
    }
  }

  lemma {:induction false} HeadersMore(raw: string, input: seq<string>, more: seq<string>)
    requires ReadHeaders(raw, input).Filled?
    ensures var f := ReadHeaders(raw, input);
            ReadHeaders(raw, input + more) == Filled(f.raw, f.rest + more) && (Pieces(input) ==> Pieces(f.rest))
    decreases |Flat(input)|
  {
    hide SplitHttpHeaders;
    if SplitHttpHeaders(raw).None? {
      ReadMore(input, more, BUFFER_SIZE);
      var got := Read(input, BUFFER_SIZE);
      HeadersMore(raw + got.data, got.rest, more);
    }
  }

  lemma {:induction false} BodyMore(raw: string, input: seq<string>, need: nat, more: seq<string>)
    requires ReadBody(raw, input, need).Filled?
    ensures var f := ReadBody(raw, input, need);
            ReadBody(raw, input + more, need) == Filled(f.raw, f.rest + more) && (Pieces(input) ==> Pieces(f.rest))
    decreases |Flat(input)|
  {
    if |raw| < need {
      ReadMore(input, more, BUFFER_SIZE);
      var got := Read(input, BUFFER_SIZE);
      BodyMore(raw + got.data, got.rest, need, more);
    }
  }

  lemma {:induction false} ChunkedMore(raw: string, input: seq<string>, h: nat, more: seq<string>)
    requires ReadChunked(raw, input, h).Filled?
    ensures var f := ReadChunked(raw, input, h);
            ReadChunked(raw, input + more, h) == Filled(f.raw, f.rest + more) && (Pieces(input) ==> Pieces(f.rest))
    decreases |Flat(input)|
  {
    hide ChunkedEnd;
    if ChunkedEnd(raw, h).None? {
      ReadMore(input, more, BUFFER_SIZE);
      var got := Read(input, BUFFER_SIZE);
      ChunkedMore(raw + got.data, got.rest, h, more);
    }
  }

  function With(c: Conn, more: seq<string>): Conn { c.(input := c.input + more) }

  /** With more pieces the same message is read and they stay; nothing else of the connection changes. */
  ghost predicate SameWith(c: Conn, r: Result, more: seq<string>, s: Result)
  {
    r.outcome.Request? ==>
      && s == Result(r.outcome, With(r.conn, more)) && r.conn.up == c.up && r.conn.count == c.count
      && (Pieces(c.input) ==> Pieces(r.conn.input))
  }

  lemma ByMore(c: Conn, raw: string, h: nat, plan: Plan, more: seq<string>)
    requires h <= |raw|
    ensures SameWith(c, BodyBy(c, raw, h, plan), more, BodyBy(With(c, more), raw, h, plan))
  {
    hide ChunkedEnd, ReadChunked, ReadBody, Discard;
    if plan.Chunked? && ReadChunked(raw, c.input, h).Filled? {
      ReadChunkedEnds(raw, c.input, h);
      ChunkedMore(raw, c.input, h, more);
    } else if plan.Fixed? && ReadBody(raw, c.input, h + plan.length).Filled? {
      ReadBodyEnds(raw, c.input, h + plan.length);
      BodyMore(raw, c.input, h + plan.length, more);
    }
  }

  lemma HeadMore(c: Conn, raw: string, more: seq<string>)
    ensures SameWith(c, Headers(c, raw), more, Headers(With(c, more), raw))
  {
    hide SplitHttpHeaders, PlanOf, PreflightOf, ReadHeaders, Expects, BodyBy;
    ReadHeadersEnds(raw, c.input);
    ReadHeadersEnds(raw, c.input + more);
    var f := ReadHeaders(raw, c.input);
    if f.Filled? {
      HeadersMore(raw, c.input, more);
      var h := SplitHttpHeaders(f.raw).value.headerSectionEnd;
      var p := PreflightOf(f.raw[..h]);
      var c1 := c.(input := f.rest);
      ByMore(if Expects(p) then Send(c1, Continue) else c1, f.raw, h, PlanOf(p), more);
    }
  }

  lemma NextMore(c: Conn, maxRequests: nat, more: seq<string>)
    requires Allowed(c.count, maxRequests)
    ensures SameWith(c.(count := (c.count + 1) % COUNT_LIMIT), Next(c, maxRequests), more, Next(With(c, more), 0))
  {
    hide Headers;
    var c1 := c.(count := (c.count + 1) % COUNT_LIMIT, pending := "");
    if c.pending != "" {
      HeadMore(c1, c.pending, more);
    } else {
      var got := Read(c.input, BUFFER_SIZE);
      if got.data != "" {
        ReadMore(c.input, more, BUFFER_SIZE);
        HeadMore(c1.(input := got.rest), got.data, more);
      }
    }
  }

  // ----- one message ----------------------------------------------------------------------------

  /** A framed message is one of these. */
  lemma FramedIsFirst(m: string)
    requires Framed(m)
    ensures AlwaysFirst(m)
  {
    hide Framed, Next;
    forall tail: string, c: Conn | Delivers(c, m + tail) && c.up ensures Next(c, 0).outcome == Request(m) {
      NextIs(c, 0, m, tail);
    }
  }

  lemma AnyLimit(c: Conn, maxRequests: nat)
    requires Allowed(c.count, maxRequests)
    ensures Next(c, maxRequests) == Next(c, 0)
  {
    hide Headers;
  }

  /** Reading a request changes nothing of the connection but its bytes and its count. */
  lemma NextKeeps(c: Conn, maxRequests: nat)
    requires Allowed(c.count, maxRequests) && Next(c, maxRequests).outcome.Request? && Pieces(c.input)
    ensures var r := Next(c, maxRequests).conn;
            r.up == c.up && r.count == (c.count + 1) % COUNT_LIMIT && Pieces(r.input)
  {
    hide Next, With;
    NextMore(c, maxRequests, []);
  }

  lemma FirstNext(c: Conn, maxRequests: nat, m: string, tail: string)
    requires AlwaysFirst(m) && Delivers(c, m + tail) && c.up && Allowed(c.count, maxRequests)
    ensures var r := Next(c, maxRequests);
            && r.outcome == Request(m) && Delivers(r.conn, tail) && r.conn.up
            && r.conn.count == (c.count + 1) % COUNT_LIMIT
  {
    hide Next, Bytes, Complete;
    AnyLimit(c, maxRequests);
    var r := Next(c, maxRequests);
    assert r.outcome == Request(m);
    hide AlwaysFirst;
    NextKeeps(c, maxRequests);
    RequestIsFront(c, maxRequests);
    LittleIsKept(c, maxRequests);
    assert (m + tail)[|m|..] == tail && (m + Bytes(r.conn))[|m|..] == Bytes(r.conn);
  }

  /** A strict front of such a message yields no request. */
  lemma FrontOfFirst(c: Conn, maxRequests: nat, m: string, p: string)
    requires AlwaysFirst(m) && p < m && Delivers(c, p) && c.up && Allowed(c.count, maxRequests)
    ensures !Next(c, maxRequests).outcome.Request?
  {
    var rest := m[|p|..];
    assert p + rest == m && m + "" == m && rest != "";
    DeliversMore(c, p, rest);
    SomeRequest(c, maxRequests, [rest]);
    hide Next, Delivers, With;
    assert Next(With(c, [rest]), 0).outcome == Request(m) by {
      assert Delivers(With(c, [rest]), m + "");
    }
  }

  lemma DeliversMore(c: Conn, p: string, x: string)
    requires Delivers(c, p) && x != ""
    ensures Delivers(With(c, [x]), p + x) && With(c, [x]).up == c.up
  {
    FlatMore(c.input, x);
    assert c.pending + (Flat(c.input) + x) == (c.pending + Flat(c.input)) + x;
  }

  /** A request that is read is read from what was delivered, whatever comes after it. */
  lemma SomeRequest(c: Conn, maxRequests: nat, more: seq<string>)
    requires Allowed(c.count, maxRequests)
    ensures var r := Next(c, maxRequests);
            r.outcome.Request? ==> |r.outcome.message| <= |Bytes(c)| && Next(With(c, more), 0).outcome == r.outcome
  {
    hide Next, Bytes, Complete;
    NextMore(c, maxRequests, more);
    RequestIsFront(c, maxRequests);
  }

  lemma {:induction false} FlatMore(input: seq<string>, x: string)
    ensures Flat(input + [x]) == Flat(input) + x
  {
    if input == [] {
      assert [x][1..] == [];
    } else {
      assert (input + [x])[1..] == input[1..] + [x];
      FlatMore(input[1..], x);
    }
  }

  // ----- whole runs -----------------------------------------------------------------------------

  ghost predicate AllFirst(messages: seq<string>) { forall k :: 0 <= k < |messages| ==> AlwaysFirst(messages[k]) }

  /** Nothing, or a strict front of such a message. */
  ghost predicate Interrupted(p: string) { p == "" || exists m: string :: AlwaysFirst(m) && p < m }

  lemma InterruptedEnds(c: Conn, maxRequests: nat, p: string)
    requires Interrupted(p) && Delivers(c, p) && c.up && Allowed(c.count, maxRequests)
    ensures Next(c, maxRequests).outcome == if p == "" then Stop else Abort
  {
    hide AlwaysFirst, Next;
    StopsOnlyEmpty(c, maxRequests);
    if p != "" {
      var m: string :| AlwaysFirst(m) && p < m;
      FrontOfFirst(c, maxRequests, m, p);
    }
  }

  /** Such messages come out one by one, however they are cut, as many as the limit lets out; an unfinished last one
      yields nothing. */
  lemma {:induction false} ServesFirsts(c: Conn, maxRequests: nat, messages: seq<string>, p: string)
    requires AllFirst(messages) && Interrupted(p) && Delivers(c, Concat(messages) + p) && c.up
    requires maxRequests == 0 || c.count <= maxRequests < COUNT_LIMIT
    ensures Serve(c, maxRequests) == Expected(messages, p, c.count, maxRequests)
    decreases |messages|
  {
    hide AlwaysFirst, Next, Delivers, Interrupted;
    if maxRequests != 0 && c.count == maxRequests {
      LimitReached(c, maxRequests);
    } else if messages == [] {
      assert Concat(messages) + p == p;
      InterruptedEnds(c, maxRequests, p);
    } else {
      var tail := Concat(messages[1..]) + p;
      assert Concat(messages) + p == messages[0] + tail;
      FirstNext(c, maxRequests, messages[0], tail);
      ExpectedStep(messages, p, c.count, maxRequests);
      ServesFirsts(Next(c, maxRequests).conn, maxRequests, messages[1..], p);
    }
  }
}
