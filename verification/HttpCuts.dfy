/** Properties of message framing: what is emitted is complete, nothing is lost, and the cuts do not matter. */
module HttpCuts {
  import opened Chars
  import opened HttpScan
  import opened HttpChunks
  import opened HttpFraming

  // ----- complete messages ----------------------------------------------------------------------

  /** What follows the headers has exactly the length the headers announce. */
  predicate BodyFits(m: string, h: nat)
    requires h <= |m|
  {
    match PlanOf(PreflightOf(m[..h]))
    case Malformed => false
    case TooLong(_) => false
    case Chunked => ChunkedEnd(m, h) == Some(|m|)
    case Fixed(n) => |m| == h + n
  }

  /** The headers end at h, and the body fits. */
  predicate CompleteAt(m: string, h: nat)
  {
    && h <= |m| && SplitHttpHeaders(m[..h]).Some? && SplitHttpHeaders(m[..h]).value.headerSectionEnd == h
    && BodyFits(m, h)
  }

  ghost predicate Complete(m: string) { exists h: nat :: CompleteAt(m, h) }

  /** Nothing that ends before h could be taken for the end of the headers. */
  ghost predicate NoEarlyEnd(m: string, h: nat)
    requires h <= |m|
  {
    forall n :: 0 <= n < h ==> SplitHttpHeaders(m[..n]).None?
  }

  /** Headers of at most 65536 bytes that end at the first CRLFCRLF, with nothing before it that looks like
      their end; a chunked body stays one buffer below 16 MiB. */
  ghost predicate FramedAt(m: string, h: nat)
  {
    && CompleteAt(m, h) && SplitHttpHeaders(m[..h]).value.delimiterLength == 4
    && h <= MAX_HEADER_BYTES && NoEarlyEnd(m, h)
    && (PlanOf(PreflightOf(m[..h])).Chunked? ==> |m| - h + BUFFER_SIZE - 1 <= MAX_BODY_BYTES)
  }

  ghost predicate Framed(m: string) { exists h: nat :: FramedAt(m, h) }

  // ----- prefixes -------------------------------------------------------------------------------

  lemma OccursCut(s: string, n: nat, pat: string, k: nat)
    requires n <= |s| && k + |pat| <= n
    ensures OccursAt(s[..n], pat, k) == OccursAt(s, pat, k)
  {
    assert s[..n][k..k + |pat|] == s[k..k + |pat|];
  }

  lemma FindCut(s: string, n: nat, pat: string, from: nat)
    requires n <= |s| && Find(s, pat, from).Some? && Find(s, pat, from).value + |pat| <= n
    ensures Find(s[..n], pat, from) == Find(s, pat, from)
  {
    hide *;
    FindFacts(s, pat, from);
    var r := Find(s, pat, from).value;
    OccursCut(s, n, pat, r);
    forall k | from <= k < r ensures !OccursAt(s[..n], pat, k) {
      OccursCut(s, n, pat, k);
    }
    FindUnique(s[..n], pat, from, r);
  }

  lemma FindNoneCut(s: string, n: nat, pat: string, from: nat)
    requires n <= |s| && Find(s, pat, from).None?
    ensures Find(s[..n], pat, from).None?
  {
    FindFacts(s, pat, from);
    FindFacts(s[..n], pat, from);
    hide Find;
    var r := Find(s[..n], pat, from);
    if r.Some? {
      OccursCut(s, n, pat, r.value);
    }
  }

  /** Cutting after the header section does not change where it ends. */
  lemma SplitCut(s: string, n: nat)
    requires n <= |s| && SplitHttpHeaders(s).Some? && SplitHttpHeaders(s).value.headerSectionEnd <= n
    ensures SplitHttpHeaders(s[..n]) == SplitHttpHeaders(s)
  {
    FindSizes();
    hide Find;
    if Find(s, CRLFCRLF, 0).Some? {
      FindCut(s, n, CRLFCRLF, 0);
    } else {
      FindNoneCut(s, n, CRLFCRLF, 0);
      if Find(s, "\n\n", 0).Some? {
        FindCut(s, n, "\n\n", 0);
      } else {
        FindNoneCut(s, n, "\n\n", 0);
        FindCut(s, n, "\r\r", 0);
      }
    }
  }

  lemma {:induction false} ChunkedCut(s: string, n: nat, pos: nat)
    requires n <= |s| && ChunkedEnd(s, pos).Some? && ChunkedEnd(s, pos).value <= n
    ensures ChunkedEnd(s[..n], pos) == ChunkedEnd(s, pos)
    decreases |s| - pos
  {
    hide *;
    FindSizes();
    ChunkedFacts(s, pos);
    var e := Find(s, CRLF, pos).value;
    var size := ChunkSize(s[pos..e]).value;
    var p := e + 2;
    FindCut(s, n, CRLF, pos);
    assert s[..n][pos..e] == s[pos..e];
    ScanRound(s, pos, e, size);
    ScanRound(s[..n], pos, e, size);
    if size > 0 {
      OccursCut(s, n, CRLF, p + size);
      ChunkedCut(s, n, p + size + 2);
    } else {
      OccursCut(s, n, CRLF, p);
      if !OccursAt(s, CRLF, p) {
        FindCut(s, n, CRLFCRLF, p);
      }
    }
  }

  // ----- every emitted message is complete ------------------------------------------------------

  lemma EmitComplete(raw: string, all: string, h: nat, end: nat)
    requires SplitHttpHeaders(raw).Some? && SplitHttpHeaders(raw).value.headerSectionEnd == h && raw <= all
    requires var plan := PlanOf(PreflightOf(raw[..h]));
             h <= end <= |all|
             && ((plan.Chunked? && ChunkedEnd(all, h) == Some(end)) || (plan.Fixed? && end == h + plan.length))
    ensures CompleteAt(all[..end], h) && all[..end] != ""
  {
    hide *;
    SplitCut(raw, h);
    SplitBounds(raw);
    var m := all[..end];
    assert m[..h] == raw[..h];
    EmittedFits(raw, all, h, end);
    hide BodyFits;
    CompleteShape(m, h);
  }

  lemma SplitBounds(raw: string)
    requires SplitHttpHeaders(raw).Some?
    ensures 0 < SplitHttpHeaders(raw).value.headerSectionEnd <= |raw|
  {
  }

  lemma CompleteShape(m: string, h: nat)
    requires h <= |m| && SplitHttpHeaders(m[..h]).Some? && SplitHttpHeaders(m[..h]).value.headerSectionEnd == h && BodyFits(m, h)
    ensures CompleteAt(m, h)
  {
  }

  lemma EmittedFits(raw: string, all: string, h: nat, end: nat)
    requires h <= |raw| && raw <= all
    requires var plan := PlanOf(PreflightOf(raw[..h]));
             h <= end <= |all|
             && ((plan.Chunked? && ChunkedEnd(all, h) == Some(end)) || (plan.Fixed? && end == h + plan.length))
    ensures BodyFits(all[..end], h)
  {
    hide ChunkedEnd, PlanOf, PreflightOf;
    assert all[..end][..h] == raw[..h];
    if PlanOf(PreflightOf(raw[..h])).Chunked? {
      ChunkedCut(all, end, h);
    }
  }

  lemma EmitConserves(c: Conn, raw: string, end: nat)
    requires end <= |raw|
    ensures raw[..end] + Bytes(Emit(c, raw, end).conn) == raw + Flat(c.input)
  {
    assert raw == raw[..end] + raw[end..];
    assert raw[..end] + (raw[end..] + Flat(c.input)) == raw[..end] + raw[end..] + Flat(c.input);
  }

  /** If a message is emitted, it is complete and it is the front of the bytes there were; the rest is kept. */
  ghost predicate Emitted(before: string, r: Result)
  {
    r.outcome.Request? ==>
      Complete(r.outcome.message) && r.outcome.message != "" && r.outcome.message + Bytes(r.conn) == before
  }

  lemma ByEmits(c: Conn, raw: string, h: nat)
    requires SplitHttpHeaders(raw).Some? && SplitHttpHeaders(raw).value.headerSectionEnd == h
    ensures Emitted(raw + Flat(c.input), BodyBy(c, raw, h, PlanOf(PreflightOf(raw[..h]))))
  {
    hide SplitHttpHeaders, ChunkedEnd, PlanOf, PreflightOf, CompleteAt, Bytes, ReadChunked, ReadBody;
    var plan := PlanOf(PreflightOf(raw[..h]));
    var r := BodyBy(c, raw, h, plan);
    if r.outcome.Request? {
      var f := if plan.Chunked? then ReadChunked(raw, c.input, h) else ReadBody(raw, c.input, h + plan.length);
      ReadChunkedEnds(raw, c.input, h);
      ReadBodyEnds(raw, c.input, h + if plan.Fixed? then plan.length else 0);
      ChunkedEndInside(f.raw, h);
      var end := if plan.Chunked? then ChunkedEnd(f.raw, h).value else h + plan.length;
      EmitComplete(raw, f.raw, h, end);
      EmitConserves(c.(input := f.rest), f.raw, end);
    }
  }

  lemma ChunkedEndInside(raw: string, h: nat)
    ensures ChunkedEnd(raw, h).Some? ==> h <= ChunkedEnd(raw, h).value <= |raw|
  {
  }

  lemma HeadersEmit(c: Conn, raw: string)
    ensures Emitted(raw + Flat(c.input), Headers(c, raw))
  {
    hide SplitHttpHeaders, PlanOf, PreflightOf, Emitted, ReadHeaders, Expects, BodyBy;
    ReadHeadersEnds(raw, c.input);
    var f := ReadHeaders(raw, c.input);
    if f.Filled? {
      var h := SplitHttpHeaders(f.raw).value.headerSectionEnd;
      var p := PreflightOf(f.raw[..h]);
      var c1 := c.(input := f.rest);
      var c2 := if Expects(p) then Send(c1, Continue) else c1;
      ByEmits(c2, f.raw, h);
      NoRequest(raw + Flat(c.input), Result(Abort, c2));
    } else {
      NoRequest(raw + Flat(c.input), Headers(c, raw));
    }
  }

  lemma NoRequest(before: string, r: Result)
    requires !r.outcome.Request?
    ensures Emitted(before, r)
  {
  }

  /** On any stream: a request is a complete message, and message and bytes kept are all the bytes there were. */
  lemma RequestIsFront(c: Conn, maxRequests: nat)
    ensures Emitted(Bytes(c), Next(c, maxRequests))
  {
    hide Emitted, Headers;
    if maxRequests != 0 && c.count >= maxRequests {
      NoRequest(Bytes(c), Next(c, maxRequests));
    } else {
      var c1 := c.(count := (c.count + 1) % COUNT_LIMIT, pending := "");
      if c.pending != "" {
        HeadersEmit(c1, c.pending);
      } else {
        var got := Read(c.input, BUFFER_SIZE);
        assert Bytes(c) == got.data + Flat(got.rest);
        if got.data == "" {
          NoRequest(Bytes(c), Next(c, maxRequests));
        } else {
          HeadersEmit(c1.(input := got.rest), got.data);
        }
      }
    }
  }

  // ----- a framed message is the only one a stream can start with --------------------------------

  lemma FindExtends(s: string, t: string, pat: string)
    requires Find(s, pat, 0).Some? && s <= t
    ensures Find(t, pat, 0) == Find(s, pat, 0)
  {
    assert t == s + t[|s|..];
    FindStable(s, t[|s|..], pat, 0);
  }

  lemma CrlfSplit(head: string, t: string)
    requires SplitHttpHeaders(head).Some? && SplitHttpHeaders(head).value.delimiterLength == 4 && head <= t
    ensures SplitHttpHeaders(t) == SplitHttpHeaders(head)
  {
    hide Find;
    FindExtends(head, t, CRLFCRLF);
  }

  /** Where the headers end in any front of a stream that starts with the header section of m. */
  lemma FrontSplit(m: string, h: nat, tail: string, front: string)
    requires FramedAt(m, h) && front <= m + tail
    ensures |front| < h ==> SplitHttpHeaders(front).None?
    ensures |front| >= h ==> SplitHttpHeaders(front) == Some(HeaderSplit(h, 4)) && front[..h] == m[..h]
  {
    hide SplitHttpHeaders, BodyFits;
    if |front| < h {
      assert front == m[..|front|];
    } else {
      assert front[..h] == (m + tail)[..h] == m[..h];
      assert m[..h] <= front;
      CrlfSplit(m[..h], front);
    }
  }

  lemma BodyUnique(m: string, m2: string, h: nat, s: string)
    requires h <= |m| && h <= |m2| && m[..h] == m2[..h] && BodyFits(m, h) && BodyFits(m2, h) && m <= s && m2 <= s
    ensures m == m2
  {
    hide ChunkedEnd, PlanOf, PreflightOf;
    if PlanOf(PreflightOf(m[..h])).Chunked? {
      assert s == m + s[|m|..] && s == m2 + s[|m2|..];
      ChunkedStable(m, s[|m|..], h);
      ChunkedStable(m2, s[|m2|..], h);
    }
    assert |m| == |m2|;
  }

  /** No complete message but m is a front of a stream that starts with m. */
  lemma FrontUnique(m: string, tail: string, m2: string)
    requires Framed(m) && Complete(m2) && m2 <= m + tail
    ensures m2 == m
  {
    hide SplitHttpHeaders, BodyFits;
    var h: nat :| FramedAt(m, h);
    var h2: nat :| CompleteAt(m2, h2);
    FrontSplit(m, h, tail, m2[..h2]);
    assert h2 == h;
    assert m2[..h] == m[..h];
    BodyUnique(m, m2, h, m + tail);
  }

  // ----- a framed message is read, however it is cut --------------------------------------------

  lemma {:induction false} HeadersArrive(m: string, h: nat, tail: string, raw: string, input: seq<string>)
    requires FramedAt(m, h) && Pieces(input) && raw + Flat(input) == m + tail
    ensures var f := ReadHeaders(raw, input);
            f.Filled? && Pieces(f.rest) && |f.raw| >= h && f.raw + Flat(f.rest) == m + tail
    decreases |Flat(input)|
  {
    hide SplitHttpHeaders, BodyFits;
    assert raw <= m + tail;
    FrontSplit(m, h, tail, raw);
    if |raw| < h {
      var got := Read(input, BUFFER_SIZE);
      assert got.data != "" by {
        assert |raw| + |Flat(input)| == |m| + |tail|;
      }
      assert (raw + got.data) + Flat(got.rest) == raw + (got.data + Flat(got.rest));
      HeadersArrive(m, h, tail, raw + got.data, got.rest);
    }
  }

  lemma {:induction false} FixedArrives(raw: string, input: seq<string>, need: nat)
    requires Pieces(input) && |raw| + |Flat(input)| >= need
    ensures ReadBody(raw, input, need).Filled? && Pieces(ReadBody(raw, input, need).rest)
    decreases |Flat(input)|
  {
    if |raw| < need {
      var got := Read(input, BUFFER_SIZE);
      FixedArrives(raw + got.data, got.rest, need);
    }
  }

  lemma ChunkedFound(m: string, h: nat, s: string, raw: string)
    requires ChunkedEnd(m, h) == Some(|m|) && m <= s && raw <= s
    ensures ChunkedEnd(raw, h) == if |raw| < |m| then None else Some(|m|)
  {
    hide *;
    ChunkedEndInside(raw, h);
    assert s == m + s[|m|..] && s == raw + s[|raw|..];
    ChunkedStable(m, s[|m|..], h);
    if ChunkedEnd(raw, h).Some? {
      ChunkedStable(raw, s[|raw|..], h);
    }
    if |raw| >= |m| {
      assert raw == m + raw[|m|..];
      ChunkedStable(m, raw[|m|..], h);
    }
  }

  lemma {:induction false} ChunkedArrives(m: string, h: nat, s: string, raw: string, input: seq<string>)
    requires ChunkedEnd(m, h) == Some(|m|) && |m| - h + BUFFER_SIZE - 1 <= MAX_BODY_BYTES
    requires m <= s && Pieces(input) && raw + Flat(input) == s
    ensures ReadChunked(raw, input, h).Filled? && Pieces(ReadChunked(raw, input, h).rest)
    decreases |Flat(input)|
  {
    hide ChunkedEnd;
    ChunkedFound(m, h, s, raw);
    if |raw| < |m| {
      var got := Read(input, BUFFER_SIZE);
      assert |raw| + |Flat(input)| == |s|;
      assert (raw + got.data) + Flat(got.rest) == raw + (got.data + Flat(got.rest));
      ChunkedArrives(m, h, s, raw + got.data, got.rest);
    }
  }

  /** Everything but the bytes: a request was read, with these replies, and the pieces left are not empty. */
  predicate Served(c: Conn, r: Result, replies: seq<Reply>)
  {
    && r.outcome.Request? && r.conn.sent == c.sent + replies && r.conn.count == c.count && r.conn.up == c.up
    && Pieces(r.conn.input)
  }

  lemma ByServes(c: Conn, m: string, h: nat, tail: string, raw: string)
    requires FramedAt(m, h) && Pieces(c.input) && |raw| >= h && raw + Flat(c.input) == m + tail
    ensures Served(c, BodyBy(c, raw, h, PlanOf(PreflightOf(m[..h]))), [])
  {
    hide SplitHttpHeaders, ChunkedEnd, PlanOf, PreflightOf, ReadChunked, ReadBody, Flat, Read;
    var plan := PlanOf(PreflightOf(m[..h]));
    assert |raw| + |Flat(c.input)| == |m| + |tail|;
    if plan.Chunked? {
      ChunkedArrives(m, h, m + tail, raw, c.input);
    } else {
      FixedArrives(raw, c.input, h + plan.length);
    }
  }

  lemma HeadersServe(c: Conn, m: string, h: nat, tail: string, raw: string)
    requires FramedAt(m, h) && Pieces(c.input) && raw + Flat(c.input) == m + tail
    requires c.up || !Expects(PreflightOf(m[..h]))
    ensures Served(c, Headers(c, raw), if Expects(PreflightOf(m[..h])) then [Continue] else [])
  {
    hide SplitHttpHeaders, PlanOf, PreflightOf, ReadHeaders, Expects, BodyBy, BodyFits, Flat, Read;
    HeadersArrive(m, h, tail, raw, c.input);
    ReadHeadersEnds(raw, c.input);
    var f := ReadHeaders(raw, c.input);
    FrontSplit(m, h, tail, f.raw);
    var c1 := c.(input := f.rest);
    var c2 := if Expects(PreflightOf(m[..h])) then Send(c1, Continue) else c1;
    ByServes(c2, m, h, tail, f.raw);
  }

  predicate Allowed(count: nat, maxRequests: nat) { maxRequests == 0 || count < maxRequests }

  lemma NextServes(c: Conn, maxRequests: nat, m: string, h: nat, tail: string)
    requires FramedAt(m, h) && Pieces(c.input) && Bytes(c) == m + tail
    requires Allowed(c.count, maxRequests) && (c.up || !Expects(PreflightOf(m[..h])))
    ensures Served(c.(count := (c.count + 1) % COUNT_LIMIT), Next(c, maxRequests),
                   if Expects(PreflightOf(m[..h])) then [Continue] else [])
  {
    hide SplitHttpHeaders, PlanOf, PreflightOf, Expects, Headers, BodyFits, Flat, Read;
    var c1 := c.(count := (c.count + 1) % COUNT_LIMIT, pending := "");
    if c.pending != "" {
      HeadersServe(c1, m, h, tail, c.pending);
    } else {
      assert "" + Flat(c.input) == Flat(c.input);
      var got := Read(c.input, BUFFER_SIZE);
      FramedNotEmpty(m, h);
      HeadersServe(c1.(input := got.rest), m, h, tail, got.data);
    }
  }

  lemma FramedNotEmpty(m: string, h: nat)
    requires FramedAt(m, h)
    ensures m != ""
  {
  }

  // ----- whole runs -----------------------------------------------------------------------------

  lemma RequestShrinks(c: Conn, maxRequests: nat)
    requires Next(c, maxRequests).outcome.Request?
    ensures |Bytes(Next(c, maxRequests).conn)| < |Bytes(c)|
  {
    RequestIsFront(c, maxRequests);
    hide Next, Bytes, Complete;
  }

  /** The requests of a connection in order, and how it ends. */
  datatype Log = Log(messages: seq<string>, last: Outcome)

  function Serve(c: Conn, maxRequests: nat): Log
    decreases |Bytes(c)|
  {
    var r := Next(c, maxRequests);
    if !r.outcome.Request? then Log([], r.outcome)
    else
      RequestShrinks(c, maxRequests);
      var rest := Serve(r.conn, maxRequests);
      Log([r.outcome.message] + rest.messages, rest.last)
  }

  function Concat(messages: seq<string>): string
  {
    if messages == [] then "" else messages[0] + Concat(messages[1..])
  }

  ghost predicate AllFramed(messages: seq<string>) { forall k :: 0 <= k < |messages| ==> Framed(messages[k]) }

  /** The headers of m ask for a 100 Continue. */
  ghost predicate Expecting(m: string) { exists h: nat :: FramedAt(m, h) && Expects(PreflightOf(m[..h])) }

  lemma NextIs(c: Conn, maxRequests: nat, m: string, tail: string)
    requires Framed(m) && Pieces(c.input) && Bytes(c) == m + tail && Allowed(c.count, maxRequests)
    requires c.up || !Expecting(m)
    ensures var r := Next(c, maxRequests);
            && r.outcome == Request(m) && Bytes(r.conn) == tail && Pieces(r.conn.input)
            && r.conn.up == c.up && r.conn.count == (c.count + 1) % COUNT_LIMIT
  {
    hide SplitHttpHeaders, BodyFits, Next, Bytes, PreflightOf, Expects, Complete;
    var h: nat :| FramedAt(m, h);
    NextServes(c, maxRequests, m, h, tail);
    RequestIsFront(c, maxRequests);
    var r := Next(c, maxRequests);
    FrontUnique(m, tail, r.outcome.message);
    assert m + Bytes(r.conn) == m + tail;
    assert (m + tail)[|m|..] == tail && (m + Bytes(r.conn))[|m|..] == Bytes(r.conn);
  }

  /** A stream that ends inside a framed message yields no further request. */
  lemma EndsInside(c: Conn, maxRequests: nat, m: string, n: nat)
    requires Framed(m) && n < |m| && Bytes(c) == m[..n]
    ensures !Next(c, maxRequests).outcome.Request?
  {
    hide Framed, Complete, Next, Bytes;
    RequestIsFront(c, maxRequests);
    var r := Next(c, maxRequests);
    if r.outcome.Request? {
      var m2 := r.outcome.message;
      assert m2 <= m[..n] <= m && m + "" == m;
      FrontUnique(m, "", m2);
    }
  }

  /** Nothing, or a strict front of a framed message. */
  ghost predicate Unfinished(p: string) { p == "" || exists m: string :: Framed(m) && p < m }

  lemma UnfinishedEnds(c: Conn, maxRequests: nat, p: string)
    requires Unfinished(p) && Bytes(c) == p && Pieces(c.input) && Allowed(c.count, maxRequests)
    ensures Next(c, maxRequests).outcome == if p == "" then Stop else Abort
  {
    hide Framed, SplitHttpHeaders;
    if p != "" {
      var m: string :| Framed(m) && p < m;
      assert p == m[..|p|];
      EndsInside(c, maxRequests, m, |p|);
    }
    StopsOnlyEmpty(c, maxRequests);
  }

  lemma StopsOnlyEmpty(c: Conn, maxRequests: nat)
    requires Pieces(c.input) && Allowed(c.count, maxRequests)
    ensures Next(c, maxRequests).outcome == Stop <==> Bytes(c) == ""
  {
    hide SplitHttpHeaders, ReadHeaders, Expects, PlanOf, PreflightOf, BodyBy;
    if c.pending == "" {
      var got := Read(c.input, BUFFER_SIZE);
      HeadersNeverStop(c.(count := (c.count + 1) % COUNT_LIMIT, input := got.rest), got.data);
    } else {
      HeadersNeverStop(c.(count := (c.count + 1) % COUNT_LIMIT, pending := ""), c.pending);
    }
  }

  lemma HeadersNeverStop(c: Conn, raw: string)
    ensures Headers(c, raw).outcome != Stop
  {
    hide SplitHttpHeaders, ReadHeaders, ReadBody, ReadChunked, Expects, PlanOf, PreflightOf, ChunkedEnd;
    ReadHeadersEnds(raw, c.input);
  }

  lemma LimitReached(c: Conn, maxRequests: nat)
    requires 0 < maxRequests <= c.count
    ensures Next(c, maxRequests) == Result(Stop, c)
  {
  }

  ghost predicate Quiet(messages: seq<string>) { forall k :: 0 <= k < |messages| ==> !Expecting(messages[k]) }

  /** Of n messages, those that a limit on the requests of the connection lets out. */
  function Out(n: nat, count: nat, maxRequests: nat): nat
    requires maxRequests == 0 || count <= maxRequests
  {
    if maxRequests != 0 && maxRequests - count < n then maxRequests - count else n
  }

  /** What a connection serves that receives framed messages and then stops, perhaps inside one. */
  function Expected(messages: seq<string>, p: string, count: nat, maxRequests: nat): Log
    requires maxRequests == 0 || count <= maxRequests
  {
    var limited := maxRequests != 0 && maxRequests - count <= |messages|;
    Log(messages[..Out(|messages|, count, maxRequests)], if limited || p == "" then Stop else Abort)
  }

  lemma ExpectedStep(messages: seq<string>, p: string, count: nat, maxRequests: nat)
    requires messages != [] && (maxRequests == 0 || count < maxRequests < COUNT_LIMIT)
    ensures var next := (count + 1) % COUNT_LIMIT;
            && (maxRequests == 0 || next <= maxRequests)
            && var rest := Expected(messages[1..], p, next, maxRequests);
               Expected(messages, p, count, maxRequests) == Log([messages[0]] + rest.messages, rest.last)
  {
    var n := Out(|messages|, count, maxRequests);
    assert messages[..n] == [messages[0]] + messages[1..][..n - 1];
  }

  /** Framed messages come out one by one, however they are cut: all of them, or as many as the limit lets out. What
      the stream ends with, if it is not a whole message, yields nothing. */
  lemma {:induction false} ServesExactly(c: Conn, maxRequests: nat, messages: seq<string>, p: string)
    requires AllFramed(messages) && Unfinished(p) && Pieces(c.input) && Bytes(c) == Concat(messages) + p
    requires c.up || Quiet(messages)
    requires maxRequests == 0 || c.count <= maxRequests < COUNT_LIMIT
    ensures Serve(c, maxRequests) == Expected(messages, p, c.count, maxRequests)
    decreases |messages|
  {
    hide Framed, Next, Pieces, Bytes, Unfinished, Expecting;
    if maxRequests != 0 && c.count == maxRequests {
      LimitReached(c, maxRequests);
    } else if messages == [] {
      assert Concat(messages) + p == p;
      UnfinishedEnds(c, maxRequests, p);
    } else {
      var tail := Concat(messages[1..]) + p;
      assert Concat(messages) + p == messages[0] + tail;
      NextIs(c, maxRequests, messages[0], tail);
      ExpectedStep(messages, p, c.count, maxRequests);
      ServesExactly(Next(c, maxRequests).conn, maxRequests, messages[1..], p);
    }
  }

  /** Two connections that receive the same bytes serve the same requests and end the same way. */
  lemma CutsDoNotMatter(c1: Conn, c2: Conn, maxRequests: nat, messages: seq<string>, p: string)
    requires AllFramed(messages) && Unfinished(p) && Pieces(c1.input) && Pieces(c2.input)
    requires Bytes(c1) == Bytes(c2) == Concat(messages) + p && c1.count == c2.count
    requires (c1.up && c2.up) || Quiet(messages)
    requires maxRequests == 0 || c1.count <= maxRequests < COUNT_LIMIT
    ensures Serve(c1, maxRequests) == Serve(c2, maxRequests)
  {
    hide *;
    ServesExactly(c1, maxRequests, messages, p);
    ServesExactly(c2, maxRequests, messages, p);
  }

  // ----- the headers of any stream --------------------------------------------------------------

  /** However much of the stream has been read when an end of headers is seen, it is the same end. */
  ghost predicate HeadersStable(s: string)
  {
    forall n :: 0 <= n <= |s| && SplitHttpHeaders(s[..n]).Some? ==> SplitHttpHeaders(s[..n]) == SplitHttpHeaders(s)
  }

  /** LFLF or CRCR at k. */
  predicate BareDelimiter(s: string, k: nat) { OccursAt(s, "\n\n", k) || OccursAt(s, "\r\r", k) }

  /** Something that ends before the chosen end of the headers could have been taken for it. */
  ghost predicate EarlierDelimiter(s: string)
  {
    SplitHttpHeaders(s).Some?
    && exists k: nat :: k + 2 < SplitHttpHeaders(s).value.headerSectionEnd && BareDelimiter(s, k)
  }

  lemma StableThen(s: string)
    requires !EarlierDelimiter(s)
    ensures HeadersStable(s)
  {
    forall n | 0 <= n <= |s| && SplitHttpHeaders(s[..n]).Some?
      ensures SplitHttpHeaders(s[..n]) == SplitHttpHeaders(s)
    {
      PrefixSplits(s, n);
      var h := SplitHttpHeaders(s).value.headerSectionEnd;
      if n >= h {
        SplitCut(s, n);
      } else {
        ShortSplit(s, n);
      }
    }
  }

  lemma PrefixSplits(s: string, n: nat)
    requires n <= |s| && SplitHttpHeaders(s[..n]).Some?
    ensures SplitHttpHeaders(s).Some?
  {
    assert s[..n] <= s;
    assert s == s[..n] + s[n..];
    if Find(s[..n], CRLFCRLF, 0).Some? {
      FindStable(s[..n], s[n..], CRLFCRLF, 0);
    } else if Find(s[..n], "\n\n", 0).Some? {
      FindStable(s[..n], s[n..], "\n\n", 0);
    } else {
      FindStable(s[..n], s[n..], "\r\r", 0);
    }
  }

  /** A front shorter than the header section that splits, splits at an earlier delimiter. */
  lemma ShortSplit(s: string, n: nat)
    requires n <= |s| && SplitHttpHeaders(s[..n]).Some? && SplitHttpHeaders(s).Some?
    requires n < SplitHttpHeaders(s).value.headerSectionEnd
    ensures EarlierDelimiter(s)
  {
    var front := s[..n];
    assert s == front + s[n..];
    hide Find, EarlierDelimiter;
    if Find(front, CRLFCRLF, 0).Some? {
      FindStable(front, s[n..], CRLFCRLF, 0);
      SplitBounds(front);
    } else {
      FrontDelimiter(s, n);
      var k: nat :| k + 2 <= n && BareDelimiter(s, k);
      EarlierIs(s, k);
    }
  }

  lemma EarlierIs(s: string, k: nat)
    requires SplitHttpHeaders(s).Some? && k + 2 < SplitHttpHeaders(s).value.headerSectionEnd && BareDelimiter(s, k)
    ensures EarlierDelimiter(s)
  {
    hide BareDelimiter;
  }

  /** A front that splits without CRLFCRLF holds a bare delimiter of the whole. */
  lemma FrontDelimiter(s: string, n: nat)
    requires n <= |s| && SplitHttpHeaders(s[..n]).Some? && Find(s[..n], CRLFCRLF, 0).None?
    ensures exists k: nat :: k + 2 <= n && BareDelimiter(s, k)
  {
    var front := s[..n];
    var lf, cr := Find(front, "\n\n", 0), Find(front, "\r\r", 0);
    FindFacts(front, "\n\n", 0);
    FindFacts(front, "\r\r", 0);
    var k := if lf.Some? then lf.value else cr.value;
    hide Find;
    assert s[k..k + 2] == front[k..k + 2];
    assert BareDelimiter(s, k);
  }

  lemma UnstableThen(s: string)
    requires EarlierDelimiter(s)
    ensures !HeadersStable(s)
  {
    hide Find;
    var k: nat :| k + 2 < SplitHttpHeaders(s).value.headerSectionEnd && BareDelimiter(s, k);
    var front := s[..k + 2];
    FindFacts(front, "\n\n", 0);
    FindFacts(front, "\r\r", 0);
    assert front[k..k + 2] == s[k..k + 2];
    assert BareDelimiter(front, k);
    assert SplitHttpHeaders(front).Some?;
    assert SplitHttpHeaders(front).value.headerSectionEnd <= k + 2;
  }

  /** The end of the headers does not depend on the cuts exactly when no LFLF or CRCR ends before it. */
  lemma HeadersStableExactly(s: string)
    ensures HeadersStable(s) <==> !EarlierDelimiter(s)
  {
    hide HeadersStable, EarlierDelimiter;
    if EarlierDelimiter(s) {
      UnstableThen(s);
    } else {
      StableThen(s);
    }
  }

  predicate EndsBare(s: string)
  {
    && SplitHttpHeaders(s).Some? && SplitHttpHeaders(s).value.headerSectionEnd == |s|
    && PreflightOf(s) == Preflight("", "", "")
  }

  /** Where two ends of headers compete, the cut decides which request is read first. */
  lemma CutsDecide(a: string, b: string, up: bool)
    requires EndsBare(a) && EndsBare(a + b) && a != "" && |a + b| <= BUFFER_SIZE
    ensures var c1 := Conn([a, b], "", 0, [], up);
            var c2 := Conn([a + b], "", 0, [], up);
            Bytes(c1) == Bytes(c2) && Next(c1, 0).outcome == Request(a) && Next(c2, 0).outcome == Request(a + b)
  {
    var c1 := Conn([a, b], "", 0, [], up);
    var c2 := Conn([a + b], "", 0, [], up);
    assert c1.input[1..] == [b] && [b][1..] == [] && c2.input[1..] == [];
    hide SplitHttpHeaders, PreflightOf, Next;
    OnePiece(c1, a);
    OnePiece(c2, a + b);
  }

  /** Such headers exist: a bare LFLF before the CRLFCRLF. */
  lemma BareNewlinesDecide(a: string, b: string)
    requires a == "G\n\n" && b == "X\r\n\r\n"
    ensures EndsBare(a) && EndsBare(a + b) && a != "" && |a + b| <= BUFFER_SIZE
  {
    assert a + b == "G\n\nX\r\n\r\n";
    BareSplit();
    FullSplit();
    TheyHaveNoFields();
    hide SplitHttpHeaders, PreflightOf;
  }

  lemma BareSplit()
    ensures SplitHttpHeaders("G\n\n") == Some(HeaderSplit(3, 2))
  {
    var s := "G\n\n";
    assert Find(s, CRLFCRLF, 0).None?;
    assert s[1..3] == "\n\n" && s[0..2][0] == 'G';
    FindUnique(s, "\n\n", 0, 1);
  }

  lemma FullSplit()
    ensures SplitHttpHeaders("G\n\nX\r\n\r\n") == Some(HeaderSplit(8, 4))
  {
    var s := "G\n\nX\r\n\r\n";
    assert s[4..8] == CRLFCRLF;
    forall k | 0 <= k < 4 ensures !OccursAt(s, CRLFCRLF, k) {
      assert s[k..k + 4][0] == s[k] != '\r';
    }
    FindUnique(s, CRLFCRLF, 0, 4);
  }

  lemma TheyHaveNoFields()
    ensures PreflightOf("G\n\n") == Preflight("", "", "")
    ensures PreflightOf("G\n\nX\r\n\r\n") == Preflight("", "", "")
  {
    hide PreflightOf;
    var whole := "G\n\nX\r\n\r\n";
    assert whole[0] == 'G' && whole[1] == '\n' && whole[2] == '\n' && whole[3] == 'X';
    assert whole[4] == '\r' && whole[5] == '\n' && whole[6] == '\r' && whole[7] == '\n';
    NoFields(whole);
    NoFields("G\n\n");
  }

  predicate NoColon(s: string) { forall k :: 0 <= k < |s| ==> s[k] != ':' }

  lemma NoValue(line: string, name: string)
    requires NoColon(line)
    ensures ValueOf(line, name) == ""
  {
    forall k | 0 <= k ensures !OccursAt(line, ":", k) {
      if k < |line| {
        assert line[k..k + 1][0] == line[k];
      }
    }
  }

  lemma {:induction false} NoFirstValue(s: string, name: string)
    requires NoColon(s)
    ensures FirstValue(Lines(s), name) == ""
    decreases |s|
  {
    if s != "" {
      LinesStep(s);
      FindBound(s, "\n");
      var n := Find(s, "\n", 0);
      var line := if n.None? then s else s[..n.value];
      var rest := if n.None? then "" else s[n.value + 1..];
      assert NoColon(DropCr(line)) && NoColon(rest);
      hide Lines, Find, ValueOf, NoColon, DropCr;
      NoValue(DropCr(line), name);
      NoFirstValue(rest, name);
      FirstLine(DropCr(line), Lines(rest), name);
    } else {
      LinesEnd();
    }
  }

  lemma FirstLine(line: string, rest: seq<string>, name: string)
    ensures FirstValue([line] + rest, name) == if ValueOf(line, name) != "" then ValueOf(line, name) else FirstValue(rest, name)
  {
    assert ([line] + rest)[1..] == rest;
  }

  lemma NoFields(s: string)
    requires NoColon(s)
    ensures PreflightOf(s) == Preflight("", "", "")
  {
    FindBound(s, "\n");
    var n := Find(s, "\n", 0);
    hide Find;
    if n.Some? {
      NoFirstValue(s[n.value + 1..], "expect");
      NoFirstValue(s[n.value + 1..], "content-length");
      NoFirstValue(s[n.value + 1..], "transfer-encoding");
    }
  }

  lemma OnePiece(c: Conn, piece: string)
    requires c.pending == "" && c.input != [] && c.input[0] == piece && 0 < |piece| <= BUFFER_SIZE
    requires SplitHttpHeaders(piece).Some? && SplitHttpHeaders(piece).value.headerSectionEnd == |piece|
    requires PreflightOf(piece) == Preflight("", "", "")
    ensures Next(c, 0).outcome == Request(piece)
  {
    hide SplitHttpHeaders, PreflightOf;
    assert piece[..|piece|] == piece;
  }

  // ----- which messages are framed --------------------------------------------------------------

  /** Headers that end at the first CRLFCRLF with no bare delimiter before it. */
  ghost predicate PlainHead(head: string)
  {
    SplitHttpHeaders(head) == Some(HeaderSplit(|head|, 4)) && |head| <= MAX_HEADER_BYTES && !EarlierDelimiter(head)
  }

  lemma NothingEarlier(head: string)
    requires PlainHead(head)
    ensures NoEarlyEnd(head, |head|)
  {
    hide EarlierDelimiter;
    forall n | 0 <= n < |head| ensures SplitHttpHeaders(head[..n]).None? {
      if SplitHttpHeaders(head[..n]).Some? {
        ShortSplit(head, n);
      }
    }
  }

  /** Such headers and a body that fits them are a framed message. */
  lemma PlainIsFramed(head: string, body: string)
    requires PlainHead(head) && BodyFits(head + body, |head|)
    requires PlanOf(PreflightOf(head)).Chunked? ==> |body| + BUFFER_SIZE - 1 <= MAX_BODY_BYTES
    ensures Framed(head + body)
  {
    HeadFacts(head);
    NothingEarlier(head);
    hide *;
    var m := head + body;
    assert m[..|head|] == head;
    SameEarly(head, body);
    FramedShape(m, |head|);
  }

  lemma HeadFacts(head: string)
    requires PlainHead(head)
    ensures SplitHttpHeaders(head) == Some(HeaderSplit(|head|, 4)) && |head| <= MAX_HEADER_BYTES
  {
  }

  lemma SameEarly(head: string, body: string)
    requires NoEarlyEnd(head, |head|)
    ensures NoEarlyEnd(head + body, |head|)
  {
    hide SplitHttpHeaders;
    forall n | 0 <= n < |head| ensures SplitHttpHeaders((head + body)[..n]).None? {
      assert (head + body)[..n] == head[..n];
    }
  }

  lemma FramedShape(m: string, h: nat)
    requires h <= |m| && SplitHttpHeaders(m[..h]) == Some(HeaderSplit(h, 4)) && h <= MAX_HEADER_BYTES
    requires NoEarlyEnd(m, h) && BodyFits(m, h)
    requires PlanOf(PreflightOf(m[..h])).Chunked? ==> |m| - h + BUFFER_SIZE - 1 <= MAX_BODY_BYTES
    ensures Framed(m)
  {
    hide SplitHttpHeaders, BodyFits, PlanOf, PreflightOf, NoEarlyEnd;
    assert CompleteAt(m, h);
    assert FramedAt(m, h);
  }

  /** A body of the announced length. */
  lemma FixedIsFramed(head: string, body: string)
    requires PlainHead(head) && PlanOf(PreflightOf(head)) == Fixed(|body|)
    ensures Framed(head + body)
  {
    hide PlainHead, PlanOf, PreflightOf, Framed, ChunkedEnd;
    assert (head + body)[..|head|] == head;
    PlainIsFramed(head, body);
  }

  /** A chunked body: any encoding in the limits. */
  lemma ChunkedIsFramed(head: string, b: Body)
    requires PlainHead(head) && PlanOf(PreflightOf(head)).Chunked? && BodyOk(b)
    requires |Encode(b)| + BUFFER_SIZE - 1 <= MAX_BODY_BYTES
    ensures Framed(head + Encode(b))
  {
    hide PlainHead, PlanOf, PreflightOf, Framed, ChunkedEnd, BodyOk, Encode;
    ChunkedExact(head, b, "");
    assert head + (Encode(b) + "") == head + Encode(b);
    assert (head + Encode(b))[..|head|] == head;
    PlainIsFramed(head, Encode(b));
  }

  /** There are framed messages. */
  lemma SmallestRequest(head: string)
    requires head == "G\r\n\r\n"
    ensures Framed(head)
  {
    SmallHead(head);
    SmallFields(head);
    assert PlanOf(Preflight("", "", "")) == Fixed(0);
    hide *;
    FixedIsFramed(head, "");
    assert head + "" == head;
  }

  lemma SmallFields(head: string)
    requires head == "G\r\n\r\n"
    ensures PreflightOf(head) == Preflight("", "", "")
  {
    assert head[0] == 'G' && head[1] == '\r' && head[2] == '\n' && head[3] == '\r' && head[4] == '\n';
    NoFields(head);
  }

  lemma SmallHead(head: string)
    requires head == "G\r\n\r\n"
    ensures PlainHead(head)
  {
    assert head[1..5] == CRLFCRLF && head[0..4][0] == 'G';
    FindUnique(head, CRLFCRLF, 0, 1);
    forall k: nat | k + 2 < 5 ensures !BareDelimiter(head, k) {
      assert head[k..k + 2][0] == head[k] && head[k..k + 2][1] == head[k + 1];
    }
    hide Find, BareDelimiter;
  }
}
