/** The message reader of one connection, step by step (src/handler/HttpFraming.cpp:60-251). */
module HttpReader {
  import opened Chars
  import opened HttpScan
  import HttpChunks
  import HttpLengths
  import opened HttpFraming

  /** In no scan from h of any front of these bytes a 64-bit sum comes out behind. */
  ghost predicate ScansFit(bytes: string, h: nat)
  {
    |bytes| < SIZE_LIMIT - 2 && forall n: nat :: n <= |bytes| ==> OnCourse(bytes[..n], h)
  }

  /** If the headers that end at h announce a chunked body, its scans fit. */
  ghost predicate ChunkedFits(bytes: string, h: nat)
    requires h <= |bytes|
  {
    PlanOf(PreflightOf(bytes[..h])).Chunked? ==> ScansFit(bytes, h)
  }

  /** So it is wherever the headers may be found to end. */
  ghost predicate FitsSize(bytes: string)
  {
    forall n: nat :: n <= |bytes| && SplitHttpHeaders(bytes[..n]).Some? ==>
      ChunkedFits(bytes, SplitHttpHeaders(bytes[..n]).value.headerSectionEnd)
  }

  lemma FrontFits(bytes: string, raw: string, rest: string, pos: nat)
    requires ScansFit(bytes, pos) && raw + rest == bytes
    ensures OnCourse(raw, pos) && |raw| < SIZE_LIMIT - 2
  {
    hide OnCourse;
    assert raw == bytes[..|raw|];
  }

  /** Bytes in which a chunked body ends can be scanned. */
  lemma EndedFits(bytes: string, h: nat)
    requires ChunkedEnd(bytes, h).Some? && |bytes| < SIZE_LIMIT - 2
    ensures ScansFit(bytes, h)
  {
    hide ChunkedEnd, OnCourse;
    forall n: nat | n <= |bytes| ensures OnCourse(bytes[..n], h) {
      HttpChunks.FoundFits(bytes, n, h);
    }
  }

  lemma HeadersFit(bytes: string, raw: string, rest: string)
    requires FitsSize(bytes) && raw + rest == bytes && SplitHttpHeaders(raw).Some?
    ensures var h := SplitHttpHeaders(raw).value.headerSectionEnd;
            h <= |bytes| && bytes[..h] == raw[..h] && ChunkedFits(bytes, h)
  {
    hide SplitHttpHeaders, ChunkedFits;
    assert raw == bytes[..|raw|];
  }

  lemma MoreRead(raw: string, data: string, rest: string)
    ensures (raw + data) + rest == raw + (data + rest)
  {
  }

  class Framing {
    /** The other end of the socket: what reads will deliver, what was sent, and whether writes succeed. */
    var input: seq<string>
    var sent: seq<Reply>
    var up: bool
    var pendingRequestData: string
    var messageCount: nat

    constructor (input: seq<string>, up: bool)
      ensures AsConn() == Conn(input, "", 0, [], up)
    {
      this.input, this.up := input, up;
      sent, pendingRequestData, messageCount := [], "", 0;
    }

    ghost function AsConn(): Conn
      reads this
    {
      Conn(input, pendingRequestData, messageCount, sent, up)
    }

    /** At most `max` bytes; none when the read fails. */
    method ReadSocket(max: nat) returns (data: string)
      requires max > 0
      modifies this`input
      ensures Got(data, input) == Read(old(input), max) && |data| <= max
    {
      if input == [] {
        return "";
      }
      if |input[0]| <= max {
        data := input[0];
        input := input[1..];
      } else {
        data := input[0][..max];
        input := [input[0][max..]] + input[1..];
      }
    }

    method SendSocket(reply: Reply) returns (ok: bool)
      modifies this`sent
      ensures ok == up && AsConn() == Send(old(AsConn()), reply)
    {
      if up {
        sent := sent + [reply];
      }
      ok := up;
    }

    method DiscardFromSocket(byteCount: nat)
      modifies this`input
      ensures input == Discard(old(input), byteCount)
    {
      var left: nat := byteCount;
      while left > 0
        invariant Discard(input, left) == Discard(old(input), byteCount)
        decreases left
      {
        var got := ReadSocket(if left < BUFFER_SIZE then left else BUFFER_SIZE);
        if got == "" {
          return;
        }
        left := left - |got|;
      }
    }

    /** Reads until the headers are complete, or gives up. */
    method FillHeaders(first: string) returns (raw: string, ok: bool)
      modifies this`input
      ensures var f := ReadHeaders(first, old(input)); f == if ok then Filled(raw, input) else Failed(input)
    {
      hide SplitHttpHeaders, Read, Flat;
      raw := first;
      while SplitHttpHeaders(raw).None?
        invariant ReadHeaders(raw, input) == ReadHeaders(first, old(input))
        decreases |Flat(input)|
      {
        if |raw| >= MAX_HEADER_BYTES {
          return raw, false;
        }
        ghost var before := input;
        var got := ReadSocket(BUFFER_SIZE);
        if got == "" {
          return raw, false;
        }
        assert |got| + |Flat(input)| == |got + Flat(input)| == |Flat(before)|;
        raw := raw + got;
      }
      ok := true;
    }

    method FillBody(first: string, need: nat) returns (raw: string, ok: bool)
      modifies this`input
      ensures var f := ReadBody(first, old(input), need); f == if ok then Filled(raw, input) else Failed(input)
    {
      hide Read, Flat;
      raw := first;
      while |raw| < need
        invariant ReadBody(raw, input, need) == ReadBody(first, old(input), need)
        decreases |Flat(input)|
      {
        ghost var before := input;
        var got := ReadSocket(BUFFER_SIZE);
        if got == "" {
          return raw, false;
        }
        assert |got| + |Flat(input)| == |got + Flat(input)| == |Flat(before)|;
        raw := raw + got;
      }
      ok := true;
    }

    /** Reads until the chunked body that starts at h ends; `end` is where, if it was found. */
    method FillChunked(first: string, h: nat) returns (raw: string, end: Option<nat>)
      requires ScansFit(first + Flat(input), h)
      modifies this
      ensures var f := ReadChunked(first, old(input), h);
              && f == (if end.Some? then Filled(raw, input) else if f.TooBig? then TooBig(input) else Failed(input))
              && (end.Some? ==> ChunkedEnd(raw, h) == end)
              && AsConn() == (if f.TooBig? then Send(old(AsConn()), BadRequest) else old(AsConn())).(input := input)
    {
      hide Read, Flat, ChunkedEnd, ScansFit;
      raw := first;
      ghost var all := first + Flat(input);
      while true
        invariant ReadChunked(raw, input, h) == ReadChunked(first, old(input), h)
        invariant raw + Flat(input) == all && AsConn() == old(AsConn()).(input := input)
        decreases |Flat(input)|
      {
        FrontFits(all, raw, Flat(input), h);
        end := FindChunkedBodyEnd(raw, h);
        if end.Some? {
          return;
        }
        ghost var before := input;
        var got := ReadSocket(BUFFER_SIZE);
        if got == "" {
          return;
        }
        MoreRead(raw, got, Flat(input));
        assert |got| + |Flat(input)| == |got + Flat(input)| == |Flat(before)|;
        ghost var was := raw;
        raw := raw + got;
        if |raw| > MAX_BODY_BYTES + h {
          var _ := SendSocket(BadRequest);
          return;
        }
      }
    }

    /** How the body is delimited. */
    method PlanBody(preflight: Preflight) returns (plan: Plan)
      ensures plan == PlanOf(preflight)
      ensures (exists k :: 0 <= k < |preflight.contentLength| && !('0' <= preflight.contentLength[k] <= '9'))
              ==> plan.Malformed?
      ensures forall n: nat :: (preflight.contentLength == Decimal(n) || (n == 0 && preflight.contentLength == "")) ==>
                plan == if n >= 0x1_0000_0000_0000_0000 then Malformed
                        else if n > 16777216 then TooLong(n)
                        else if HasToken(preflight.transferEncoding, "chunked") then Chunked
                        else Fixed(n)
    {
      hide FullNumber, HasToken, Decimal;
      HttpLengths.DecimalsRead(preflight.contentLength);
      EmptyHasNoToken("chunked");
      var bodyExpected := 0;
      if preflight.contentLength != "" {
        var n := FullNumber(preflight.contentLength, 10);
        if n.None? {
          return Malformed;
        }
        bodyExpected := n.value;
      }
      var hasChunked := false;
      if preflight.transferEncoding != "" {
        hasChunked := HeaderHasToken(preflight.transferEncoding, "chunked");
      }
      if bodyExpected > MAX_BODY_BYTES {
        return TooLong(bodyExpected);
      }
      plan := if hasChunked then Chunked else Fixed(bodyExpected);
    }

    /** The body by its plan; `first` holds the headers and perhaps more. */
    method ReadBodyBy(first: string, headerEnd: nat, plan: Plan) returns (outcome: Outcome)
      requires headerEnd <= |first| && pendingRequestData == ""
      requires plan.Chunked? ==> ScansFit(first + Flat(input), headerEnd)
      modifies this
      ensures Result(outcome, AsConn()) == BodyBy(old(AsConn()), first, headerEnd, plan)
    {
      hide ChunkedEnd, ScansFit, ReadChunked, ReadBody, Discard, Flat;
      if plan.Malformed? {
        var _ := SendSocket(BadRequest);
        return Abort;
      }
      if plan.TooLong? {
        var _ := SendSocket(BadRequest);
        var already := |first| - headerEnd;
        DiscardFromSocket(if plan.length > already then plan.length - already else 0);
        return Abort;
      }
      var raw, needTotal := first, headerEnd;
      if plan.Chunked? {
        ReadChunkedEnds(raw, input, headerEnd);
        var end;
        raw, end := FillChunked(raw, headerEnd);
        if end.None? {
          return Abort;
        }
        needTotal := end.value;
      } else {
        needTotal := headerEnd + plan.length;
        ReadBodyEnds(raw, input, needTotal);
        var ok;
        raw, ok := FillBody(raw, needTotal);
        if !ok {
          return Abort;
        }
      }
      outcome := Request(raw[..needTotal]);
      pendingRequestData := raw[needTotal..];
    }

    /** What follows the headers that are in `first`. */
    method ReadBodyOf(first: string) returns (outcome: Outcome)
      requires SplitHttpHeaders(first).Some? && FitsSize(first + Flat(input)) && pendingRequestData == ""
      modifies this
      ensures Result(outcome, AsConn()) == Body(old(AsConn()), first)
    {
      hide SplitHttpHeaders, PreflightOf, FitsSize, ScansFit, Flat, IsContinue, PlanOf, BodyBy;
      HeadersFit(first + Flat(input), first, Flat(input));
      var headerEnd := SplitHttpHeaders(first).value.headerSectionEnd;
      var preflight := ParseHeaderPreflight(first[..headerEnd]);
      if preflight.expectation != "" && IsContinue(preflight.expectation) {
        var sentOk := SendSocket(Continue);
        if !sentOk {
          return Abort;
        }
      }
      var plan := PlanBody(preflight);
      outcome := ReadBodyBy(first, headerEnd, plan);
    }

    /** One request of this connection. */
    method ReadNextRequest(maxRequestsPerConnection: nat) returns (outcome: Outcome)
      requires FitsSize(Bytes(AsConn()))
      modifies this
      ensures Result(outcome, AsConn()) == Next(old(AsConn()), maxRequestsPerConnection)
    {
      hide SplitHttpHeaders, FitsSize, ReadHeaders, Body;
      if maxRequestsPerConnection != 0 && messageCount >= maxRequestsPerConnection {
        return Stop;
      }
      messageCount := (messageCount + 1) % COUNT_LIMIT;
      var raw := pendingRequestData;
      pendingRequestData := "";
      ghost var all := raw + Flat(input);
      if raw == "" {
        raw := ReadSocket(BUFFER_SIZE);
        assert "" + Flat(old(input)) == raw + Flat(input);
        if raw == "" {
          return Stop;
        }
      }
      ReadHeadersEnds(raw, input);
      var ok;
      raw, ok := FillHeaders(raw);
      if !ok {
        return Abort;
      }
      outcome := ReadBodyOf(raw);
    }
  }
}
