/**
 Message framing on one connection (src/handler/HttpFraming.cpp). A connection is a value: the pieces the
 socket will deliver, the bytes left over from the last message, the message count and the replies sent.
 `Next` says what one call of the reader does to it; HttpReader does it step by step.
 */
module HttpFraming {
  import opened Chars
  import opened HttpScan

  const BUFFER_SIZE := 8192
  const COUNT_LIMIT := 0x1_0000_0000

  datatype Reply = Continue | BadRequest

  /** `input`: what successive socket reads deliver; an empty piece, or none left, is a read that fails.
      `up`: whether the socket accepts writes. */
  datatype Conn = Conn(input: seq<string>, pending: string, count: nat, sent: seq<Reply>, up: bool)

  datatype Outcome = Request(message: string) | Stop | Abort

  // ----- the socket -----------------------------------------------------------------------------

  function Flat(input: seq<string>): string
  {
    if input == [] then "" else input[0] + Flat(input[1..])
  }

  predicate Pieces(input: seq<string>) { forall k :: 0 <= k < |input| ==> input[k] != "" }

  datatype Got = Got(data: string, rest: seq<string>)

  /** One read into a buffer of `max` bytes; no data means that it failed. */
  function Read(input: seq<string>, max: nat): (r: Got)
    requires max > 0
    ensures r.data + Flat(r.rest) == Flat(input)
    ensures |r.data| <= max && (Pieces(input) ==> Pieces(r.rest) && (r.data == "" ==> Flat(input) == ""))
  {
    if input == [] then Got("", [])
    else if |input[0]| <= max then Got(input[0], input[1..])
    else
      assert input[0] == input[0][..max] + input[0][max..];
      assert ([input[0][max..]] + input[1..])[1..] == input[1..];
      Got(input[0][..max], [input[0][max..]] + input[1..])
  }

  function Bytes(c: Conn): string { c.pending + Flat(c.input) }

  // ----- the specification ----------------------------------------------------------------------

  datatype Filled = Filled(raw: string, rest: seq<string>) | Failed(rest: seq<string>) | TooBig(rest: seq<string>)

  /** Reads until the headers are complete. */
  function ReadHeaders(raw: string, input: seq<string>): (r: Filled)
    decreases |Flat(input)|
  {
    if SplitHttpHeaders(raw).Some? then Filled(raw, input)
    else if |raw| >= MAX_HEADER_BYTES then Failed(input)
    else
      var got := Read(input, BUFFER_SIZE);
      if got.data == "" then Failed(got.rest) else ReadHeaders(raw + got.data, got.rest)
  }

  /** Reads until there are `need` bytes. */
  function ReadBody(raw: string, input: seq<string>, need: nat): (r: Filled)
    decreases |Flat(input)|
  {
    if |raw| >= need then Filled(raw, input)
    else
      var got := Read(input, BUFFER_SIZE);
      if got.data == "" then Failed(got.rest) else ReadBody(raw + got.data, got.rest, need)
  }

  /** Reads until the chunked body that starts at h ends. */
  function ReadChunked(raw: string, input: seq<string>, h: nat): (r: Filled)
    decreases |Flat(input)|
  {
    if ChunkedEnd(raw, h).Some? then Filled(raw, input)
    else
      var got := Read(input, BUFFER_SIZE);
      if got.data == "" then Failed(got.rest)
      else if |raw + got.data| > MAX_BODY_BYTES + h then TooBig(got.rest)
      else ReadChunked(raw + got.data, got.rest, h)
  }

  function Discard(input: seq<string>, n: nat): seq<string>
    decreases n
  {
    if n == 0 then input
    else
      var got := Read(input, if n < BUFFER_SIZE then n else BUFFER_SIZE);
      if got.data == "" then got.rest else Discard(got.rest, n - |got.data|)
  }

  datatype Plan = Malformed | TooLong(length: nat) | Chunked | Fixed(length: nat)

  /** How the body is delimited, from the header section. */
  function PlanOf(p: Preflight): Plan
  {
    if p.contentLength != "" && FullNumber(p.contentLength, 10).None? then Malformed
    else
      var n := if p.contentLength == "" then 0 else FullNumber(p.contentLength, 10).value;
      if n > MAX_BODY_BYTES then TooLong(n)
      else if p.transferEncoding != "" && HasToken(p.transferEncoding, "chunked") then Chunked
      else Fixed(n)
  }

  predicate Expects(p: Preflight) { p.expectation != "" && IsContinue(p.expectation) }

  function Send(c: Conn, reply: Reply): Conn { if c.up then c.(sent := c.sent + [reply]) else c }

  datatype Result = Result(outcome: Outcome, conn: Conn)

  function Emit(c: Conn, raw: string, end: nat): Result
    requires end <= |raw|
  {
    Result(Request(raw[..end]), c.(pending := raw[end..]))
  }

  /** After the headers: `raw` holds them and perhaps more. */
  function Body(c: Conn, raw: string): Result
    requires SplitHttpHeaders(raw).Some?
  {
    var h := SplitHttpHeaders(raw).value.headerSectionEnd;
    var p := PreflightOf(raw[..h]);
    var c1 := if Expects(p) then Send(c, Continue) else c;
    if Expects(p) && !c.up then Result(Abort, c1) else BodyBy(c1, raw, h, PlanOf(p))
  }

  function BodyBy(c: Conn, raw: string, h: nat, plan: Plan): Result
    requires h <= |raw|
  {
    match plan
    case Malformed => Result(Abort, Send(c, BadRequest))
    case TooLong(n) =>
      var already := |raw| - h;
      Result(Abort, Send(c, BadRequest).(input := Discard(c.input, if n > already then n - already else 0)))
    case Chunked =>
      var f := ReadChunked(raw, c.input, h);
      if f.Failed? then Result(Abort, c.(input := f.rest))
      else if f.TooBig? then Result(Abort, Send(c, BadRequest).(input := f.rest))
      else ReadChunkedEnds(raw, c.input, h); Emit(c.(input := f.rest), f.raw, ChunkedEnd(f.raw, h).value)
    case Fixed(n) =>
      var f := ReadBody(raw, c.input, h + n);
      ReadBodyEnds(raw, c.input, h + n);
      if f.Filled? then Emit(c.(input := f.rest), f.raw, h + n) else Result(Abort, c.(input := f.rest))
  }

  function Headers(c: Conn, raw: string): Result
  {
    var f := ReadHeaders(raw, c.input);
    ReadHeadersEnds(raw, c.input);
    if f.Filled? then Body(c.(input := f.rest), f.raw) else Result(Abort, c.(input := f.rest))
  }

  /** One call of the reader: `maxRequests` is the limit per connection, 0 for none. */
  function Next(c: Conn, maxRequests: nat): Result
  {
    if maxRequests != 0 && c.count >= maxRequests then Result(Stop, c)
    else
      var c1 := c.(count := (c.count + 1) % COUNT_LIMIT, pending := "");
      if c.pending != "" then Headers(c1, c.pending)
      else
        var got := Read(c.input, BUFFER_SIZE);
        var c2 := c1.(input := got.rest);
        if got.data == "" then Result(Stop, c2) else Headers(c2, got.data)
  }

  // ----- what the read loops leave --------------------------------------------------------------

  lemma {:induction false} ReadHeadersEnds(raw: string, input: seq<string>)
    ensures var f := ReadHeaders(raw, input);
            !f.TooBig? && (f.Filled? ==> f.raw + Flat(f.rest) == raw + Flat(input) && SplitHttpHeaders(f.raw).Some?)
    decreases |Flat(input)|
  {
    hide SplitHttpHeaders;
    var got := Read(input, BUFFER_SIZE);
    if SplitHttpHeaders(raw).None? && |raw| < MAX_HEADER_BYTES && got.data != "" {
      ReadHeadersEnds(raw + got.data, got.rest);
      assert (raw + got.data) + Flat(got.rest) == raw + (got.data + Flat(got.rest));
    }
  }

  lemma {:induction false} ReadBodyEnds(raw: string, input: seq<string>, need: nat)
    ensures var f := ReadBody(raw, input, need);
            !f.TooBig? && (f.Filled? ==> |f.raw| >= need && raw <= f.raw && f.raw + Flat(f.rest) == raw + Flat(input))
    decreases |Flat(input)|
  {
    var got := Read(input, BUFFER_SIZE);
    if |raw| < need && got.data != "" {
      ReadBodyEnds(raw + got.data, got.rest, need);
      assert (raw + got.data) + Flat(got.rest) == raw + (got.data + Flat(got.rest));
    }
  }

  lemma {:induction false} ReadChunkedEnds(raw: string, input: seq<string>, h: nat)
    ensures var f := ReadChunked(raw, input, h);
            f.Filled? ==> ChunkedEnd(f.raw, h).Some? && raw <= f.raw && f.raw + Flat(f.rest) == raw + Flat(input)
    decreases |Flat(input)|
  {
    hide ChunkedEnd;
    var got := Read(input, BUFFER_SIZE);
    if ChunkedEnd(raw, h).None? && got.data != "" && |raw + got.data| <= MAX_BODY_BYTES + h {
      ReadChunkedEnds(raw + got.data, got.rest, h);
      assert (raw + got.data) + Flat(got.rest) == raw + (got.data + Flat(got.rest));
    }
  }
}
