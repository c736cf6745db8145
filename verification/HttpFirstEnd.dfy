/**
 Where the headers of a stream are found to end, for every way of cutting it into reads, and which messages are
 read first however they are cut (src/handler/HttpFraming.cpp:116-251).
 */
module HttpFirstEnd {
  import opened Chars
  import opened HttpScan
  import opened HttpFraming
  import opened HttpCuts

  // ----- connections that deliver a stream ------------------------------------------------------

  /** The next bytes are s: some of them may be left over from an earlier read, the others come in any pieces. */
  predicate Delivers(c: Conn, s: string) { Pieces(c.input) && Bytes(c) == s && |c.pending| <= BUFFER_SIZE }

  function HeadersOf(c: Conn): Filled { ReadHeaders(c.pending, c.input) }

  /** The end of the headers that one call of the reader finds, if it finds any. */
  function EndSeen(c: Conn): Option<nat>
  {
    var f := HeadersOf(c);
    ReadHeadersEnds(c.pending, c.input);
    if f.Filled? then Some(SplitHttpHeaders(f.raw).value.headerSectionEnd) else None
  }

  lemma EmptyHasNoEnd()
    ensures SplitHttpHeaders("").None?
  {
  }

  /** A call of the reader goes on from the headers so found. */
  lemma NextByHeaders(c: Conn, maxRequests: nat)
    requires Pieces(c.input) && Bytes(c) != "" && Allowed(c.count, maxRequests)
    ensures var f := HeadersOf(c);
            var c1 := c.(count := (c.count + 1) % COUNT_LIMIT, pending := "", input := f.rest);
            && (f.Filled? ==> SplitHttpHeaders(f.raw).Some? && Next(c, maxRequests) == Body(c1, f.raw))
            && (!f.Filled? ==> Next(c, maxRequests) == Result(Abort, c1))
  {
    EmptyHasNoEnd();
    hide SplitHttpHeaders, Body;
    ReadHeadersEnds(c.pending, c.input);
    if c.pending == "" {
      var got := Read(c.input, BUFFER_SIZE);
      assert "" + Flat(c.input) == Flat(c.input) && "" + got.data == got.data;
      ReadHeadersEnds(got.data, got.rest);
    }
  }

  // ----- what is left over ----------------------------------------------------------------------

  predicate LittleOver(raw: string, end: nat) { |raw| <= end + BUFFER_SIZE }

  lemma {:induction false} HeadersLeave(raw: string, input: seq<string>)
    requires SplitHttpHeaders(raw).Some? ==> LittleOver(raw, SplitHttpHeaders(raw).value.headerSectionEnd)
    ensures var f := ReadHeaders(raw, input);
            f.Filled? ==>
              SplitHttpHeaders(f.raw).Some? && LittleOver(f.raw, SplitHttpHeaders(f.raw).value.headerSectionEnd)
    decreases |Flat(input)|
  {
    hide SplitHttpHeaders;
    var got := Read(input, BUFFER_SIZE);
    if SplitHttpHeaders(raw).None? && |raw| < MAX_HEADER_BYTES && got.data != "" {
      var more := raw + got.data;
      assert more[..|raw|] == raw;
      if SplitHttpHeaders(more).Some? && SplitHttpHeaders(more).value.headerSectionEnd <= |raw| {
        SplitCut(more, |raw|);
      }
      HeadersLeave(more, got.rest);
    }
  }

  lemma {:induction false} BodyLeaves(raw: string, input: seq<string>, need: nat)
    ensures var f := ReadBody(raw, input, need); f.Filled? ==> f.raw == raw || LittleOver(f.raw, need)
    decreases |Flat(input)|
  {
    var got := Read(input, BUFFER_SIZE);
    if |raw| < need && got.data != "" {
      BodyLeaves(raw + got.data, got.rest, need);
    }
  }

  lemma {:induction false} ChunkedLeaves(raw: string, input: seq<string>, h: nat)
    ensures var f := ReadChunked(raw, input, h);
            f.Filled? ==> ChunkedEnd(f.raw, h).Some? && (f.raw == raw || LittleOver(f.raw, ChunkedEnd(f.raw, h).value))
    decreases |Flat(input)|
  {
    hide ChunkedEnd;
    var got := Read(input, BUFFER_SIZE);
    if ChunkedEnd(raw, h).None? && got.data != "" && |raw + got.data| <= MAX_BODY_BYTES + h {
      var more := raw + got.data;
      assert more[..|raw|] == raw;
      if ChunkedEnd(more, h).Some? && ChunkedEnd(more, h).value <= |raw| {
        ChunkedCut(more, |raw|, h);
      }
      ChunkedLeaves(more, got.rest, h);
    }
  }

  lemma ByLeaves(c: Conn, raw: string, h: nat, plan: Plan)
    requires h <= |raw| && LittleOver(raw, h) && c.pending == ""
    ensures |BodyBy(c, raw, h, plan).conn.pending| <= BUFFER_SIZE
  {
    hide ChunkedEnd, ReadChunked, ReadBody, Discard;
    ReadChunkedEnds(raw, c.input, h);
    ChunkedLeaves(raw, c.input, h);
    var f := ReadChunked(raw, c.input, h);
    if f.Filled? {
      ChunkedEndInside(f.raw, h);
    }
    var need := h + if plan.Fixed? then plan.length else 0;
    ReadBodyEnds(raw, c.input, need);
    BodyLeaves(raw, c.input, need);
  }

  lemma HeadersLeaveLittle(c: Conn, raw: string)
    requires |raw| <= BUFFER_SIZE && c.pending == ""
    ensures |Headers(c, raw).conn.pending| <= BUFFER_SIZE
  {
    hide SplitHttpHeaders, ReadHeaders, PlanOf, PreflightOf, Expects, BodyBy;
    ReadHeadersEnds(raw, c.input);
    HeadersLeave(raw, c.input);
    var f := ReadHeaders(raw, c.input);
    if f.Filled? {
      var h := SplitHttpHeaders(f.raw).value.headerSectionEnd;
      var p := PreflightOf(f.raw[..h]);
      var c1 := c.(input := f.rest);
      ByLeaves(if Expects(p) then Send(c1, Continue) else c1, f.raw, h, PlanOf(p));
    }
  }

  /** Never more than one buffer is kept for the next message. */
  lemma LittleIsKept(c: Conn, maxRequests: nat)
    requires |c.pending| <= BUFFER_SIZE
    ensures |Next(c, maxRequests).conn.pending| <= BUFFER_SIZE
  {
    hide Headers;
    if Allowed(c.count, maxRequests) {
      var c1 := c.(count := (c.count + 1) % COUNT_LIMIT, pending := "");
      HeadersLeaveLittle(c1, c.pending);
      var got := Read(c.input, BUFFER_SIZE);
      HeadersLeaveLittle(c1.(input := got.rest), got.data);
    }
  }

  // ----- the first end --------------------------------------------------------------------------

  /** e is the least length at which a front of s splits. */
  ghost predicate FirstEnd(s: string, e: nat)
  {
    e <= |s| && SplitHttpHeaders(s[..e]).Some? && NoEarlyEnd(s, e)
  }

  /** The end of the headers that is seen in the first n bytes. */
  function EndIn(s: string, n: nat): (r: nat)
    requires n <= |s| && SplitHttpHeaders(s[..n]).Some?
    ensures 0 < r <= n
  {
    SplitHttpHeaders(s[..n]).value.headerSectionEnd
  }

  predicate Ends(s: string, n: nat, pat: string) { |pat| <= n && OccursAt(s, pat, n - |pat|) }

  lemma SplitsLater(s: string, n: nat, k: nat)
    requires n <= k <= |s| && SplitHttpHeaders(s[..n]).Some?
    ensures SplitHttpHeaders(s[..k]).Some?
  {
    hide SplitHttpHeaders;
    assert s[..k][..n] == s[..n];
    PrefixSplits(s[..k], n);
  }

  predicate Delimiter(pat: string) { pat == CRLFCRLF || pat == "\n\n" || pat == "\r\r" }

  lemma EndsSplits(s: string, n: nat, pat: string)
    requires Delimiter(pat) && n <= |s| && Ends(s, n, pat)
    ensures SplitHttpHeaders(s[..n]).Some?
  {
    hide Find;
    OccursCut(s, n, pat, n - |pat|);
    FindFacts(s[..n], pat, 0);
  }

  /** No delimiter ends before the first end. */
  lemma NoneBefore(s: string, e: nat, pat: string, n: nat)
    requires FirstEnd(s, e) && Delimiter(pat) && n < e
    ensures !Ends(s, n, pat)
  {
    hide SplitHttpHeaders, Delimiter, Ends;
    if Ends(s, n, pat) {
      EndsSplits(s, n, pat);
    }
  }

  /** What the splitter says of a front, without looking into it. */
  lemma SplitCases(s: string, n: nat)
    requires n <= |s|
    ensures var c, l, r := Find(s[..n], CRLFCRLF, 0), Find(s[..n], "\n\n", 0), Find(s[..n], "\r\r", 0);
            SplitHttpHeaders(s[..n])
            == if c.Some? then Some(HeaderSplit(c.value + 4, 4))
               else if l.Some? then Some(HeaderSplit(l.value + 2, 2))
               else if r.Some? then Some(HeaderSplit(r.value + 2, 2)) else None
  {
  }

  /** A delimiter found in a front ends at the first end or later; if it ends at the first end it is the one found. */
  lemma FoundIn(s: string, e: nat, n: nat, pat: string)
    requires FirstEnd(s, e) && Delimiter(pat) && e <= n <= |s|
    ensures var r := Find(s[..n], pat, 0);
            && (r.Some? ==> e <= r.value + |pat| <= n && Ends(s, r.value + |pat|, pat))
            && (Ends(s, e, pat) ==> r == Some(e - |pat|))
            && (r.None? ==> forall k :: e <= k <= n ==> !Ends(s, k, pat))
  {
    hide Find, FirstEnd, Delimiter;
    FindFacts(s[..n], pat, 0);
    var r := Find(s[..n], pat, 0);
    if r.Some? {
      OccursCut(s, n, pat, r.value);
      if r.value + |pat| < e {
        NoneBefore(s, e, pat, r.value + |pat|);
      }
    }
    forall k | |pat| <= k <= n ensures OccursAt(s[..n], pat, k - |pat|) == Ends(s, k, pat) {
      OccursCut(s, n, pat, k - |pat|);
    }
    assert |pat| <= e ==> OccursAt(s[..n], pat, e - |pat|) == Ends(s, e, pat);
  }

  /** Up to n nothing is preferred to the delimiter that ends at e: CRLFCRLF is preferred to LFLF, and that to CRCR. */
  ghost predicate Undisputed(s: string, e: nat, n: nat)
  {
    || Ends(s, e, CRLFCRLF)
    || forall k :: e < k <= n ==> !Ends(s, k, CRLFCRLF) && (Ends(s, e, "\r\r") ==> !Ends(s, k, "\n\n"))
  }

  lemma UndisputedIs(s: string, e: nat, n: nat, crlf: string, lf: string, cr: string)
    requires crlf == CRLFCRLF && lf == "\n\n" && cr == "\r\r"
    ensures Undisputed(s, e, n) <==>
            Ends(s, e, crlf) || forall k :: e < k <= n ==> !Ends(s, k, crlf) && (Ends(s, e, cr) ==> !Ends(s, k, lf))
    ensures Delimiter(crlf) && Delimiter(lf) && Delimiter(cr) && |crlf| == 4 && |lf| == |cr| == 2
    ensures !(Ends(s, e, lf) && Ends(s, e, cr))
  {
    if Ends(s, e, lf) {
      assert s[e - 2..e][0] == '\n';
    }
  }

  /** In the first n bytes the end of the headers is the first one exactly when nothing up to n is preferred to it. */
  lemma EndIsFirst(s: string, e: nat, n: nat)
    requires FirstEnd(s, e) && e <= n <= |s|
    ensures SplitHttpHeaders(s[..n]).Some? && (EndIn(s, n) == e <==> Undisputed(s, e, n))
  {
    SplitsLater(s, e, n);
    var crlf, lf, cr := CRLFCRLF, "\n\n", "\r\r";
    UndisputedIs(s, e, n, crlf, lf, cr);
    SplitCases(s, n);
    SplitCases(s, e);
    hide SplitHttpHeaders, Undisputed, Ends, Find, FirstEnd, Delimiter;
    FoundIn(s, e, n, crlf);
    FoundIn(s, e, n, lf);
    FoundIn(s, e, n, cr);
    FoundIn(s, e, e, crlf);
    FoundIn(s, e, e, lf);
    FoundIn(s, e, e, cr);
  }

  // ----- what every cut can see -----------------------------------------------------------------

  function Least(a: nat, b: nat): nat { if a < b then a else b }

  /** The longest front that can be in memory when the first end at e is seen. */
  function Reach(s: string, e: nat): nat { Least(|s|, e + BUFFER_SIZE - 1) }

  /** Whatever the pieces: the front read is at most one buffer longer than needed. */
  lemma {:induction false} ReadWithin(s: string, e: nat, raw: string, input: seq<string>)
    requires FirstEnd(s, e) && Pieces(input) && raw + Flat(input) == s && |raw| < e + BUFFER_SIZE
    ensures var f := ReadHeaders(raw, input);
            && (f.Filled? ==> e <= |f.raw| <= Reach(s, e) && f.raw == s[..|f.raw|])
            && (f.Filled? ==> Pieces(f.rest) && f.raw + Flat(f.rest) == s)
            && (e <= MAX_HEADER_BYTES ==> f.Filled?)
            && (e >= MAX_HEADER_BYTES + BUFFER_SIZE && |raw| < e ==> !f.Filled?)
    decreases |Flat(input)|
  {
    hide SplitHttpHeaders, FirstEnd;
    assert raw == s[..|raw|];
    assert |raw| + |Flat(input)| == |s|;
    SplitsExactly(s, e, |raw|);
    if |raw| < e && |raw| < MAX_HEADER_BYTES {
      var got := Read(input, BUFFER_SIZE);
      assert (raw + got.data) + Flat(got.rest) == raw + (got.data + Flat(got.rest));
      ReadWithin(s, e, raw + got.data, got.rest);
    }
  }

  /** A front splits exactly from the first end on. */
  lemma SplitsExactly(s: string, e: nat, n: nat)
    requires FirstEnd(s, e) && n <= |s|
    ensures SplitHttpHeaders(s[..n]).Some? <==> e <= n
    ensures 0 < e <= |s|
  {
    hide SplitHttpHeaders;
    EmptyHasNoEnd();
    assert s[..0] == "";
    if e <= n {
      SplitsLater(s, e, n);
    }
  }

  lemma {:induction false} NothingRead(s: string, raw: string, input: seq<string>)
    requires raw + Flat(input) == s && forall n :: 0 <= n <= |s| ==> SplitHttpHeaders(s[..n]).None?
    ensures !ReadHeaders(raw, input).Filled?
    decreases |Flat(input)|
  {
    hide SplitHttpHeaders;
    assert raw == s[..|raw|];
    var got := Read(input, BUFFER_SIZE);
    if |raw| < MAX_HEADER_BYTES && got.data != "" {
      assert (raw + got.data) + Flat(got.rest) == raw + (got.data + Flat(got.rest));
      NothingRead(s, raw + got.data, got.rest);
    }
  }

  // ----- cuts that show a given front -----------------------------------------------------------

  function Remaining(s: string, n: nat): seq<string>
    requires n <= |s|
  {
    if n < |s| then [s[n..]] else []
  }

  /** The first a bytes of s, those up to b, and other pieces. */
  function CutWith(s: string, a: nat, b: nat, rest: seq<string>): Conn
    requires 0 < a < b <= |s|
  {
    Conn([s[..a], s[a..b]] + rest, "", 0, [], true)
  }

  function CutAt(s: string, a: nat, b: nat): Conn
    requires 0 < a < b <= |s|
  {
    CutWith(s, a, b, Remaining(s, b))
  }

  lemma RemainingFlat(s: string, n: nat)
    requires n <= |s|
    ensures Pieces(Remaining(s, n)) && Flat(Remaining(s, n)) == s[n..]
  {
    if n < |s| {
      assert [s[n..]][1..] == [];
    }
  }

  lemma OneMorePiece(x: string, rest: seq<string>)
    ensures Flat([x] + rest) == x + Flat(rest) && ([x] + rest)[0] == x && ([x] + rest)[1..] == rest
    ensures x != "" && Pieces(rest) ==> Pieces([x] + rest)
  {
  }

  lemma CutDelivers(s: string, a: nat, b: nat, rest: seq<string>)
    requires 0 < a < b <= |s| && Pieces(rest)
    ensures Delivers(CutWith(s, a, b, rest), s[..b] + Flat(rest)) && Delivers(CutAt(s, a, b), s)
  {
    RemainingFlat(s, b);
    TwoPieces(s, a, b, rest);
    TwoPieces(s, a, b, Remaining(s, b));
    assert s[..b] + s[b..] == s;
  }

  lemma TwoPieces(s: string, a: nat, b: nat, rest: seq<string>)
    requires 0 < a < b <= |s| && Pieces(rest)
    ensures Delivers(CutWith(s, a, b, rest), s[..b] + Flat(rest))
  {
    OneMorePiece(s[a..b], rest);
    OneMorePiece(s[..a], [s[a..b]] + rest);
    assert [s[..a], s[a..b]] + rest == [s[..a]] + ([s[a..b]] + rest);
    assert s[..a] + (s[a..b] + Flat(rest)) == s[..b] + Flat(rest);
  }

  /** A piece in which no end shows is read to its end. */
  lemma {:induction false} ReadsPiece(raw: string, x: string, rest: seq<string>)
    requires SplitHttpHeaders(raw + x).None? && |raw + x| <= MAX_HEADER_BYTES && x != ""
    ensures ReadHeaders(raw, [x] + rest) == ReadHeaders(raw + x, rest)
    decreases |x|
  {
    hide SplitHttpHeaders;
    OneMorePiece(x, rest);
    if SplitHttpHeaders(raw).Some? {
      assert (raw + x)[..|raw|] == raw && (raw + x)[..|raw + x|] == raw + x;
      SplitsLater(raw + x, |raw|, |raw + x|);
    } else if |x| > BUFFER_SIZE {
      var x1, x2 := x[..BUFFER_SIZE], x[BUFFER_SIZE..];
      assert (raw + x1) + x2 == raw + x;
      ReadsPiece(raw + x1, x2, rest);
    }
  }

  /** For this cut the first b bytes are in memory when the end of the headers is seen. */
  lemma CutShows(s: string, a: nat, b: nat, rest: seq<string>)
    requires 0 < a < b <= |s| && a < MAX_HEADER_BYTES && b - a <= BUFFER_SIZE
    requires SplitHttpHeaders(s[..a]).None? && SplitHttpHeaders(s[..b]).Some?
    ensures HeadersOf(CutWith(s, a, b, rest)) == Filled(s[..b], rest)
  {
    hide SplitHttpHeaders;
    assert [s[..a], s[a..b]] + rest == [s[..a]] + ([s[a..b]] + rest);
    assert "" + s[..a] == s[..a];
    ReadsPiece("", s[..a], [s[a..b]] + rest);
    OneMorePiece(s[a..b], rest);
    assert s[..a] + s[a..b] == s[..b];
  }

  /** For this cut the headers are given up after exactly the limit. */
  lemma CutGivesUp(s: string)
    requires MAX_HEADER_BYTES < |s| && SplitHttpHeaders(s[..MAX_HEADER_BYTES]).None?
    ensures !HeadersOf(CutAt(s, MAX_HEADER_BYTES, |s|)).Filled?
  {
    hide SplitHttpHeaders;
    var x := s[..MAX_HEADER_BYTES];
    var rest := [s[MAX_HEADER_BYTES..|s|]] + Remaining(s, |s|);
    assert [x, s[MAX_HEADER_BYTES..|s|]] + Remaining(s, |s|) == [x] + rest;
    assert "" + x == x;
    ReadsPiece("", x, rest);
  }

  // ----- the end of the headers -----------------------------------------------------------------

  /** All connections that deliver s find the same end of the headers, or all find none. */
  ghost predicate SameEnd(s: string)
  {
    forall c: Conn, d: Conn :: Delivers(c, s) && Delivers(d, s) ==> EndSeen(c) == EndSeen(d)
  }

  /** The first end is too far away for any cut, or near enough for every cut and undisputed one buffer further. */
  ghost predicate Decided(s: string, e: nat)
  {
    || e >= MAX_HEADER_BYTES + BUFFER_SIZE
    || (e <= MAX_HEADER_BYTES && Undisputed(s, e, Reach(s, e)))
  }

  lemma DecidedEnd(c: Conn, s: string, e: nat)
    requires Delivers(c, s) && FirstEnd(s, e) && Decided(s, e)
    ensures EndSeen(c) == if e <= MAX_HEADER_BYTES then Some(e) else None
  {
    assert e <= |s|;
    hide SplitHttpHeaders, FirstEnd, Undisputed, ReadHeaders;
    SplitsExactly(s, e, e);
    ReadWithin(s, e, c.pending, c.input);
    var f := HeadersOf(c);
    if f.Filled? {
      UndisputedShorter(s, e, |f.raw|, Reach(s, e));
      EndIsFirst(s, e, |f.raw|);
    }
  }

  lemma UndisputedShorter(s: string, e: nat, n: nat, k: nat)
    requires n <= k && Undisputed(s, e, k)
    ensures Undisputed(s, e, n)
  {
    hide Ends;
  }

  lemma CutEnd(s: string, e: nat, a: nat, b: nat)
    requires FirstEnd(s, e) && 0 < a < e <= b <= |s| && a < MAX_HEADER_BYTES && b - a <= BUFFER_SIZE
    ensures Delivers(CutAt(s, a, b), s) && SplitHttpHeaders(s[..b]).Some? && EndSeen(CutAt(s, a, b)) == Some(EndIn(s, b))
  {
    hide SplitHttpHeaders, FirstEnd, ReadHeaders;
    SplitsExactly(s, e, a);
    SplitsExactly(s, e, b);
    CutDelivers(s, a, b, []);
    CutShows(s, a, b, Remaining(s, b));
  }

  lemma UndecidedEnds(s: string, e: nat)
    requires FirstEnd(s, e) && !Decided(s, e)
    ensures !SameEnd(s)
  {
    assert e <= |s|;
    hide SplitHttpHeaders, FirstEnd, Undisputed, EndSeen, Delivers, CutAt;
    SplitsExactly(s, e, e);
    TwoBytes(s, e);
    if e <= MAX_HEADER_BYTES {
      var n := Reach(s, e);
      EndIsFirst(s, e, e);
      EndIsFirst(s, e, n);
      UndisputedAtOnce(s, e);
      CutEnd(s, e, e - 1, e);
      CutEnd(s, e, e - 1, n);
    } else {
      CutEnd(s, e, MAX_HEADER_BYTES - 1, e);
      SplitsExactly(s, e, MAX_HEADER_BYTES);
      CutDelivers(s, MAX_HEADER_BYTES, |s|, []);
      CutGivesUp(s);
      GivenUp(CutAt(s, MAX_HEADER_BYTES, |s|));
    }
  }

  lemma GivenUp(c: Conn)
    requires !HeadersOf(c).Filled?
    ensures EndSeen(c) == None
  {
  }

  lemma UndisputedAtOnce(s: string, e: nat)
    ensures Undisputed(s, e, e)
  {
  }

  /** A front that splits has at least two bytes. */
  lemma TwoBytes(s: string, e: nat)
    requires FirstEnd(s, e)
    ensures e >= 2
  {
    hide Find;
    SplitCases(s, e);
  }

  /** The end of the headers does not depend on the cuts exactly when it is decided at the first end, if there is one. */
  lemma EndExactly(s: string)
    ensures SameEnd(s) <==> forall e: nat :: FirstEnd(s, e) ==> Decided(s, e)
  {
    hide SplitHttpHeaders, FirstEnd, Decided, EndSeen, Delivers;
    if e: nat :| FirstEnd(s, e) {
      if Decided(s, e) {
        forall c: Conn, d: Conn | Delivers(c, s) && Delivers(d, s) ensures EndSeen(c) == EndSeen(d) {
          DecidedEnd(c, s, e);
          DecidedEnd(d, s, e);
        }
        forall k: nat | FirstEnd(s, k) ensures k == e {
          FirstIsUnique(s, e, k);
        }
      } else {
        UndecidedEnds(s, e);
      }
    } else {
      NoFirstEnd(s);
      forall c: Conn, d: Conn | Delivers(c, s) && Delivers(d, s) ensures EndSeen(c) == EndSeen(d) {
        NoEndSeen(c, s);
        NoEndSeen(d, s);
      }
    }
  }

  lemma FirstIsUnique(s: string, e: nat, k: nat)
    requires FirstEnd(s, e) && FirstEnd(s, k)
    ensures k == e
  {
    hide SplitHttpHeaders;
  }

  lemma NoEndSeen(c: Conn, s: string)
    requires Delivers(c, s) && forall n :: 0 <= n <= |s| ==> SplitHttpHeaders(s[..n]).None?
    ensures EndSeen(c) == None
  {
    hide SplitHttpHeaders, ReadHeaders;
    NothingRead(s, c.pending, c.input);
  }

  lemma NoFirstEnd(s: string)
    requires forall e: nat :: !FirstEnd(s, e)
    ensures forall n :: 0 <= n <= |s| ==> SplitHttpHeaders(s[..n]).None?
  {
    hide SplitHttpHeaders;
    var n: nat := 0;
    while n <= |s|
      invariant n <= |s| + 1 && forall k :: 0 <= k < n ==> SplitHttpHeaders(s[..k]).None?
    {
      assert !FirstEnd(s, n);
      n := n + 1;
    }
  }

  // ----- messages that are read first, however they are cut -------------------------------------

  /** With the headers ending at x the message is exactly m, and a chunked body keeps clear of the limit. */
  predicate FitsAt(m: string, x: nat)
  {
    && x <= |m| && BodyFits(m, x)
    && (PlanOf(PreflightOf(m[..x])).Chunked? ==> |m| - x + BUFFER_SIZE - 1 <= MAX_BODY_BYTES)
  }

  /** Every stream that starts with m, cut in any way, gives m first. */
  ghost predicate AlwaysFirst(m: string)
  {
    forall tail: string, c: Conn :: Delivers(c, m + tail) && c.up ==> Next(c, 0).outcome == Request(m)
  }

  /** Headers whose first CRLFCRLF ends at h. */
  predicate CrlfHead(m: string, h: nat) { h <= |m| && SplitHttpHeaders(m[..h]) == Some(HeaderSplit(h, 4)) }

  /** From the first end at e on, every front that can be in memory gives m. */
  ghost predicate FitsSeen(m: string, e: nat)
  {
    && FirstEnd(m, e) && e <= MAX_HEADER_BYTES
    && forall n :: e <= n <= Reach(m, e) && SplitHttpHeaders(m[..n]).Some? ==> FitsAt(m, EndIn(m, n))
  }

  lemma FirstEndOf(m: string, e: nat, tail: string)
    requires FirstEnd(m, e)
    ensures FirstEnd(m + tail, e)
  {
    hide SplitHttpHeaders;
    assert (m + tail)[..e] == m[..e];
    forall n | 0 <= n < e ensures SplitHttpHeaders((m + tail)[..n]).None? {
      assert (m + tail)[..n] == m[..n];
    }
  }

  /** Past the CRLFCRLF of m the end found is that of m, whatever follows m. */
  lemma EndInside(m: string, h: nat, tail: string, n: nat)
    requires CrlfHead(m, h) && n <= |m + tail| && SplitHttpHeaders((m + tail)[..n]).Some?
    ensures var k := Least(n, |m|);
            && SplitHttpHeaders(m[..k]).Some? && EndIn(m + tail, n) == EndIn(m, k)
            && m[..EndIn(m, k)] == (m + tail)[..n][..EndIn(m, k)]
  {
    hide SplitHttpHeaders;
    var raw := (m + tail)[..n];
    if n <= |m| {
      assert raw == m[..n];
    } else {
      assert m[..h] <= raw && m[..|m|] == m && raw[..|m|] == m;
      assert m == m[..h] + m[h..];
      CrlfSplit(m[..h], m);
      CrlfSplit(m[..h], raw);
    }
  }

  /** With the headers in memory, the message is read to its end. */
  lemma ReadsMessage(c: Conn, raw: string, m: string, x: nat, tail: string)
    requires FitsAt(m, x) && x <= |raw| && raw[..x] == m[..x] && Pieces(c.input) && raw + Flat(c.input) == m + tail
    ensures BodyBy(c, raw, x, PlanOf(PreflightOf(m[..x]))).outcome == Request(m)
  {
    hide SplitHttpHeaders, ChunkedEnd, PlanOf, PreflightOf, ReadChunked, ReadBody, Flat, Read;
    var plan := PlanOf(PreflightOf(m[..x]));
    var s := m + tail;
    assert |raw| + |Flat(c.input)| == |m| + |tail|;
    if plan.Chunked? {
      ChunkedArrives(m, x, s, raw, c.input);
      ReadChunkedEnds(raw, c.input, x);
      var f := ReadChunked(raw, c.input, x);
      ChunkedFound(m, x, s, f.raw);
      FrontOf(f.raw, Flat(f.rest), m, tail);
    } else {
      FixedArrives(raw, c.input, x + plan.length);
      ReadBodyEnds(raw, c.input, x + plan.length);
      var f := ReadBody(raw, c.input, x + plan.length);
      FrontOf(f.raw, Flat(f.rest), m, tail);
    }
  }

  lemma FrontOf(a: string, b: string, m: string, tail: string)
    requires a + b == m + tail && |a| >= |m|
    ensures a[..|m|] == m
  {
    assert a[..|m|] == (a + b)[..|m|];
  }

  lemma SeenIsFirst(m: string, h: nat, e: nat, tail: string, c: Conn)
    requires CrlfHead(m, h) && FitsSeen(m, e) && Delivers(c, m + tail) && c.up
    ensures Next(c, 0).outcome == Request(m)
  {
    hide SplitHttpHeaders, ReadHeaders, BodyBy, FitsAt, PlanOf, PreflightOf, Expects;
    var s := m + tail;
    assert e <= |m|;
    FirstEndOf(m, e, tail);
    hide FirstEnd;
    SplitsExactly(s, e, e);
    ReadWithin(s, e, c.pending, c.input);
    var f := HeadersOf(c);
    var n := |f.raw|;
    NextByHeaders(c, 0);
    EndInside(m, h, tail, n);
    var x := EndIn(m, Least(n, |m|));
    assert FitsAt(m, x);
    var c1 := c.(count := (c.count + 1) % COUNT_LIMIT, pending := "", input := f.rest);
    ReadsMessage(if Expects(PreflightOf(m[..x])) then Send(c1, Continue) else c1, f.raw, m, x, tail);
  }

  lemma LateEndNotFirst(m: string, e: nat)
    requires FirstEnd(m, e) && e > MAX_HEADER_BYTES
    ensures !AlwaysFirst(m)
  {
    assert e <= |m|;
    hide SplitHttpHeaders, FirstEnd, ReadHeaders, Delivers;
    var c := CutAt(m, MAX_HEADER_BYTES, |m|);
    SplitsExactly(m, e, MAX_HEADER_BYTES);
    CutDelivers(m, MAX_HEADER_BYTES, |m|, []);
    CutGivesUp(m);
    GivesUpIsAbort(c, m);
    NotFirst(m, "", c);
  }

  lemma NotFirst(m: string, tail: string, c: Conn)
    requires (Delivers(c, m + tail) || (tail == "" && Delivers(c, m))) && c.up && Next(c, 0).outcome != Request(m)
    ensures !AlwaysFirst(m)
  {
    hide Delivers, Next;
    assert m + "" == m;
    assert Delivers(c, m + tail);
  }

  lemma GivesUpIsAbort(c: Conn, m: string)
    requires Delivers(c, m) && m != "" && !HeadersOf(c).Filled?
    ensures Next(c, 0).outcome == Abort
  {
    hide ReadHeaders, Next;
    NextByHeaders(c, 0);
  }

  /** A message that is emitted with the headers ending at x. */
  lemma EmittedIs(c: Conn, raw: string, m: string, x: nat)
    requires x <= |raw| && raw + Flat(c.input) == m
    requires BodyBy(c, raw, x, PlanOf(PreflightOf(raw[..x]))).outcome == Request(m)
    ensures x <= |m| && m[..x] == raw[..x] && BodyFits(m, x)
  {
    hide SplitHttpHeaders, ChunkedEnd, PlanOf, PreflightOf, ReadChunked, ReadBody, Flat, Read;
    var plan := PlanOf(PreflightOf(raw[..x]));
    assert m[..x] == raw[..x];
    if plan.Chunked? {
      ReadChunkedEnds(raw, c.input, x);
      var f := ReadChunked(raw, c.input, x);
      ChunkedEndInside(f.raw, x);
      assert |f.raw| + |Flat(f.rest)| == |m|;
      assert f.raw == m;
    } else {
      ReadBodyEnds(raw, c.input, x + if plan.Fixed? then plan.length else 0);
    }
  }

  /** After the headers have been read by a cut. */
  lemma NextAfterCut(m: string, a: nat, n: nat, rest: seq<string>)
    requires 0 < a < n <= |m| && a < MAX_HEADER_BYTES && n - a <= BUFFER_SIZE && Pieces(rest)
    requires SplitHttpHeaders(m[..a]).None? && SplitHttpHeaders(m[..n]).Some?
    ensures Delivers(CutWith(m, a, n, rest), m[..n] + Flat(rest)) && CutWith(m, a, n, rest).up
    ensures exists c1: Conn :: c1.input == rest && c1.up &&
              Next(CutWith(m, a, n, rest), 0).outcome
              == BodyBy(c1, m[..n], EndIn(m, n), PlanOf(PreflightOf(m[..n][..EndIn(m, n)]))).outcome
  {
    hide SplitHttpHeaders, ReadHeaders, Next, BodyBy, PlanOf, PreflightOf, Expects;
    var c := CutWith(m, a, n, rest);
    CutDelivers(m, a, n, rest);
    CutShows(m, a, n, rest);
    assert m[..n] + Flat(rest) != "";
    NextByHeaders(c, 0);
    var c1 := c.(count := (c.count + 1) % COUNT_LIMIT, pending := "", input := rest);
    var x := EndIn(m, n);
    var c2 := if Expects(PreflightOf(m[..n][..x])) then Send(c1, Continue) else c1;
    assert Body(c1, m[..n]) == BodyBy(c2, m[..n], x, PlanOf(PreflightOf(m[..n][..x])));
  }

  lemma FitsBody(m: string, e: nat, n: nat)
    requires FirstEnd(m, e) && AlwaysFirst(m) && e <= MAX_HEADER_BYTES && e <= n <= Reach(m, e)
    ensures SplitHttpHeaders(m[..n]).Some? && EndIn(m, n) <= |m| && BodyFits(m, EndIn(m, n))
  {
    hide SplitHttpHeaders, FirstEnd, Next, BodyBy, PlanOf, PreflightOf, Delivers, CutWith, BodyFits;
    TwoBytes(m, e);
    SplitsExactly(m, e, e - 1);
    SplitsExactly(m, e, n);
    RemainingFlat(m, n);
    NextAfterCut(m, e - 1, n, Remaining(m, n));
    assert m[..n] + m[n..] == m == m + "";
    var c := CutWith(m, e - 1, n, Remaining(m, n));
    assert Next(c, 0).outcome == Request(m);
    var c1: Conn :| c1.input == Remaining(m, n) && c1.up &&
                    Next(c, 0).outcome
                    == BodyBy(c1, m[..n], EndIn(m, n), PlanOf(PreflightOf(m[..n][..EndIn(m, n)]))).outcome;
    EmittedIs(c1, m[..n], m, EndIn(m, n));
  }

  // ----- the limit on chunked bodies ------------------------------------------------------------

  /** While the body is incomplete, a piece is read to its end, unless the body grows too big. */
  lemma {:induction false} ReadsChunkedPiece(raw: string, y: string, rest: seq<string>, x: nat)
    requires y != "" && forall n :: 0 <= n <= |raw + y| ==> ChunkedEnd((raw + y)[..n], x).None?
    ensures ReadChunked(raw, [y] + rest, x).TooBig? || ReadChunked(raw, [y] + rest, x) == ReadChunked(raw + y, rest, x)
    decreases |y|
  {
    hide ChunkedEnd;
    OneMorePiece(y, rest);
    assert (raw + y)[..|raw|] == raw;
    if |y| > BUFFER_SIZE {
      var y1, y2 := y[..BUFFER_SIZE], y[BUFFER_SIZE..];
      assert (raw + y1) + y2 == raw + y;
      ReadsChunkedPiece(raw + y1, y2, rest, x);
    }
  }

  /** Everything of m but its last byte, from n on, and then that byte at the front of a full buffer. */
  function LatePieces(m: string, n: nat, tail: string): seq<string>
    requires n < |m|
  {
    (if n < |m| - 1 then [m[n..|m| - 1]] else []) + [m[|m| - 1..] + tail]
  }

  lemma LateFlat(m: string, n: nat, tail: string)
    requires n < |m|
    ensures Pieces(LatePieces(m, n, tail)) && m[..n] + Flat(LatePieces(m, n, tail)) == m + tail
  {
    var last := m[|m| - 1..] + tail;
    OneMorePiece(last, []);
    assert [last] + [] == [last];
    if n < |m| - 1 {
      OneMorePiece(m[n..|m| - 1], [last]);
      assert m[..n] + (m[n..|m| - 1] + (m[|m| - 1..] + tail)) == m + tail;
    } else {
      assert [] + [last] == [last];
      assert m[..n] + (m[|m| - 1..] + tail) == m + tail;
    }
  }

  lemma LateIsTooBig(m: string, n: nat, tail: string, x: nat)
    requires n < |m| && |tail| == BUFFER_SIZE - 1 && ChunkedEnd(m, x) == Some(|m|)
    requires |m| + |tail| > MAX_BODY_BYTES + x
    ensures ReadChunked(m[..n], LatePieces(m, n, tail), x).TooBig?
  {
    hide ChunkedEnd;
    var k: nat := |m| - 1;
    var front, last := m[..k], m[k..] + tail;
    forall i | 0 <= i <= k ensures ChunkedEnd(front[..i], x).None? {
      assert front[..i] == m[..i];
      ChunkedFound(m, x, m, m[..i]);
    }
    OneMorePiece(last, []);
    assert [last] + [] == [last];
    assert front[..k] == front;
    assert front + last == m + tail;
    assert ReadChunked(front, [last], x).TooBig?;
    if n < k {
      assert m[..n] + m[n..k] == front;
      ReadsChunkedPiece(m[..n], m[n..k], [last], x);
    } else {
      assert [] + [last] == [last];
    }
  }

  /** A body over the limit is longer than what can be in memory with the headers. */
  lemma BigBody(m: string, e: nat, n: nat)
    requires FirstEnd(m, e) && e <= n <= Reach(m, e) && SplitHttpHeaders(m[..n]).Some?
    requires BodyFits(m, EndIn(m, n)) && !FitsAt(m, EndIn(m, n))
    ensures var x := EndIn(m, n);
            && PlanOf(PreflightOf(m[..x])).Chunked? && ChunkedEnd(m, x) == Some(|m|)
            && |m| - x + BUFFER_SIZE - 1 > MAX_BODY_BYTES && n < |m|
  {
    hide SplitHttpHeaders, FirstEnd, PlanOf, PreflightOf, ChunkedEnd;
    EndNotEarly(m, e, n);
  }

  lemma LateAborts(c: Conn, raw: string, x: nat)
    requires x <= |raw| && ReadChunked(raw, c.input, x).TooBig?
    ensures BodyBy(c, raw, x, Chunked).outcome == Abort
  {
    hide ReadChunked;
  }

  lemma BigBodyNotFirst(m: string, e: nat, n: nat)
    requires FirstEnd(m, e) && e <= MAX_HEADER_BYTES && e <= n <= Reach(m, e) && SplitHttpHeaders(m[..n]).Some?
    requires BodyFits(m, EndIn(m, n)) && !FitsAt(m, EndIn(m, n))
    ensures !AlwaysFirst(m)
  {
    hide *;
    ReachIs(m, e);
    var x := EndIn(m, n);
    BigBody(m, e, n);
    TwoBytes(m, e);
    SplitsExactly(m, e, e - 1);
    var tail := seq(BUFFER_SIZE - 1, _ => ' ');
    var rest := LatePieces(m, n, tail);
    LateFlat(m, n, tail);
    NextAfterCut(m, e - 1, n, rest);
    var c := CutWith(m, e - 1, n, rest);
    assert m[..n][..x] == m[..x];
    var c1: Conn :| c1.input == rest && c1.up &&
                    Next(c, 0).outcome == BodyBy(c1, m[..n], x, PlanOf(PreflightOf(m[..n][..x]))).outcome;
    LateIsTooBig(m, n, tail, x);
    LateAborts(c1, m[..n], x);
    NotFirst(m, tail, c);
  }

  lemma ReachIs(s: string, e: nat)
    ensures Reach(s, e) <= |s| && Reach(s, e) <= e + BUFFER_SIZE - 1
  {
  }

  lemma EndNotEarly(s: string, e: nat, n: nat)
    requires FirstEnd(s, e) && e <= n <= |s| && SplitHttpHeaders(s[..n]).Some?
    ensures EndIn(s, n) >= e
  {
    hide SplitHttpHeaders;
    var x := EndIn(s, n);
    SplitCut(s[..n], x);
    assert s[..n][..x] == s[..x];
  }

  /** A message whose headers end at a CRLFCRLF is read first from every stream that starts with it, however it is cut,
      exactly when every front that may be in memory as its first end is seen gives the message. */
  lemma FirstExactly(m: string, h: nat, e: nat)
    requires CrlfHead(m, h) && FirstEnd(m, e)
    ensures AlwaysFirst(m) <==> FitsSeen(m, e)
  {
    hide SplitHttpHeaders, FirstEnd, Delivers, FitsAt, BodyFits, Next;
    if FitsSeen(m, e) {
      forall tail: string, c: Conn | Delivers(c, m + tail) && c.up ensures Next(c, 0).outcome == Request(m) {
        SeenIsFirst(m, h, e, tail, c);
      }
    } else if e > MAX_HEADER_BYTES {
      LateEndNotFirst(m, e);
    } else if AlwaysFirst(m) {
      var n :| e <= n <= Reach(m, e) && SplitHttpHeaders(m[..n]).Some? && !FitsAt(m, EndIn(m, n));
      FitsBody(m, e, n);
      BigBodyNotFirst(m, e, n);
    }
  }

  lemma FirstAtHead(m: string, h: nat)
    requires CrlfHead(m, h) && NoEarlyEnd(m, h)
    ensures FirstEnd(m, h)
  {
  }

  /** Where nothing ends before the CRLFCRLF, those are exactly the framed messages. */
  lemma FramedExactly(m: string, h: nat)
    requires CrlfHead(m, h) && NoEarlyEnd(m, h)
    ensures AlwaysFirst(m) <==> FramedAt(m, h)
  {
    FirstAtHead(m, h);
    FirstExactly(m, h, h);
    hide SplitHttpHeaders, BodyFits, AlwaysFirst;
    forall n | h <= n <= Reach(m, h) && SplitHttpHeaders(m[..n]).Some? ensures EndIn(m, n) == h {
      assert m[..h] <= m[..n];
      CrlfSplit(m[..h], m[..n]);
    }
    assert h <= Reach(m, h);
  }
}
