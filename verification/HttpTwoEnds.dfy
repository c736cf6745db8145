/**
 A message in which LFLF ends before the CRLFCRLF and that is nevertheless read first however it is cut: it announces a
 chunked body, and from either end of the headers the chunks end at the same place.
 */
module HttpTwoEnds {
  import opened Chars
  import opened HttpScan
  import opened HttpChunks
  import opened HttpFraming
  import opened HttpCuts
  import opened HttpFirstEnd

  // ----- the fields of both heads ---------------------------------------------------------------

  lemma LineFirst(line: string, rest: string, nl: string)
    requires nl == "\n" && '\n' !in line
    ensures Find(line + nl + rest, "\n", 0) == Some(|line|)
    ensures Lines(line + nl + rest) == [DropCr(line)] + Lines(rest) && HeaderLines(line + nl + rest) == Lines(rest)
  {
    var s := line + nl + rest;
    assert s[|line|..|line| + 1] == "\n";
    forall k | 0 <= k < |line| ensures !OccursAt(s, "\n", k) {
      NotAt(s, "\n", k, 0);
    }
    FindUnique(s, "\n", 0, |line|);
    assert s[..|line|] == line && s[|line| + 1..] == rest;
  }

  lemma NotAt(s: string, pat: string, k: nat, j: nat)
    requires j < |pat| && (k + j < |s| ==> s[k + j] != pat[j])
    ensures !OccursAt(s, pat, k)
  {
    if k + |pat| <= |s| {
      assert s[k..k + |pat|][j] == s[k + j];
    }
  }

  lemma FieldValue(key: string, value: string, name: string, colon: string)
    requires colon == ":" && ':' !in key && value != "" && !IsSpace(value[0]) && !IsSpace(value[|value| - 1])
    ensures ValueOf(key + colon + value, name) == if Fold(key) == Fold(name) then value else ""
  {
    var s := key + colon + value;
    assert s[|key|..|key| + 1] == ":";
    forall k | 0 <= k < |key| ensures !OccursAt(s, ":", k) {
      NotAt(s, ":", k, 0);
    }
    FindUnique(s, ":", 0, |key|);
    assert s[..|key|] == key && s[|key| + 1..] == value;
    assert Trim(value) == value;
    hide Fold, Trim;
  }

  /** A field, an empty line, and perhaps a line that is no field and another empty line. */
  lemma FirstOf(l: string, k: string, name: string)
    requires NoColon(k)
    ensures FirstValue([l, ""], name) == FirstValue([l, "", k, ""], name) == ValueOf(l, name)
  {
    NoValue("", name);
    NoValue(k, name);
    hide ValueOf, NoColon;
    assert [""][1..] == [] && [k, ""][1..] == [""] && ["", k, ""][1..] == [k, ""];
    assert [l, "", k, ""][1..] == ["", k, ""] && [l, ""][1..] == [""];
    assert FirstValue([""], name) == FirstValue([], name) == "";
    assert FirstValue([k, ""], name) == "";
    assert FirstValue(["", k, ""], name) == "";
  }

  lemma DropCrOf(k: string)
    ensures DropCr(k + "\r") == k && DropCr("\r") == "" && DropCr("") == ""
    ensures k != "" && k[|k| - 1] != '\r' ==> DropCr(k) == k
  {
    assert (k + "\r")[..|k|] == k;
  }

  lemma LinesOfBoth(l: string, k: string, nl: string, cr: string)
    requires nl == "\n" && cr == "\r" && '\n' !in l && '\n' !in k && l != "" && l[|l| - 1] != '\r'
    ensures Lines(l + nl + nl) == [l, ""]
    ensures Lines(l + nl + (nl + (k + cr + nl + (cr + nl)))) == [l, "", k, ""]
  {
    hide *;
    DropCrOf(k);
    DropCrOf(l);
    LinesEnd();
    var last := cr + nl;
    var third := k + cr + nl + last;
    assert "" + nl + "" == nl && "" + nl + third == nl + third && cr + nl + "" == last;
    LineFirst("", "", nl);
    LineFirst(cr, "", nl);
    LineFirst(k + cr, last, nl);
    LineFirst("", third, nl);
    LineFirst(l, nl, nl);
    LineFirst(l, nl + third, nl);
    assert [l] + ([""] + []) == [l, ""];
    assert [l] + ([""] + ([k] + ([""] + []))) == [l, "", k, ""];
  }

  lemma PreflightIs(head: string)
    ensures PreflightOf(head) == Preflight(FirstValue(HeaderLines(head), "expect"),
              FirstValue(HeaderLines(head), "content-length"), FirstValue(HeaderLines(head), "transfer-encoding"))
  {
  }

  lemma FieldParts(a: string, w: string)
    requires a == "transfer-encoding" && w == "chunked"
    ensures ':' !in a && w != "" && !IsSpace(w[0]) && !IsSpace(w[|w| - 1])
  {
  }

  lemma OnlyCoding(a: string, colon: string, w: string)
    requires a == "transfer-encoding" && colon == ":" && w == "chunked"
    ensures ValueOf(a + colon + w, "expect") == ValueOf(a + colon + w, "content-length") == ""
    ensures ValueOf(a + colon + w, "transfer-encoding") == w
  {
    TheNamesDiffer();
    FieldParts(a, w);
    hide Fold, ValueOf, IsSpace;
    FieldValue(a, w, "expect", colon);
    FieldValue(a, w, "content-length", colon);
    FieldValue(a, w, "transfer-encoding", colon);
  }

  /** Both heads announce a chunked body and nothing else. */
  lemma Announce(g: string, l: string, k: string, nl: string, cr: string, w: string)
    requires g == "G" && l == "transfer-encoding:chunked" && k == "4" && nl == "\n" && cr == "\r" && w == "chunked"
    ensures PreflightOf(g + nl + (l + nl + nl)) == Preflight("", "", w)
    ensures PreflightOf(g + nl + (l + nl + (nl + (k + cr + nl + (cr + nl))))) == Preflight("", "", w)
  {
    assert l == "transfer-encoding" + ":" + w && '\n' !in l && '\n' !in k && l[|l| - 1] != '\r' && '\n' !in g;
    assert NoColon(k);
    hide *;
    LinesOfBoth(l, k, nl, cr);
    LineFirst(g, l + nl + nl, nl);
    LineFirst(g, l + nl + (nl + (k + cr + nl + (cr + nl))), nl);
    PreflightIs(g + nl + (l + nl + nl));
    PreflightIs(g + nl + (l + nl + (nl + (k + cr + nl + (cr + nl)))));
    OnlyCoding("transfer-encoding", ":", w);
    FirstOf(l, k, "expect");
    FirstOf(l, k, "content-length");
    FirstOf(l, k, "transfer-encoding");
  }

  lemma PlanIsChunked(w: string)
    requires w == "chunked"
    ensures PlanOf(Preflight("", "", w)) == Chunked
  {
    NoToken(w, w);
    LowerAllShape(w);
    assert Trim(w) == w && LowerAll(w) == w;
    hide Trim, LowerAll;
  }

  // ----- the chunks from both ends --------------------------------------------------------------

  lemma EncodesTo(b: Body, before: string, d: string)
    requires BodyOk(b) && Encode(b) == d
    ensures ChunkedEnd(before + d, |before|) == Some(|before| + |d|)
  {
    hide *;
    ChunkedExact(before, b, "");
    assert d + "" == d;
  }

  /** From the first end: a chunk of four bytes and the last one. */
  lemma FromFirst(before: string, d: string)
    requires d == "4\r\n\r\n00\r\n0\r\n\r\n"
    ensures ChunkedEnd(before + d, |before|) == Some(|before| + |d|)
  {
    var c := Chunk("4", "", "\r\n00");
    var b := Body([c], "0", "", []);
    assert "4"[..0] == "" && NumberValue("4", 16) == 4 && "0"[..0] == "" && NumberValue("0", 16) == 0;
    assert BodyOk(b);
    assert EncodeTrailers([]) == CRLF && EncodeChunks([]) == "" && [c][1..] == [];
    assert EncodeChunk(c) == "4\r\n\r\n00\r\n" && LastLine(b) == "0\r\n\r\n";
    assert Encode(b) == d;
    EncodesTo(b, before, d);
  }

  /** From the second: the last chunk and a trailer. */
  lemma FromSecond(before: string, d: string)
    requires d == "00\r\n0\r\n\r\n"
    ensures ChunkedEnd(before + d, |before|) == Some(|before| + |d|)
  {
    var b := Body([], "00", "", ["0"]);
    ZeroBody(b);
    assert ["0"][1..] == [] && EncodeTrailers([]) == CRLF && EncodeTrailers(["0"]) == "0\r\n\r\n";
    assert Encode(b) == d;
    hide *;
    EncodesTo(b, before, d);
  }

  lemma ZeroBody(b: Body)
    requires b == Body([], "00", "", ["0"])
    ensures BodyOk(b)
  {
    var zero := "00"[..1];
    assert zero[..0] == "" && NumberValue(zero, 16) == 0 && NumberValue("00", 16) == 0;
    assert !OccursAt("0", CRLF, 0);
  }

  // ----- where the headers may end --------------------------------------------------------------

  /** Where line ends stand up to the CRLFCRLF. */
  predicate EndsAsMeant(m: string)
  {
    && |m| == 43
    && (forall i :: 0 <= i < 34 ==> (m[i] == '\r' <==> i == 30 || i == 32))
    && (forall i :: 0 <= i < 34 ==> (m[i] == '\n' <==> i == 1 || i == 27 || i == 28 || i == 31 || i == 33))
  }

  /** No delimiter is seen before position 29, and only LFLF there. */
  lemma FirstAt29(m: string, crlf: string, lf: string, cr: string)
    requires EndsAsMeant(m) && crlf == CRLFCRLF && lf == "\n\n" && cr == "\r\r"
    ensures FirstEnd(m, 29) && !Ends(m, 29, cr) && SplitHttpHeaders(m[..29]).value.delimiterLength == 2
  {
    forall n: nat | n <= 29 ensures SplitHttpHeaders(m[..n]).Some? <==> n == 29 {
      SplitCases(m, n);
      NoCrBefore(m, n, crlf);
      NoCrBefore(m, n, cr);
      LfBefore(m, n, lf);
    }
    SplitCases(m, 29);
    NoCrBefore(m, 29, crlf);
    LfBefore(m, 29, lf);
    NotAt(m, cr, 27, 0);
    hide SplitHttpHeaders, EndsAsMeant;
  }

  lemma NoCrBefore(m: string, n: nat, pat: string)
    requires EndsAsMeant(m) && n <= 29 && pat != "" && pat[0] == '\r'
    ensures Find(m[..n], pat, 0).None?
  {
    var front := m[..n];
    FindFacts(front, pat, 0);
    var r := Find(front, pat, 0);
    hide Find;
    if r.Some? {
      NotAt(front, pat, r.value, 0);
    }
  }

  lemma LfBefore(m: string, n: nat, lf: string)
    requires EndsAsMeant(m) && n <= 29 && lf == "\n\n"
    ensures Find(m[..n], lf, 0).Some? <==> n == 29
  {
    var front := m[..n];
    FindFacts(front, lf, 0);
    if n == 29 {
      assert front[27..29] == lf;
      assert OccursAt(front, lf, 27);
    }
    hide Find;
    forall k: nat | k < n && k != 27 ensures !OccursAt(front, lf, k) {
      NotAt(front, lf, k, if k == 1 || k == 28 then 1 else 0);
    }
  }

  lemma HeadAt34(m: string, crlf: string)
    requires EndsAsMeant(m) && crlf == CRLFCRLF
    ensures CrlfHead(m, 34) && forall k :: 29 <= k < 34 ==> !Ends(m, k, crlf)
  {
    var front := m[..34];
    assert front[30..34] == crlf;
    forall k: nat | k < 30 ensures !OccursAt(front, crlf, k) && !OccursAt(m, crlf, k) {
      NotAt(front, crlf, k, 0);
      NotAt(m, crlf, k, 0);
    }
    FindUnique(front, crlf, 0, 30);
    SplitCases(m, 34);
    hide Find, SplitHttpHeaders;
  }

  /** Before the CRLFCRLF is in memory the end is that of the LFLF, afterwards that of the CRLFCRLF. */
  lemma EndEarly(m: string, n: nat, crlf: string)
    requires FirstEnd(m, 29) && !Ends(m, 29, "\r\r") && 29 <= n < 34 <= |m| && crlf == CRLFCRLF
    requires forall k :: 29 <= k < 34 ==> !Ends(m, k, crlf)
    ensures SplitHttpHeaders(m[..n]).Some? && EndIn(m, n) == 29
  {
    hide SplitHttpHeaders, FirstEnd, Ends;
    EndIsFirst(m, 29, n);
  }

  lemma EndLate(m: string, n: nat)
    requires CrlfHead(m, 34) && 34 <= n <= |m|
    ensures SplitHttpHeaders(m[..n]).Some? && EndIn(m, n) == 34
  {
    hide SplitHttpHeaders;
    assert m[..34] <= m[..n];
    CrlfSplit(m[..34], m[..n]);
  }

  lemma SeenAt(m: string, n: nat, crlf: string)
    requires CrlfHead(m, 34) && FirstEnd(m, 29) && !Ends(m, 29, "\r\r") && 29 <= n <= |m| && 34 <= |m| && crlf == CRLFCRLF
    requires forall k :: 29 <= k < 34 ==> !Ends(m, k, crlf)
    ensures SplitHttpHeaders(m[..n]).Some? && EndIn(m, n) == if n < 34 then 29 else 34
  {
    hide *;
    if n < 34 {
      EndEarly(m, n, crlf);
    } else {
      EndLate(m, n);
    }
  }

  /** Every front that can be in memory as the first end is seen gives the message. */
  lemma SeenFits(m: string)
    requires FirstEnd(m, 29) && |m| == 43 && FitsAt(m, 29) && FitsAt(m, 34)
    requires forall n :: 29 <= n <= 43 ==>
               SplitHttpHeaders(m[..n]).Some? && EndIn(m, n) == if n < 34 then 29 else 34
    ensures FitsSeen(m, 29)
  {
    hide SplitHttpHeaders, FirstEnd, FitsAt;
  }

  lemma TwoEnds(m: string)
    requires EndsAsMeant(m) && FitsAt(m, 29) && FitsAt(m, 34)
    ensures CrlfHead(m, 34) && FirstEnd(m, 29) && FitsSeen(m, 29)
    ensures SplitHttpHeaders(m[..29]).value.delimiterLength == 2
  {
    assert |m| == 43;
    hide *;
    FirstAt29(m, CRLFCRLF, "\n\n", "\r\r");
    HeadAt34(m, CRLFCRLF);
    forall n | 29 <= n <= 43 ensures SplitHttpHeaders(m[..n]).Some? && EndIn(m, n) == if n < 34 then 29 else 34 {
      SeenAt(m, n, CRLFCRLF);
    }
    SeenFits(m);
  }

  // ----- the message ----------------------------------------------------------------------------

  lemma StartEnds(g: string, l: string, nl: string, start: string)
    requires |g| == 1 && g != "\r" && g != "\n" && |l| == 25 && '\r' !in l && '\n' !in l && nl == "\n"
    requires start == g + nl + (l + nl + nl)
    ensures |start| == 29
    ensures forall i :: 0 <= i < 29 ==> start[i] != '\r' && (start[i] == '\n' <==> i == 1 || i == 27 || i == 28)
  {
    assert forall i :: 2 <= i < 27 ==> start[i] == l[i - 2];
  }

  lemma WholeEnds(start: string, end: string, d: string, m: string)
    requires |start| == 29 && end == "4\r\n\r\n" && |d| == 9 && m == start + end + d
    requires forall i :: 0 <= i < 29 ==> start[i] != '\r' && (start[i] == '\n' <==> i == 1 || i == 27 || i == 28)
    ensures EndsAsMeant(m) && |m| == 43 && m[..29] == start && m[..34] == start + end && m == m[..34] + d
  {
    assert forall i :: 0 <= i < 29 ==> m[i] == start[i];
    assert forall i :: 29 <= i < 34 ==> m[i] == end[i - 29];
  }

  lemma Regrouped(g: string, l: string, k: string, nl: string, cr: string)
    ensures g + nl + (l + nl + (nl + (k + cr + nl + (cr + nl)))) == g + nl + (l + nl + nl) + (k + cr + nl + (cr + nl))
  {
  }

  lemma LineTexts(l: string, k: string, nl: string, cr: string, d: string)
    requires l == "transfer-encoding:chunked" && k == "4" && nl == "\n" && cr == "\r" && d == "00\r\n0\r\n\r\n"
    ensures '\r' !in l && '\n' !in l && |l| == 25 && |d| == 9 && k + cr + nl + (cr + nl) == "4\r\n\r\n"
    ensures "4\r\n\r\n" + d == "4\r\n\r\n00\r\n0\r\n\r\n"
  {
  }

  lemma Layout(g: string, l: string, k: string, nl: string, cr: string, d: string, m: string)
    requires g == "G" && l == "transfer-encoding:chunked" && k == "4" && nl == "\n" && cr == "\r"
    requires d == "00\r\n0\r\n\r\n" && m == g + nl + (l + nl + (nl + (k + cr + nl + (cr + nl)))) + d
    ensures EndsAsMeant(m) && |m| == 43
    ensures m[..29] == g + nl + (l + nl + nl) && m == m[..29] + "4\r\n\r\n00\r\n0\r\n\r\n"
    ensures m[..34] == g + nl + (l + nl + (nl + (k + cr + nl + (cr + nl)))) && m == m[..34] + d
  {
    hide *;
    var start, end := g + nl + (l + nl + nl), k + cr + nl + (cr + nl);
    LineTexts(l, k, nl, cr, d);
    Regrouped(g, l, k, nl, cr);
    StartEnds(g, l, nl, start);
    WholeEnds(start, end, d, m);
    Associates(start, end, d);
  }

  lemma Associates(a: string, b: string, c: string)
    ensures (a + b) + c == a + (b + c)
  {
  }

  lemma FitsChunked(m: string, x: nat)
    requires x <= |m| < 100 && PlanOf(PreflightOf(m[..x])) == Chunked && ChunkedEnd(m, x) == Some(|m|)
    ensures FitsAt(m, x)
  {
    hide PlanOf, PreflightOf, ChunkedEnd;
  }

  /** Such a message is not framed, yet read first however it is cut. */
  lemma TwoEndsOneMessage(g: string, l: string, k: string, nl: string, cr: string, d: string, m: string)
    requires g == "G" && l == "transfer-encoding:chunked" && k == "4" && nl == "\n" && cr == "\r"
    requires d == "00\r\n0\r\n\r\n" && m == g + nl + (l + nl + (nl + (k + cr + nl + (cr + nl)))) + d
    ensures AlwaysFirst(m) && !Framed(m)
  {
    hide *;
    Layout(g, l, k, nl, cr, d, m);
    Announce(g, l, k, nl, cr, "chunked");
    PlanIsChunked("chunked");
    FromFirst(m[..29], "4\r\n\r\n00\r\n0\r\n\r\n");
    FromSecond(m[..34], d);
    FitsChunked(m, 29);
    FitsChunked(m, 34);
    TwoEnds(m);
    FirstExactly(m, 34, 29);
    NotFramed(m);
  }

  lemma NotFramed(m: string)
    requires FirstEnd(m, 29) && SplitHttpHeaders(m[..29]).value.delimiterLength == 2
    ensures !Framed(m)
  {
    hide SplitHttpHeaders, BodyFits;
    if h: nat :| FramedAt(m, h) {
      FirstIsUnique(m, 29, h);
    }
  }
}
