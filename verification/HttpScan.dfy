/**
 Header and chunk scanners of the HTTP layer (src/data/HTTPRequest.cpp and HTTPRequest.hpp): functions that
 say what is found, and the loops that find it.
 */
module HttpScan {
  import opened Chars

  const CRLF := "\r\n"
  const CRLFCRLF := "\r\n\r\n"
  const MAX_HEADER_BYTES := 65536
  const MAX_BODY_BYTES := 16 * 1024 * 1024
  const SIZE_LIMIT := 0x1_0000_0000_0000_0000

  // ----- substring search -----------------------------------------------------------------------

  predicate OccursAt(s: string, pat: string, k: nat) { k + |pat| <= |s| && s[k..k + |pat|] == pat }

  /** First occurrence of pat at or after `from`. */
  function Find(s: string, pat: string, from: nat): (r: Option<nat>)
    ensures r.Some? ==> from <= r.value && OccursAt(s, pat, r.value)
    ensures r.Some? ==> forall k :: from <= k < r.value ==> !OccursAt(s, pat, k)
    ensures r.None? ==> forall k :: from <= k ==> !OccursAt(s, pat, k)
    decreases |s| - from
  {
    if from + |pat| > |s| then None
    else if OccursAt(s, pat, from) then Some(from)
    else Find(s, pat, from + 1)
  }

  lemma OccursInPrefix(s: string, t: string, pat: string, k: nat)
    requires k + |pat| <= |s|
    ensures OccursAt(s + t, pat, k) == OccursAt(s, pat, k)
  {
    assert (s + t)[k..k + |pat|] == s[k..k + |pat|];
  }

  /** A found occurrence stays the first one when more text is appended. */
  lemma FindStable(s: string, t: string, pat: string, from: nat)
    requires Find(s, pat, from).Some?
    ensures Find(s + t, pat, from) == Find(s, pat, from)
  {
    var k := Find(s, pat, from).value;
    OccursInPrefix(s, t, pat, k);
    forall j | from <= j < k ensures !OccursAt(s + t, pat, j) {
      OccursInPrefix(s, t, pat, j);
    }
    FindUnique(s + t, pat, from, k);
  }

  lemma FindUnique(s: string, pat: string, from: nat, k: nat)
    requires from <= k && OccursAt(s, pat, k)
    requires forall j :: from <= j < k ==> !OccursAt(s, pat, j)
    ensures Find(s, pat, from) == Some(k)
  {
  }

  /** What Find promises, for proofs that do not look inside it. */
  lemma FindFacts(s: string, pat: string, from: nat)
    ensures var r := Find(s, pat, from);
            && (r.Some? ==> from <= r.value && r.value + |pat| <= |s| && OccursAt(s, pat, r.value))
            && (r.Some? ==> forall k :: from <= k < r.value ==> !OccursAt(s, pat, k))
            && (r.None? ==> forall k :: from <= k ==> !OccursAt(s, pat, k))
  {
  }

  // ----- header section -------------------------------------------------------------------------

  datatype HeaderSplit = HeaderSplit(headerSectionEnd: nat, delimiterLength: nat)

  /** Boundary between headers and body: CRLFCRLF anywhere first, then LFLF, then CRCR. */
  function SplitHttpHeaders(raw: string): (r: Option<HeaderSplit>)
    ensures r.Some? ==> 0 < r.value.headerSectionEnd <= |raw|
  {
    var crlf := Find(raw, CRLFCRLF, 0);
    if crlf.Some? then Some(HeaderSplit(crlf.value + 4, 4))
    else
      var lf := Find(raw, "\n\n", 0);
      if lf.Some? then Some(HeaderSplit(lf.value + 2, 2))
      else
        var cr := Find(raw, "\r\r", 0);
        if cr.Some? then Some(HeaderSplit(cr.value + 2, 2)) else None
  }

  function TrimFront(s: string): (r: string)
    ensures |r| <= |s|
  {
    if s != "" && IsSpace(s[0]) then TrimFront(s[1..]) else s
  }

  function TrimBack(s: string): (r: string)
    ensures |r| <= |s|
  {
    if s != "" && IsSpace(s[|s| - 1]) then TrimBack(s[..|s| - 1]) else s
  }

  function Trim(s: string): (r: string)
    ensures |r| <= |s|
  {
    TrimBack(TrimFront(s))
  }

  /** Lower case, without white space. */
  function Fold(s: string): string
  {
    if s == "" then "" else (if IsSpace(s[0]) then "" else [Lower(s[0])]) + Fold(s[1..])
  }

  lemma FoldSpace(s: string)
    requires s != "" && IsSpace(s[0])
    ensures Fold(s) == Fold(s[1..])
  {
  }

  /** iequalsAsciiNoSpace. */
  method EqualsIgnoringSpace(a: string, b: string) returns (r: bool)
    ensures r <==> Fold(a) == Fold(b)
  {
    var i, j := 0, 0;
    assert a[0..] == a && b[0..] == b;
    while i < |a| && j < |b|
      invariant i <= |a| && j <= |b|
      invariant Fold(a) == Fold(b) <==> Fold(a[i..]) == Fold(b[j..])
      decreases |a| - i + |b| - j
    {
      i := SkipSpaces(a, i);
      j := SkipSpaces(b, j);
      if i >= |a| || j >= |b| {
        break;
      }
      assert a[i..][1..] == a[i + 1..] && b[j..][1..] == b[j + 1..];
      assert Fold(a[i..]) == [Lower(a[i])] + Fold(a[i + 1..]);
      assert Fold(b[j..]) == [Lower(b[j])] + Fold(b[j + 1..]);
      if Lower(a[i]) != Lower(b[j]) {
        assert Fold(a[i..])[0] != Fold(b[j..])[0];
        return false;
      }
      assert ([Lower(a[i])] + Fold(a[i + 1..]))[1..] == Fold(a[i + 1..]);
      assert ([Lower(b[j])] + Fold(b[j + 1..]))[1..] == Fold(b[j + 1..]);
      i := i + 1;
      j := j + 1;
    }
    i := SkipSpaces(a, i);
    j := SkipSpaces(b, j);
    r := i == |a| && j == |b|;
  }

  method SkipSpaces(s: string, i: nat) returns (j: nat)
    requires i <= |s|
    ensures i <= j <= |s| && (j < |s| ==> !IsSpace(s[j]))
    ensures Fold(s[j..]) == Fold(s[i..])
  {
    j := i;
    while j < |s| && IsSpace(s[j])
      invariant i <= j <= |s| && Fold(s[j..]) == Fold(s[i..])
    {
      FoldSpace(s[j..]);
      assert s[j..][1..] == s[j + 1..];
      j := j + 1;
    }
  }

  function DropCr(line: string): string
  {
    if line != "" && line[|line| - 1] == '\r' then line[..|line| - 1] else line
  }

  /** Lines ended by newlines; a last line without one counts unless it is empty. */
  function Lines(s: string): seq<string>
    decreases |s|
  {
    if s == "" then []
    else
      var n := Find(s, "\n", 0);
      if n.None? then [DropCr(s)] else [DropCr(s[..n.value])] + Lines(s[n.value + 1..])
  }

  /** The value of a header line called `name`, or "" for every other line. */
  function ValueOf(line: string, name: string): string
  {
    var colon := Find(line, ":", 0);
    if colon.None? || Fold(line[..colon.value]) != Fold(name) then "" else Trim(line[colon.value + 1..])
  }

  /** First non-empty value of the header called `name`. */
  function FirstValue(lines: seq<string>, name: string): string
  {
    if lines == [] then ""
    else if ValueOf(lines[0], name) != "" then ValueOf(lines[0], name)
    else FirstValue(lines[1..], name)
  }

  datatype Preflight = Preflight(expectation: string, contentLength: string, transferEncoding: string)

  /** The header lines after the request line. */
  function HeaderLines(headerPrefix: string): seq<string>
  {
    var n := Find(headerPrefix, "\n", 0);
    if n.None? then [] else Lines(headerPrefix[n.value + 1..])
  }

  function PreflightOf(headerPrefix: string): Preflight
  {
    var lines := HeaderLines(headerPrefix);
    Preflight(FirstValue(lines, "expect"), FirstValue(lines, "content-length"), FirstValue(lines, "transfer-encoding"))
  }

  predicate NamesDiffer()
  {
    Fold("expect") != Fold("content-length") && Fold("expect") != Fold("transfer-encoding")
    && Fold("content-length") != Fold("transfer-encoding")
  }

  lemma FoldHead(s: string)
    requires s != "" && !IsSpace(s[0])
    ensures Fold(s) != "" && Fold(s)[0] == Lower(s[0])
  {
  }

  lemma TheNamesDiffer()
    ensures NamesDiffer()
  {
    hide Fold;
    FoldHead("expect");
    FoldHead("content-length");
    FoldHead("transfer-encoding");
  }

  /** What is still missing of one header after some lines have been read. */
  function Pending(value: string, lines: seq<string>, name: string): string
  {
    if value != "" then value else FirstValue(lines, name)
  }

  method ParseHeaderPreflight(headerPrefix: string) returns (out: Preflight)
    ensures out == PreflightOf(headerPrefix)
  {
    var firstNl := Find(headerPrefix, "\n", 0);
    if firstNl.None? {
      return Preflight("", "", "");
    }
    out := ParseHeaderLines(headerPrefix[firstNl.value + 1..]);
  }

  method ParseHeaderLines(text: string) returns (out: Preflight)
    ensures out.expectation == FirstValue(Lines(text), "expect")
    ensures out.contentLength == FirstValue(Lines(text), "content-length")
    ensures out.transferEncoding == FirstValue(Lines(text), "transfer-encoding")
  {
    TheNamesDiffer();
    hide *;
    out := Preflight("", "", "");
    var rest := text;
    ghost var all := Lines(text);
    PendingStart(all);
    while rest != ""
      invariant Pending(out.expectation, Lines(rest), "expect") == FirstValue(all, "expect")
      invariant Pending(out.contentLength, Lines(rest), "content-length") == FirstValue(all, "content-length")
      invariant Pending(out.transferEncoding, Lines(rest), "transfer-encoding") == FirstValue(all, "transfer-encoding")
      decreases |rest|
    {
      LinesStep(rest);
      var lineEnd := Find(rest, "\n", 0);
      FindBound(rest, "\n");
      var line := if lineEnd.None? then rest else rest[..lineEnd.value];
      rest := if lineEnd.None? then "" else rest[lineEnd.value + 1..];
      ghost var was := out;
      out := TakeHeader(out, DropCr(line));
      PendingStep(was.expectation, DropCr(line), Lines(rest), "expect");
      PendingStep(was.contentLength, DropCr(line), Lines(rest), "content-length");
      PendingStep(was.transferEncoding, DropCr(line), Lines(rest), "transfer-encoding");
      if out.expectation != "" && out.contentLength != "" && out.transferEncoding != "" {
        PendingFound(out, Lines(rest));
        return;
      }
    }
    LinesEnd();
    PendingEnds(out.expectation, "expect");
    PendingEnds(out.contentLength, "content-length");
    PendingEnds(out.transferEncoding, "transfer-encoding");
  }

  lemma PendingStart(lines: seq<string>)
    ensures Pending("", lines, "expect") == FirstValue(lines, "expect")
    ensures Pending("", lines, "content-length") == FirstValue(lines, "content-length")
    ensures Pending("", lines, "transfer-encoding") == FirstValue(lines, "transfer-encoding")
  {
  }

  lemma PendingStep(value: string, line: string, rest: seq<string>, name: string)
    ensures Pending(value, [line] + rest, name) == Pending(if value != "" then value else ValueOf(line, name), rest, name)
  {
    assert ([line] + rest)[1..] == rest;
  }

  lemma PendingEnds(value: string, name: string)
    ensures Pending(value, [], name) == value && FirstValue([], name) == ""
  {
  }

  lemma PendingFound(out: Preflight, lines: seq<string>)
    requires out.expectation != "" && out.contentLength != "" && out.transferEncoding != ""
    ensures Pending(out.expectation, lines, "expect") == out.expectation
    ensures Pending(out.contentLength, lines, "content-length") == out.contentLength
    ensures Pending(out.transferEncoding, lines, "transfer-encoding") == out.transferEncoding
  {
  }

  lemma LinesStep(s: string)
    requires s != ""
    ensures var n := Find(s, "\n", 0);
            var line := if n.None? then s else s[..n.value];
            var rest := if n.None? then "" else s[n.value + 1..];
            Lines(s) == [DropCr(line)] + Lines(rest)
  {
  }

  lemma FindBound(s: string, pat: string)
    requires |pat| == 1
    ensures Find(s, pat, 0).Some? ==> Find(s, pat, 0).value < |s|
  {
  }

  lemma LinesEnd()
    ensures Lines("") == []
  {
  }

  /** One header line; each field keeps its first non-empty value. */
  method TakeHeader(was: Preflight, line: string) returns (out: Preflight)
    requires NamesDiffer()
    ensures out.expectation == if was.expectation != "" then was.expectation else ValueOf(line, "expect")
    ensures out.contentLength == if was.contentLength != "" then was.contentLength else ValueOf(line, "content-length")
    ensures out.transferEncoding
         == if was.transferEncoding != "" then was.transferEncoding else ValueOf(line, "transfer-encoding")
  {
    hide Fold, Find, Trim;
    out := was;
    FindBound(line, ":");
    var colon := Find(line, ":", 0);
    if colon.None? {
      return;
    }
    var key := line[..colon.value];
    var value := Trim(line[colon.value + 1..]);
    var isExpect := EqualsIgnoringSpace(key, "expect");
    var isLength := EqualsIgnoringSpace(key, "content-length");
    var isEncoding := EqualsIgnoringSpace(key, "transfer-encoding");
    if out.expectation == "" && isExpect {
      out := out.(expectation := value);
    } else if out.contentLength == "" && isLength {
      out := out.(contentLength := value);
    } else if out.transferEncoding == "" && isEncoding {
      out := out.(transferEncoding := value);
    }
  }

  // ----- tokens and numbers ---------------------------------------------------------------------

  function LowerAll(s: string): string { if s == "" then "" else [Lower(s[0])] + LowerAll(s[1..]) }

  /** Comma-separated parts. */
  function Parts(s: string): seq<string>
    decreases |s|
  {
    var comma := Find(s, ",", 0);
    if comma.None? then [s] else [s[..comma.value]] + Parts(s[comma.value + 1..])
  }

  /** Nothing but blanks and tabs. */
  predicate Blank(s: string) { forall k :: 0 <= k < |s| ==> s[k] == ' ' || s[k] == '\t' }

  /** Some part that is not blank is the token when it is trimmed and in lower case. */
  predicate AnyPart(parts: seq<string>, token: string)
  {
    parts != [] && ((!Blank(parts[0]) && LowerAll(Trim(parts[0])) == token) || AnyPart(parts[1..], token))
  }

  predicate HasToken(value: string, token: string) { AnyPart(Parts(value), token) }

  /** A leading blank or comma does not matter. */
  lemma TokenSkip(s: string, token: string)
    requires s != "" && (s[0] == ' ' || s[0] == '\t' || s[0] == ',')
    ensures HasToken(s, token) == HasToken(s[1..], token)
  {
    hide *;
    if s[0] == ',' {
      CommaParts(s);
      EmptyPart(Parts(s[1..]), token);
    } else {
      BlankParts(s);
      var head, rest := Parts(s[1..])[0], Parts(s[1..])[1..];
      assert Parts(s[1..]) == [head] + rest;
      BlankPart(s[0], head, rest, token);
    }
    TokenInParts(s, token);
    TokenInParts(s[1..], token);
  }

  lemma TokenInParts(s: string, token: string)
    ensures HasToken(s, token) == AnyPart(Parts(s), token)
  {
  }

  lemma CommaParts(s: string)
    requires s != "" && s[0] == ','
    ensures Parts(s) == [""] + Parts(s[1..])
  {
    FindUnique(s, ",", 0, 0);
    assert s[..0] == "";
  }

  lemma EmptyPart(parts: seq<string>, token: string)
    ensures AnyPart([""] + parts, token) == AnyPart(parts, token)
  {
    assert ([""] + parts)[1..] == parts;
  }

  /** A blank in front stays in front of the first part. */
  lemma BlankParts(s: string)
    requires s != "" && s[0] != ','
    ensures Parts(s[1..]) != [] && Parts(s) == [[s[0]] + Parts(s[1..])[0]] + Parts(s[1..])[1..]
  {
    FindTail(s, ",");
    var t := s[1..];
    var next := Find(t, ",", 0);
    FindFacts(t, ",", 0);
    hide Find;
    if next.Some? {
      assert s[next.value + 2..] == t[next.value + 1..];
      assert s[..next.value + 1] == [s[0]] + t[..next.value];
      assert Parts(t)[1..] == Parts(t[next.value + 1..]);
    } else {
      assert s == [s[0]] + t;
      assert Parts(t)[1..] == [];
    }
  }

  lemma BlankPart(blank: char, head: string, rest: seq<string>, token: string)
    requires blank == ' ' || blank == '\t'
    ensures AnyPart([[blank] + head] + rest, token) == AnyPart([head] + rest, token)
  {
    assert ([blank] + head)[1..] == head;
    assert Trim([blank] + head) == Trim(head);
    assert Blank([blank] + head) == Blank(head) by {
      assert forall k :: 0 <= k < |head| ==> ([blank] + head)[k + 1] == head[k];
    }
    assert ([[blank] + head] + rest)[1..] == rest && ([head] + rest)[1..] == rest;
  }

  lemma OccursTail(s: string, pat: string, k: nat)
    requires s != ""
    ensures OccursAt(s, pat, k + 1) == OccursAt(s[1..], pat, k)
  {
    if k + 1 + |pat| <= |s| {
      assert s[k + 1..k + 1 + |pat|] == s[1..][k..k + |pat|];
    }
  }

  lemma NotAtStart(s: string, pat: string)
    requires s != "" && |pat| == 1 && s[0] != pat[0]
    ensures !OccursAt(s, pat, 0)
  {
    assert s[0..1][0] == s[0];
  }

  lemma FindTail(s: string, pat: string)
    requires s != "" && |pat| == 1 && s[0] != pat[0]
    ensures Find(s, pat, 0) == if Find(s[1..], pat, 0).None? then None else Some(Find(s[1..], pat, 0).value + 1)
  {
    hide *;
    NotAtStart(s, pat);
    var t := s[1..];
    FindFacts(s, pat, 0);
    FindFacts(t, pat, 0);
    var r := Find(t, pat, 0);
    if r.Some? {
      OccursTail(s, pat, r.value);
      forall k | 0 <= k < r.value + 1 ensures !OccursAt(s, pat, k) {
        if k > 0 {
          OccursTail(s, pat, k - 1);
        }
      }
      FindUnique(s, pat, 0, r.value + 1);
    } else if Find(s, pat, 0).Some? {
      OccursTail(s, pat, Find(s, pat, 0).value - 1);
    }
  }

  /** The first part is the token, or the search goes on at the comma. */
  lemma TokenPart(s: string, j: nat, token: string)
    requires j > 0 && j <= |s| && s[0] != ' ' && s[0] != '\t' && (forall k :: 0 <= k < j ==> s[k] != ',') && (j < |s| ==> s[j] == ',')
    ensures HasToken(s, token) == (LowerAll(Trim(s[..j])) == token || HasToken(s[j..], token))
  {
    forall k | 0 <= k < j ensures !OccursAt(s, ",", k) {
      assert s[k..k + 1][0] == s[k];
    }
    if j < |s| {
      assert OccursAt(s, ",", j) by {
        assert s[j..j + 1] == ",";
      }
      FindUnique(s, ",", 0, j);
      assert Parts(s)[1..] == Parts(s[j + 1..]);
      TokenSkip(s[j..], token);
      assert s[j..][1..] == s[j + 1..];
    } else {
      assert s[..j] == s && s[j..] == "";
      NoToken(s, token);
      EmptyHasNoToken(token);
    }
  }

  lemma NoToken(s: string, token: string)
    requires forall k :: 0 <= k < |s| ==> s[k] != ','
    ensures HasToken(s, token) == (!Blank(s) && LowerAll(Trim(s)) == token)
  {
    forall k | 0 <= k ensures !OccursAt(s, ",", k) {
      if k < |s| {
        assert s[k..k + 1][0] == s[k];
      }
    }
    var parts := Parts(s);
    assert parts == [s];
    assert parts[1..] == [];
    assert AnyPart(parts, token) == ((!Blank(s) && LowerAll(Trim(s)) == token) || AnyPart(parts[1..], token));
  }

  method EqualsLowered(part: string, token: string) returns (r: bool)
    ensures r <==> LowerAll(part) == token
  {
    LowerAllShape(part);
    if |part| != |token| {
      return false;
    }
    var k := 0;
    while k < |token|
      invariant k <= |token|
      invariant forall i :: 0 <= i < k ==> LowerAll(part)[i] == token[i]
    {
      if Lower(part[k]) != token[k] {
        return false;
      }
      k := k + 1;
    }
    return true;
  }

  lemma LowerAllShape(s: string)
    ensures |LowerAll(s)| == |s| && forall k :: 0 <= k < |s| ==> LowerAll(s)[k] == Lower(s[k])
  {
  }

  /** httpConnectionHeaderHasToken. */
  method HeaderHasToken(value: string, token: string) returns (r: bool)
    ensures r <==> HasToken(value, token)
  {
    hide HasToken, LowerAll;
    var i := 0;
    assert value[0..] == value;
    while i < |value|
      invariant i <= |value|
      invariant HasToken(value, token) == HasToken(value[i..], token)
      decreases |value| - i
    {
      ghost var i0 := i;
      while i < |value| && (value[i] == ' ' || value[i] == '\t' || value[i] == ',')
        invariant i0 <= i <= |value|
        invariant HasToken(value, token) == HasToken(value[i..], token)
      {
        TokenSkip(value[i..], token);
        assert value[i..][1..] == value[i + 1..];
        i := i + 1;
      }
      if i >= |value| {
        break;
      }
      var j := i;
      while j < |value| && value[j] != ','
        invariant i <= j <= |value|
        invariant forall k :: i <= k < j ==> value[k] != ','
      {
        j := j + 1;
      }
      TokenPart(value[i..], j - i, token);
      assert value[i..][..j - i] == value[i..j] && value[i..][j - i..] == value[j..];
      var match_ := EqualsLowered(Trim(value[i..j]), token);
      if match_ {
        return true;
      }
      i := j;
    }
    assert value[i..] == "";
    EmptyHasNoToken(token);
    return false;
  }

  lemma EmptyHasNoToken(token: string)
    ensures !HasToken("", token)
  {
    hide HasToken;
    NoToken("", token);
  }

  /** httpExpectIs100Continue. */
  predicate IsContinue(value: string)
  {
    var t := Trim(value);
    |t| >= 12 && LowerAll(t[..12]) == "100-continue" && (|t| > 12 ==> t[12] == ',' || IsSpace(t[12]))
  }

  /** std::from_chars over the whole text into 64 unsigned bits. */
  function FullNumber(s: string, base: nat): Option<nat>
    requires base == 10 || base == 16
  {
    if s == "" || !DigitsIn(s, base) || NumberValue(s, base) >= SIZE_LIMIT then None else Some(NumberValue(s, base))
  }

  // ----- chunked bodies -------------------------------------------------------------------------

  /** Size announced by a chunk line: up to a semicolon, trimmed, hexadecimal. */
  function ChunkSize(line: string): Option<nat>
  {
    var semi := Find(line, ";", 0);
    FullNumber(Trim(if semi.Some? then line[..semi.value] else line), 16)
  }

  lemma ChunkSizeFits(line: string)
    ensures ChunkSize(line).Some? ==> ChunkSize(line).value < SIZE_LIMIT
  {
    hide Find, Trim, NumberValue;
  }

  /** End of the chunked body that starts at pos; None when it is incomplete or malformed. */
  function ChunkedEnd(raw: string, pos: nat): (r: Option<nat>)
    ensures r.Some? ==> pos < r.value <= |raw|
    decreases |raw| - pos
  {
    var lineEnd := Find(raw, CRLF, pos);
    if lineEnd.None? then None
    else
      var size := ChunkSize(raw[pos..lineEnd.value]);
      var p := lineEnd.value + 2;
      if size.None? then None
      else if size.value == 0 then
        if OccursAt(raw, CRLF, p) then Some(p + 2)
        else
          var trailerEnd := Find(raw, CRLFCRLF, p);
          if trailerEnd.None? then None else Some(trailerEnd.value + 4)
      else if !OccursAt(raw, CRLF, p + size.value) then None
      else ChunkedEnd(raw, p + size.value + 2)
  }

  /** Unsigned 64-bit arithmetic. */
  function Wrap(n: nat): (r: nat)
    ensures n < SIZE_LIMIT ==> r == n
  {
    n % SIZE_LIMIT
  }

  /** Where the next chunk starts if the data of this one starts at p. */
  function Resume(raw: string, p: nat, size: nat): Option<nat>
  {
    if OccursAt(raw, CRLF, p + size) then Some(p + size + 2) else None
  }

  /** The same in unsigned 64-bit arithmetic. */
  function Resume64(raw: string, p: nat, size: nat): Option<nat>
  {
    var end := Wrap(p + size);
    if Wrap(end + 2) <= |raw| && OccursAt(raw, CRLF, end) then Some(end + 2) else None
  }

  /** The 64-bit sum comes out at a CRLF that is already behind, or two bytes before 2^64. */
  predicate WrapsBack(raw: string, p: nat, size: nat)
  {
    p + size + 2 >= SIZE_LIMIT && (p + size < SIZE_LIMIT || OccursAt(raw, CRLF, Wrap(p + size)))
  }

  /** The next chunk is the same in both arithmetics exactly when the sum does not come out at a CRLF behind. */
  lemma ResumeExactly(raw: string, p: nat, size: nat)
    requires |raw| < SIZE_LIMIT - 2 && p <= |raw| + 2 && size < SIZE_LIMIT
    ensures Resume64(raw, p, size) == Resume(raw, p, size)
            <==> !(p + size >= SIZE_LIMIT && OccursAt(raw, CRLF, p + size - SIZE_LIMIT))
    ensures p + size >= SIZE_LIMIT && OccursAt(raw, CRLF, p + size - SIZE_LIMIT) ==>
              Resume(raw, p, size).None? && Resume64(raw, p, size) == Some(p + size - SIZE_LIMIT + 2) && p + size - SIZE_LIMIT < p
  {
    hide OccursAt;
    Inside(raw, CRLF, p + size);
    if p + size >= SIZE_LIMIT {
      assert Wrap(p + size) == p + size - SIZE_LIMIT;
      Inside(raw, CRLF, p + size - SIZE_LIMIT);
    } else {
      assert Wrap(p + size) == p + size;
    }
  }

  lemma Inside(raw: string, pat: string, k: nat)
    ensures OccursAt(raw, pat, k) ==> k + |pat| <= |raw|
  {
  }

  /** Wherever the scan from pos comes to, the sum does not come out behind. */
  predicate OnCourse(raw: string, pos: nat)
    decreases |raw| - pos
  {
    var lineEnd := Find(raw, CRLF, pos);
    lineEnd.Some? ==>
      var size := ChunkSize(raw[pos..lineEnd.value]);
      var p := lineEnd.value + 2;
      size.Some? && size.value > 0 ==>
        !WrapsBack(raw, p, size.value)
        && (OccursAt(raw, CRLF, p + size.value) ==> OnCourse(raw, p + size.value + 2))
  }

  /** Size announced by the line [pos, lineEnd) of a chunk. */
  method ParseSizeLine(raw: string, pos: nat, lineEnd: nat) returns (size: Option<nat>)
    requires pos <= lineEnd <= |raw|
    ensures size == ChunkSize(raw[pos..lineEnd])
  {
    var sizeLine := raw[pos..lineEnd];
    var semi := Find(sizeLine, ";", 0);
    if semi.Some? {
      sizeLine := sizeLine[..semi.value];
    }
    sizeLine := Trim(sizeLine);
    if sizeLine == "" {
      return None;
    }
    size := FullNumber(sizeLine, 16);
  }

  /** The end of the data of a chunk and the CRLF after it. */
  method NextChunk(raw: string, p: nat, size: nat) returns (next: Option<nat>)
    requires |raw| < SIZE_LIMIT - 2 && p <= |raw| && size < SIZE_LIMIT && !WrapsBack(raw, p, size)
    ensures next == Resume64(raw, p, size) == Resume(raw, p, size)
  {
    var chunkDataEnd := Wrap(p + size);
    if Wrap(chunkDataEnd + 2) > |raw| {
      return None;
    }
    if raw[chunkDataEnd..chunkDataEnd + 2] != CRLF {
      return None;
    }
    next := Some(chunkDataEnd + 2);
  }

  method FindChunkedBodyEnd(raw: string, bodyStart: nat) returns (r: Option<nat>)
    requires OnCourse(raw, bodyStart) && |raw| < SIZE_LIMIT - 2
    ensures r == ChunkedEnd(raw, bodyStart)
  {
    hide ChunkSize, ChunkedEnd, OnCourse, Find, WrapsBack;
    var pos := bodyStart;
    while true
      invariant OnCourse(raw, pos) && ChunkedEnd(raw, pos) == ChunkedEnd(raw, bodyStart)
      decreases |raw| - pos
    {
      ChunkStep(raw, pos);
      var lineEnd := Find(raw, CRLF, pos);
      if lineEnd.None? {
        return None;
      }
      var chunkSize := ParseSizeLine(raw, pos, lineEnd.value);
      if chunkSize.None? {
        return None;
      }
      ghost var was := pos;
      pos := lineEnd.value + 2;
      if chunkSize.value == 0 {
        if OccursAt(raw, CRLF, pos) {
          return Some(pos + 2);
        }
        var trailerEnd := Find(raw, CRLFCRLF, pos);
        return if trailerEnd.None? then None else Some(trailerEnd.value + 4);
      }
      ChunkSizeFits(raw[was..lineEnd.value]);
      var next := NextChunk(raw, pos, chunkSize.value);
      if next.None? {
        return None;
      }
      pos := next.value;
    }
  }

  /** One round of the scan: what it returns, or where the next chunk starts. */
  lemma ChunkStep(raw: string, pos: nat)
    requires OnCourse(raw, pos)
    ensures var lineEnd := Find(raw, CRLF, pos);
            if lineEnd.None? then ChunkedEnd(raw, pos) == None
            else
              && pos <= lineEnd.value && lineEnd.value + 2 <= |raw|
              && var size := ChunkSize(raw[pos..lineEnd.value]);
                 var p := lineEnd.value + 2;
                 if size.None? then ChunkedEnd(raw, pos) == None
                 else if size.value == 0 then
                   if OccursAt(raw, CRLF, p) then ChunkedEnd(raw, pos) == Some(p + 2)
                   else
                     ChunkedEnd(raw, pos)
                     == if Find(raw, CRLFCRLF, p).None? then None else Some(Find(raw, CRLFCRLF, p).value + 4)
                 else
                   !WrapsBack(raw, p, size.value)
                   && (if OccursAt(raw, CRLF, p + size.value) then
                         OnCourse(raw, p + size.value + 2) && ChunkedEnd(raw, pos) == ChunkedEnd(raw, p + size.value + 2)
                       else ChunkedEnd(raw, pos) == None)
  {
    hide ChunkSize, Find, WrapsBack;
  }
}
