/** The chunk scanner against the chunked transfer coding of section 7.1 of RFC 9112. */
module HttpChunks {
  import opened Chars
  import opened HttpScan

  // ----- the encoding ---------------------------------------------------------------------------

  /** A chunk line is `size` (hexadecimal) and `ext`: nothing, or blanks, a semicolon and anything but CRLF. */
  datatype Chunk = Chunk(size: string, ext: string, data: string)

  datatype Body = Body(chunks: seq<Chunk>, lastSize: string, lastExt: string, trailers: seq<string>)

  predicate NoCrlf(s: string) { forall k {:trigger OccursAt(s, CRLF, k)} :: 0 <= k < |s| ==> !OccursAt(s, CRLF, k) }

  predicate ExtOk(ext: string)
  {
    ext == "" ||
    (NoCrlf(ext) && exists n :: 0 <= n < |ext| && ext[n] == ';' && forall k :: 0 <= k < n ==> ext[k] == ' ' || ext[k] == '\t')
  }

  predicate SizeOk(size: string, n: nat)
  {
    size != "" && DigitsIn(size, 16) && NumberValue(size, 16) == n < SIZE_LIMIT
  }

  predicate ChunkOk(c: Chunk) { c.data != "" && SizeOk(c.size, |c.data|) && ExtOk(c.ext) }

  predicate BodyOk(b: Body)
  {
    && (forall k :: 0 <= k < |b.chunks| ==> ChunkOk(b.chunks[k]))
    && SizeOk(b.lastSize, 0) && ExtOk(b.lastExt)
    && (forall k :: 0 <= k < |b.trailers| ==> b.trailers[k] != "" && NoCrlf(b.trailers[k]))
  }

  function EncodeChunk(c: Chunk): string { c.size + c.ext + CRLF + (c.data + CRLF) }

  function EncodeChunks(chunks: seq<Chunk>): string
  {
    if chunks == [] then "" else EncodeChunk(chunks[0]) + EncodeChunks(chunks[1..])
  }

  function EncodeTrailers(lines: seq<string>): string
  {
    if lines == [] then CRLF else lines[0] + CRLF + EncodeTrailers(lines[1..])
  }

  function LastLine(b: Body): string { b.lastSize + b.lastExt + CRLF + EncodeTrailers(b.trailers) }

  function Encode(b: Body): string
  {
    EncodeChunks(b.chunks) + LastLine(b)
  }

  // ----- one line -------------------------------------------------------------------------------

  /** CRLF at a position of the later half of a text. */
  lemma OccursShift(a: string, b: string, pat: string, k: nat)
    ensures OccursAt(a + b, pat, |a| + k) == OccursAt(b, pat, k)
  {
    if k + |pat| <= |b| {
      assert (a + b)[|a| + k..|a| + k + |pat|] == b[k..k + |pat|];
    }
  }

  lemma FindShift(a: string, b: string, pat: string, r: nat)
    requires Find(b, pat, 0) == Some(r)
    ensures Find(a + b, pat, |a|) == Some(|a| + r)
  {
    hide *;
    FindFacts(b, pat, 0);
    OccursShift(a, b, pat, r);
    forall k | |a| <= k < |a| + r ensures !OccursAt(a + b, pat, k) {
      OccursShift(a, b, pat, k - |a|);
    }
    FindUnique(a + b, pat, |a|, |a| + r);
  }

  /** No CRLF starts inside a line that has none, even when CRLF follows it. */
  lemma NoCrlfInLine(line: string, tail: string, k: nat)
    requires NoCrlf(line) && k < |line|
    ensures !OccursAt(line + CRLF + tail, CRLF, k)
  {
    var s := line + CRLF + tail;
    if k + 1 < |line| {
      assert s[k..k + 2] == line[k..k + 2];
      assert !OccursAt(line, CRLF, k);
    } else {
      assert s[k..k + 2][1] == '\r';
    }
  }

  lemma LineEnds(line: string, tail: string)
    requires NoCrlf(line)
    ensures Find(line + CRLF + tail, CRLF, 0) == Some(|line|)
  {
    var s := line + CRLF + tail;
    assert s[|line|..|line| + 2] == CRLF;
    forall k | 0 <= k < |line| ensures !OccursAt(s, CRLF, k) {
      NoCrlfInLine(line, tail, k);
    }
    hide NoCrlf;
    FindUnique(s, CRLF, 0, |line|);
  }

  /** A line without CRLF inside ends at the CRLF put after it. */
  lemma LineEndsAt(before: string, line: string, tail: string)
    requires NoCrlf(line)
    ensures Find(before + (line + CRLF + tail), CRLF, |before|) == Some(|before| + |line|)
  {
    hide *;
    LineEnds(line, tail);
    FindShift(before, line + CRLF + tail, CRLF, |line|);
  }

  lemma DigitsNotSpace(s: string)
    requires DigitsIn(s, 16)
    ensures forall k :: 0 <= k < |s| ==> !IsSpace(s[k]) && s[k] != ';' && s[k] != '\r' && s[k] != '\n'
  {
  }

  lemma {:induction false} TrimBlanks(size: string, blanks: string)
    requires size != "" && forall k :: 0 <= k < |size| ==> !IsSpace(size[k])
    requires forall k :: 0 <= k < |blanks| ==> IsSpace(blanks[k])
    ensures Trim(size + blanks) == size
    decreases |blanks|
  {
    var s := size + blanks;
    assert TrimFront(s) == s;
    if blanks == "" {
      assert s == size;
      assert TrimBack(size) == size;
    } else {
      assert s[..|s| - 1] == size + blanks[..|blanks| - 1];
      TrimBlanks(size, blanks[..|blanks| - 1]);
      assert TrimFront(s[..|s| - 1]) == s[..|s| - 1];
    }
  }

  lemma NotCr(line: string, k: nat)
    requires k < |line| && line[k] != '\r'
    ensures !OccursAt(line, CRLF, k)
  {
    if k + 2 <= |line| {
      assert line[k..k + 2][0] == line[k];
    }
  }

  lemma SizeLine(size: string, ext: string, n: nat)
    requires SizeOk(size, n) && ExtOk(ext)
    ensures NoCrlf(size + ext) && ChunkSize(size + ext) == Some(n)
  {
    var line := size + ext;
    DigitsNotSpace(size);
    forall k | 0 <= k < |line| ensures !OccursAt(line, CRLF, k) {
      if k < |size| {
        assert line[k] == size[k] != '\r';
        NotCr(line, k);
      } else {
        OccursShift(size, ext, CRLF, k - |size|);
        assert !OccursAt(ext, CRLF, k - |size|);
      }
    }
    if ext == "" {
      assert line == size;
      NoSemicolon(size, ext);
      TrimBlanks(size, "");
      assert size + "" == size;
    } else {
      var m :| 0 <= m < |ext| && ext[m] == ';' && forall k :: 0 <= k < m ==> ext[k] == ' ' || ext[k] == '\t';
      FirstSemicolon(size, ext, m);
      assert line[..|size| + m] == size + ext[..m];
      TrimBlanks(size, ext[..m]);
    }
  }

  lemma NoSemicolon(size: string, ext: string)
    requires ext == "" && forall k :: 0 <= k < |size| ==> size[k] != ';'
    ensures Find(size, ";", 0) == None
  {
    forall k | 0 <= k ensures !OccursAt(size, ";", k) {
      if k < |size| {
        assert size[k..k + 1][0] == size[k];
      }
    }
  }

  lemma FirstSemicolon(size: string, ext: string, m: nat)
    requires m < |ext| && ext[m] == ';'
    requires forall k :: 0 <= k < |size| ==> size[k] != ';'
    requires forall k :: 0 <= k < m ==> ext[k] != ';'
    ensures Find(size + ext, ";", 0) == Some(|size| + m)
  {
    var line := size + ext;
    assert line[|size| + m..|size| + m + 1] == ";";
    forall k | 0 <= k < |size| + m ensures !OccursAt(line, ";", k) {
      assert line[k..k + 1][0] == line[k];
      assert line[k] == if k < |size| then size[k] else ext[k - |size|];
    }
    FindUnique(line, ";", 0, |size| + m);
  }

  // ----- one round of the scan ------------------------------------------------------------------

  /** What one round does with a line that ends at `e` and announces `n` bytes. */
  lemma ScanRound(s: string, pos: nat, e: nat, n: nat)
    requires Find(s, CRLF, pos) == Some(e) && ChunkSize(s[pos..e]) == Some(n)
    ensures var p := e + 2;
            ChunkedEnd(s, pos)
            == if n > 0 then
                 if OccursAt(s, CRLF, p + n) then ChunkedEnd(s, p + n + 2) else None
               else if OccursAt(s, CRLF, p) then Some(p + 2)
               else
                 if Find(s, CRLFCRLF, p).None? then None else Some(Find(s, CRLFCRLF, p).value + 4)
  {
    hide ChunkSize, Find, OccursAt;
  }

  lemma LineIn(before: string, line: string, after: string, n: nat)
    requires NoCrlf(line) && ChunkSize(line) == Some(n)
    ensures var s := before + (line + CRLF + after);
            var e := |before| + |line|;
            Find(s, CRLF, |before|) == Some(e) && ChunkSize(s[|before|..e]) == Some(n)
  {
    hide *;
    var s := before + (line + CRLF + after);
    LineEndsAt(before, line, after);
    assert s[|before|..|before| + |line|] == line;
  }

  lemma ScanChunk(before: string, c: Chunk, tail: string)
    requires ChunkOk(c)
    ensures var s := before + (EncodeChunk(c) + tail);
            ChunkedEnd(s, |before|) == ChunkedEnd(s, |before| + |EncodeChunk(c)|)
  {
    hide *;
    var line := c.size + c.ext;
    var s := before + (EncodeChunk(c) + tail);
    ChunkFacts(before, c, tail);
    ScanRound(s, |before|, |before| + |line|, |c.data|);
  }

  lemma ChunkFacts(before: string, c: Chunk, tail: string)
    requires ChunkOk(c)
    ensures var s := before + (EncodeChunk(c) + tail);
            var e := |before| + |c.size + c.ext|;
            && |before| + |EncodeChunk(c)| == e + 2 + |c.data| + 2
            && e <= |s| && Find(s, CRLF, |before|) == Some(e) && ChunkSize(s[|before|..e]) == Some(|c.data|)
            && OccursAt(s, CRLF, e + 2 + |c.data|) && |c.data| > 0
  {
    hide *;
    ChunkShape(before, c, tail);
    ChunkLine(c);
    LineIn(before, c.size + c.ext, c.data + CRLF + tail, |c.data|);
    ChunkDataEnds(before + (c.size + c.ext + CRLF), c.data, tail);
    Regroup(before, c.size + c.ext + CRLF, c.data + CRLF + tail);
  }

  lemma Regroup(a: string, b: string, c: string)
    ensures a + (b + c) == (a + b) + c
  {
  }

  lemma ChunkLine(c: Chunk)
    requires ChunkOk(c)
    ensures NoCrlf(c.size + c.ext) && ChunkSize(c.size + c.ext) == Some(|c.data|) && |c.data| > 0
  {
    hide NoCrlf, ChunkSize;
    SizeLine(c.size, c.ext, |c.data|);
  }

  lemma ChunkShape(before: string, c: Chunk, tail: string)
    ensures before + (EncodeChunk(c) + tail) == before + ((c.size + c.ext) + CRLF + (c.data + CRLF + tail))
    ensures |EncodeChunk(c)| == |c.size + c.ext| + 2 + |c.data| + 2
    ensures |before + (c.size + c.ext + CRLF)| == |before| + |c.size + c.ext| + 2
  {
    assert EncodeChunk(c) + tail == (c.size + c.ext) + CRLF + (c.data + CRLF + tail);
  }

  lemma ChunkDataEnds(before: string, data: string, tail: string)
    ensures OccursAt(before + (data + CRLF + tail), CRLF, |before| + |data|)
  {
    OccursShift(before, data + CRLF + tail, CRLF, |data|);
    assert (data + CRLF + tail)[|data|..|data| + 2] == CRLF;
  }

  predicate StartsCrlf(s: string) { OccursAt(s, CRLF, 0) }

  lemma TrailersStart(lines: seq<string>, tail: string)
    requires lines != [] && lines[0] != "" && NoCrlf(lines[0])
    ensures !StartsCrlf(EncodeTrailers(lines) + tail)
  {
    var s := EncodeTrailers(lines) + tail;
    var line := lines[0];
    assert s[0] == line[0];
    if |line| == 1 {
      assert s[1] == '\r';
      assert s[..2][1] == '\r';
    } else {
      assert s[1] == line[1];
      assert s[0..2] == line[0..2];
      assert !OccursAt(line, CRLF, 0);
    }
  }

  /** The empty line after the trailers is the first CRLFCRLF. */
  lemma {:induction false} TrailersEnd(lines: seq<string>, tail: string)
    requires lines != [] && forall k :: 0 <= k < |lines| ==> lines[k] != "" && NoCrlf(lines[k])
    ensures |EncodeTrailers(lines)| >= 4
    ensures Find(EncodeTrailers(lines) + tail, CRLFCRLF, 0) == Some(|EncodeTrailers(lines)| - 4)
    decreases |lines|
  {
    hide *;
    var line := lines[0];
    var after := EncodeTrailers(lines[1..]) + tail;
    TrailerLine(lines, tail, CRLF);
    assert NoCrlf(line);
    if |lines| == 1 {
      LastTrailer(lines, tail);
      FirstBlankLine(line, after);
    } else {
      TrailersStart(lines[1..], tail);
      TrailersEnd(lines[1..], tail);
      LaterBlankLine(line, after, CRLF, CRLFCRLF);
    }
  }

  lemma TrailerLine(lines: seq<string>, tail: string, crlf: string)
    requires lines != [] && crlf == CRLF
    ensures EncodeTrailers(lines) + tail == lines[0] + crlf + (EncodeTrailers(lines[1..]) + tail)
    ensures |EncodeTrailers(lines)| == |lines[0]| + 2 + |EncodeTrailers(lines[1..])|
  {
  }

  lemma LastTrailer(lines: seq<string>, tail: string)
    requires |lines| == 1
    ensures |EncodeTrailers(lines[1..])| == 2 && StartsCrlf(EncodeTrailers(lines[1..]) + tail)
  {
    assert EncodeTrailers(lines[1..]) == CRLF;
    assert (EncodeTrailers(lines[1..]) + tail)[0..2] == CRLF;
  }

  lemma NoFourInLine(line: string, after: string, k: nat)
    requires NoCrlf(line) && k < |line|
    ensures !OccursAt(line + CRLF + after, CRLFCRLF, k)
  {
    NoCrlfInLine(line, after, k);
    FourIsTwice(line + CRLF + after, k);
  }

  lemma FourAfterLine(line: string, after: string)
    ensures OccursAt(line + CRLF + after, CRLFCRLF, |line|) == StartsCrlf(after)
    ensures !OccursAt(line + CRLF + after, CRLFCRLF, |line| + 1)
  {
    var s := line + CRLF + after;
    FourIsTwice(s, |line|);
    assert s[|line|..|line| + 2] == CRLF;
    OccursShift(line + CRLF, after, CRLF, 0);
    if |line| + 5 <= |s| {
      assert s[|line| + 1..|line| + 5][0] == '\n';
    }
  }

  lemma FirstBlankLine(line: string, after: string)
    requires NoCrlf(line) && StartsCrlf(after)
    ensures Find(line + CRLF + after, CRLFCRLF, 0) == Some(|line|)
  {
    var s := line + CRLF + after;
    FourAfterLine(line, after);
    forall k | 0 <= k < |line| ensures !OccursAt(s, CRLFCRLF, k) {
      NoFourInLine(line, after, k);
    }
    hide OccursAt, NoCrlf;
    FindUnique(s, CRLFCRLF, 0, |line|);
  }

  lemma NoFourBefore(line: string, after: string, k: nat)
    requires NoCrlf(line) && !StartsCrlf(after) && k < |line| + 2
    ensures !OccursAt(line + CRLF + after, CRLFCRLF, k)
  {
    hide *;
    if k < |line| {
      NoFourInLine(line, after, k);
    } else {
      FourAfterLine(line, after);
    }
  }

  lemma FindLater(head: string, after: string, pat: string)
    requires Find(after, pat, 0).Some?
    requires forall k :: 0 <= k < |head| ==> !OccursAt(head + after, pat, k)
    ensures Find(head + after, pat, 0) == Some(|head| + Find(after, pat, 0).value)
  {
    hide *;
    var r := Find(after, pat, 0).value;
    FindFacts(after, pat, 0);
    OccursShift(head, after, pat, r);
    forall k | |head| <= k < |head| + r ensures !OccursAt(head + after, pat, k) {
      OccursShift(head, after, pat, k - |head|);
    }
    FindUnique(head + after, pat, 0, |head| + r);
  }

  lemma LaterBlankLine(line: string, after: string, crlf: string, four: string)
    requires crlf == CRLF && four == CRLFCRLF
    requires NoCrlf(line) && !StartsCrlf(after) && Find(after, four, 0).Some?
    ensures Find(line + crlf + after, four, 0) == Some(|line| + 2 + Find(after, four, 0).value)
  {
    var head := line + crlf;
    assert |head| == |line| + 2;
    hide *;
    forall k | 0 <= k < |head| ensures !OccursAt(head + after, four, k) {
      NoFourBefore(line, after, k);
    }
    FindLater(head, after, four);
  }

  lemma FourIsTwice(s: string, k: nat)
    ensures OccursAt(s, CRLFCRLF, k) <==> OccursAt(s, CRLF, k) && OccursAt(s, CRLF, k + 2)
  {
    if k + 4 <= |s| {
      assert s[k..k + 4] == s[k..k + 2] + s[k + 2..k + 4];
      assert CRLFCRLF == CRLF + CRLF;
      assert s[k..k + 4][..2] == s[k..k + 2] && s[k..k + 4][2..] == s[k + 2..k + 4];
    }
  }

  lemma ScanLast(before: string, b: Body, tail: string)
    requires BodyOk(b)
    ensures ChunkedEnd(before + (LastLine(b) + tail), |before|) == Some(|before| + |LastLine(b)|)
  {
    hide *;
    var s := before + (LastLine(b) + tail);
    var e := |before| + |b.lastSize + b.lastExt|;
    LastLineFound(before, b, tail);
    LastTrailers(before, b, tail);
    ScanRound(s, |before|, e, 0);
  }

  lemma LastLineFound(before: string, b: Body, tail: string)
    requires BodyOk(b)
    ensures var s := before + (LastLine(b) + tail);
            var e := |before| + |b.lastSize + b.lastExt|;
            e <= |s| && Find(s, CRLF, |before|) == Some(e) && ChunkSize(s[|before|..e]) == Some(0)
  {
    hide *;
    LastFacts(before, b, tail);
    LineIn(before, b.lastSize + b.lastExt, EncodeTrailers(b.trailers) + tail, 0);
  }

  lemma LastTrailers(before: string, b: Body, tail: string)
    requires BodyOk(b)
    ensures var s := before + (LastLine(b) + tail);
            var p := |before| + |b.lastSize + b.lastExt| + 2;
            if OccursAt(s, CRLF, p) then |before| + |LastLine(b)| == p + 2
            else Find(s, CRLFCRLF, p).Some? && |before| + |LastLine(b)| == Find(s, CRLFCRLF, p).value + 4
  {
    hide *;
    LastFacts(before, b, tail);
    Regroup(before, b.lastSize + b.lastExt + CRLF, EncodeTrailers(b.trailers) + tail);
    TrailersFound(before + (b.lastSize + b.lastExt + CRLF), b.trailers, tail);
  }

  lemma LastFacts(before: string, b: Body, tail: string)
    requires BodyOk(b)
    ensures var line := b.lastSize + b.lastExt;
            && NoCrlf(line) && ChunkSize(line) == Some(0)
            && before + (LastLine(b) + tail) == before + (line + CRLF + (EncodeTrailers(b.trailers) + tail))
            && |LastLine(b)| == |line| + 2 + |EncodeTrailers(b.trailers)|
            && |before + (line + CRLF)| == |before| + |line| + 2
            && forall k :: 0 <= k < |b.trailers| ==> b.trailers[k] != "" && NoCrlf(b.trailers[k])
  {
    hide NoCrlf, ChunkSize, EncodeTrailers;
    SizeLine(b.lastSize, b.lastExt, 0);
    assert LastLine(b) + tail == b.lastSize + b.lastExt + CRLF + (EncodeTrailers(b.trailers) + tail);
  }

  lemma NoTrailers(before: string, tail: string)
    ensures OccursAt(before + (EncodeTrailers([]) + tail), CRLF, |before|) && |EncodeTrailers([])| == 2
  {
    var rest := EncodeTrailers([]) + tail;
    assert rest[0..2] == CRLF;
    OccursShift(before, rest, CRLF, 0);
  }

  lemma SomeTrailers(before: string, lines: seq<string>, tail: string, crlf: string, four: string)
    requires lines != [] && crlf == CRLF && four == CRLFCRLF
    requires forall k :: 0 <= k < |lines| ==> lines[k] != "" && NoCrlf(lines[k])
    ensures var s := before + (EncodeTrailers(lines) + tail);
            && !OccursAt(s, crlf, |before|) && |EncodeTrailers(lines)| >= 4
            && Find(s, four, |before|) == Some(|before| + |EncodeTrailers(lines)| - 4)
  {
    hide *;
    var rest := EncodeTrailers(lines) + tail;
    OccursShift(before, rest, crlf, 0);
    TrailersStart(lines, tail);
    NotAtOnce(rest);
    TrailersEnd(lines, tail);
    FindShift(before, rest, four, |EncodeTrailers(lines)| - 4);
  }

  lemma NotAtOnce(s: string)
    requires !StartsCrlf(s)
    ensures !OccursAt(s, CRLF, 0)
  {
    hide OccursAt;
  }

  /** After the last chunk's line: the empty line at once, or at the end of the trailers. */
  lemma TrailersFound(before: string, lines: seq<string>, tail: string)
    requires forall k :: 0 <= k < |lines| ==> lines[k] != "" && NoCrlf(lines[k])
    ensures var s := before + (EncodeTrailers(lines) + tail);
            if lines == [] then OccursAt(s, CRLF, |before|) && |EncodeTrailers(lines)| == 2
            else !OccursAt(s, CRLF, |before|) && |EncodeTrailers(lines)| >= 4
                 && Find(s, CRLFCRLF, |before|) == Some(|before| + |EncodeTrailers(lines)| - 4)
  {
    hide *;
    if lines == [] {
      NoTrailers(before, tail);
    } else {
      SomeTrailers(before, lines, tail, CRLF, CRLFCRLF);
    }
  }

  // ----- exactness ------------------------------------------------------------------------------

  lemma {:induction false} ScanChunks(before: string, chunks: seq<Chunk>, b: Body, tail: string)
    requires BodyOk(b) && forall k :: 0 <= k < |chunks| ==> ChunkOk(chunks[k])
    ensures var text := EncodeChunks(chunks) + LastLine(b);
            ChunkedEnd(before + (text + tail), |before|) == Some(|before| + |text|)
    decreases |chunks|
  {
    hide ChunkOk, BodyOk, ChunkedEnd, LastLine, EncodeChunk;
    var last := LastLine(b);
    var text := EncodeChunks(chunks) + last;
    if chunks == [] {
      assert text == last;
      ScanLast(before, b, tail);
    } else {
      var c := EncodeChunk(chunks[0]);
      var rest := EncodeChunks(chunks[1..]) + last;
      assert text == c + rest;
      assert before + (text + tail) == before + (c + (rest + tail));
      ScanChunk(before, chunks[0], rest + tail);
      ScanChunks(before + c, chunks[1..], b, tail);
      assert before + (text + tail) == (before + c) + (rest + tail);
    }
  }

  /** On the encoding of a body, followed by anything, the scanner returns exactly where the encoding ends. */
  lemma ChunkedExact(before: string, b: Body, tail: string)
    requires BodyOk(b)
    ensures ChunkedEnd(before + (Encode(b) + tail), |before|) == Some(|before| + |Encode(b)|)
  {
    hide *;
    AllChunksOk(b);
    EncodeShape(b);
    ScanChunks(before, b.chunks, b, tail);
  }

  lemma AllChunksOk(b: Body)
    requires BodyOk(b)
    ensures forall k :: 0 <= k < |b.chunks| ==> ChunkOk(b.chunks[k])
  {
  }

  lemma EncodeShape(b: Body)
    ensures Encode(b) == EncodeChunks(b.chunks) + LastLine(b)
  {
  }

  /** What a found end says about the first line. */
  lemma ChunkedFacts(s: string, pos: nat)
    requires ChunkedEnd(s, pos).Some?
    ensures |CRLF| == 2 && |CRLFCRLF| == 4
    ensures var r := Find(s, CRLF, pos);
            && r.Some? && pos <= r.value <= |s|
            && var size := ChunkSize(s[pos..r.value]);
               && size.Some?
               && var p := r.value + 2;
                  && p + 2 <= ChunkedEnd(s, pos).value <= |s|
                  && (size.value > 0 ==> p + size.value + 2 < ChunkedEnd(s, pos).value && OccursAt(s, CRLF, p + size.value))
                  && (size.value == 0 ==> OccursAt(s, CRLF, p) || Find(s, CRLFCRLF, p) == Some(ChunkedEnd(s, pos).value - 4))
  {
    hide ChunkSize;
  }

  lemma FindSizes()
    ensures |CRLFCRLF| == 4 && |CRLF| == 2
  {
  }

  /** A found end does not move when more bytes arrive. */
  lemma {:induction false} ChunkedStable(raw: string, more: string, pos: nat)
    requires ChunkedEnd(raw, pos).Some?
    ensures ChunkedEnd(raw + more, pos) == ChunkedEnd(raw, pos)
    decreases |raw| - pos
  {
    hide *;
    ChunkedFacts(raw, pos);
    var e := Find(raw, CRLF, pos).value;
    var size := ChunkSize(raw[pos..e]).value;
    var p := e + 2;
    FindStable(raw, more, CRLF, pos);
    assert (raw + more)[pos..e] == raw[pos..e];
    ScanRound(raw, pos, e, size);
    ScanRound(raw + more, pos, e, size);
    if size > 0 {
      OccursInPrefix(raw, more, CRLF, p + size);
      ChunkedStable(raw, more, p + size + 2);
    } else {
      OccursInPrefix(raw, more, CRLF, p);
      if !OccursAt(raw, CRLF, p) {
        FindStable(raw, more, CRLFCRLF, p);
      }
    }
  }

  /** In the bytes of a body whose end is found no sum comes out behind, whole or in part. */
  lemma {:induction false} FoundFits(s: string, n: nat, pos: nat)
    requires ChunkedEnd(s, pos).Some? && n <= |s| < SIZE_LIMIT
    ensures OnCourse(s[..n], pos)
    decreases |s| - pos
  {
    hide *;
    var front := s[..n];
    ChunkedFacts(s, pos);
    FindFacts(front, CRLF, pos);
    if Find(front, CRLF, pos).Some? {
      assert s == front + s[n..];
      FindStable(front, s[n..], CRLF, pos);
      var e := Find(s, CRLF, pos).value;
      var size := ChunkSize(s[pos..e]).value;
      assert front[pos..e] == s[pos..e];
      if size > 0 {
        ScanRound(s, pos, e, size);
        FoundFits(s, n, e + 2 + size + 2);
      }
      OnCourseLine(front, pos, e, size);
    } else {
      OnCourseEnds(front, pos);
    }
  }

  lemma OnCourseEnds(s: string, pos: nat)
    requires Find(s, CRLF, pos).None?
    ensures OnCourse(s, pos)
  {
    hide Find;
  }

  lemma OnCourseLine(s: string, pos: nat, e: nat, size: nat)
    requires Find(s, CRLF, pos) == Some(e) && pos <= e <= |s| && ChunkSize(s[pos..e]) == Some(size)
    requires size > 0 ==> e + 2 + size + 2 < SIZE_LIMIT && OnCourse(s, e + 2 + size + 2)
    ensures OnCourse(s, pos)
  {
    hide Find, ChunkSize;
  }

  /** So the scanning loop returns the end of every encoding shorter than 2^64 bytes. */
  lemma EncodingFits(before: string, b: Body, tail: string)
    requires BodyOk(b) && |before| + |Encode(b)| + |tail| < SIZE_LIMIT
    ensures OnCourse(before + (Encode(b) + tail), |before|)
  {
    hide *;
    ChunkedExact(before, b, tail);
    var s := before + (Encode(b) + tail);
    assert s[..|s|] == s;
    FoundFits(s, |s|, |before|);
  }

  /** Before the whole encoding has arrived, no end is found. */
  lemma ChunkedIncomplete(before: string, b: Body, n: nat)
    requires BodyOk(b) && n < |Encode(b)|
    ensures ChunkedEnd(before + Encode(b)[..n], |before|) == None
  {
    hide *;
    ChunkedExact(before, b, "");
    var whole := before + (Encode(b) + "");
    assert whole == (before + Encode(b)[..n]) + Encode(b)[n..];
    if ChunkedEnd(before + Encode(b)[..n], |before|).Some? {
      ChunkedStable(before + Encode(b)[..n], Encode(b)[n..], |before|);
    }
  }
}
