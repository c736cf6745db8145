/**
 The literals of JavaScript as they are written, and where the renamer's scanners find their ends: interpolations and
 templates nested in each other, regular expressions and numbers (src/builders/JSObfuscatorScope.cpp:16-330 and 596-615).
 */
module JsLiterals {
  import opened Chars
  import opened JsLexer
  import opened JsContext

  // ----- code with nested strings, comments, braces and templates -------------------------------

  /** A piece of code: one character, a slash that opens no comment with the character after it, a string, comments, braces
      and a template. */
  datatype Piece =
    | Plain(c: char)
    | Divide(c: char)
    | Quoted(quote: char, body: string)
    | LineNote(text: string)
    | BlockNote(text: string)
    | Braces(inside: seq<Piece>)
    | Ticks(parts: seq<Part>)

  /** A part of a template: one character, a dollar sign that opens nothing, an escape, an interpolation. */
  datatype Part =
    | Chunk(c: char)
    | Dollar(c: char)
    | Escape(c: char)
    | Hole(inside: seq<Piece>)

  predicate PlainChar(c: char) { c != '/' && c != '"' && c != '\'' && c != '`' && c != '{' && c != '}' }

  predicate ChunkChar(c: char) { c != '\\' && c != '`' && c != '$' }

  predicate PieceOk(p: Piece)
    decreases p
  {
    match p
    case Plain(c) => PlainChar(c)
    case Divide(c) => PlainChar(c) && c != '*'
    case Quoted(q, body) => (q == '"' || q == '\'') && Inside(body, q)
    case LineNote(text) => forall k :: 0 <= k < |text| ==> text[k] != '\n'
    case BlockNote(text) => var t := text + "*/"; forall k :: 0 <= k < |text| ==> !(t[k] == '*' && t[k + 1] == '/')
    case Braces(inside) => forall k :: 0 <= k < |inside| ==> PieceOk(inside[k])
    case Ticks(parts) => forall k :: 0 <= k < |parts| ==> PartOk(parts[k])
  }

  predicate PartOk(t: Part)
    decreases t
  {
    match t
    case Chunk(c) => ChunkChar(c)
    case Dollar(c) => ChunkChar(c) && c != '{'
    case Escape(c) => true
    case Hole(inside) => forall k :: 0 <= k < |inside| ==> PieceOk(inside[k])
  }

  function PieceText(p: Piece): string
    decreases p
  {
    match p
    case Plain(c) => [c]
    case Divide(c) => "/" + [c]
    case Quoted(q, body) => [q] + body + [q]
    case LineNote(text) => "//" + text + "\n"
    case BlockNote(text) => "/*" + text + "*/"
    case Braces(inside) => "{" + CodeText(inside) + "}"
    case Ticks(parts) => "`" + TemplateText(parts) + "`"
  }

  function PartText(t: Part): string
    decreases t
  {
    match t
    case Chunk(c) => [c]
    case Dollar(c) => "$" + [c]
    case Escape(c) => "\\" + [c]
    case Hole(inside) => "${" + CodeText(inside) + "}"
  }

  function CodeText(ps: seq<Piece>): string
    decreases ps
  {
    if ps == [] then "" else PieceText(ps[0]) + CodeText(ps[1..])
  }

  function TemplateText(ts: seq<Part>): string
    decreases ts
  {
    if ts == [] then "" else PartText(ts[0]) + TemplateText(ts[1..])
  }

  predicate CodeOk(ps: seq<Piece>) { forall k :: 0 <= k < |ps| ==> PieceOk(ps[k]) }

  predicate TemplateOk(ts: seq<Part>) { forall k :: 0 <= k < |ts| ==> PartOk(ts[k]) }

  /** The text stands at i. */
  predicate Stands(s: string, i: nat, text: string) { i + |text| <= |s| && s[i..i + |text|] == text }

  lemma StandsParts(s: string, i: nat, a: string, b: string)
    requires Stands(s, i, a + b)
    ensures Stands(s, i, a) && Stands(s, i + |a|, b)
  {
    assert s[i..i + |a|] == (a + b)[..|a|] == a;
    assert s[i + |a|..i + |a| + |b|] == (a + b)[|a|..] == b;
  }

  lemma StandsAt(s: string, i: nat, text: string, k: nat)
    requires Stands(s, i, text) && k < |text|
    ensures i + k < |s| && s[i + k] == text[k]
  {
    assert s[i..i + |text|][k] == text[k];
  }

  /** What stands between two texts. */
  lemma StandsBetween(s: string, i: nat, open: string, text: string, close: char)
    requires Stands(s, i, open + text + [close])
    ensures Stands(s, i, open) && Stands(s, i + |open|, text)
    ensures i + |open| + |text| < |s| && s[i + |open| + |text|] == close
  {
    assert open + text + [close] == open + (text + [close]);
    StandsParts(s, i, open, text + [close]);
    StandsParts(s, i + |open|, text, [close]);
    StandsAt(s, i + |open| + |text|, [close], 0);
  }

  // ----- the brace that closes an interpolation -------------------------------------------------

  predicate QuoteMode(mode: Mode, q: char) { (mode == Dq && q == '"') || (mode == Sq && q == '\'') }

  lemma {:induction false} StringScanned(s: string, i: nat, body: string, q: char, depth: nat, mode: Mode)
    requires depth >= 1 && QuoteMode(mode, q) && Inside(body, q) && Stands(s, i, body + [q])
    ensures InterpClose(s, i, depth, mode) == InterpClose(s, i + |body| + 1, depth, Code)
    decreases |body|
  {
    if body == "" {
      StandsAt(s, i, body + [q], 0);
    } else {
      var n := if body[0] == '\\' then 2 else 1;
      StandsAt(s, i, body + [q], 0);
      assert body + [q] == body[..n] + (body[n..] + [q]);
      StandsParts(s, i, body[..n], body[n..] + [q]);
      StringScanned(s, i + n, body[n..], q, depth, mode);
    }
  }

  lemma LineScanned(s: string, i: nat, note: string, depth: nat)
    requires depth >= 1 && (forall k :: 0 <= k < |note| ==> note[k] != '\n') && Stands(s, i, "//" + note + "\n")
    ensures InterpClose(s, i, depth, Code) == InterpClose(s, i + |note| + 3, depth, Code)
  {
    var text, e := "//" + note + "\n", i + |note| + 2;
    StandsAt(s, i, text, 0);
    StandsAt(s, i, text, 1);
    forall k | i + 2 <= k < e ensures s[k] != '\n' {
      StandsAt(s, i, text, k - i);
    }
    StandsAt(s, i, text, |text| - 1);
    LineEndIs(s, i + 2, e);
    assert InterpClose(s, e, depth, Code) == InterpClose(s, e + 1, depth, Code);
  }

  lemma BlockScanned(s: string, i: nat, note: string, depth: nat)
    requires depth >= 1 && Stands(s, i, "/*" + note + "*/")
    requires var t := note + "*/"; forall k :: 0 <= k < |note| ==> !(t[k] == '*' && t[k + 1] == '/')
    ensures InterpClose(s, i, depth, Code) == InterpClose(s, i + |note| + 4, depth, Code)
  {
    var text, e := "/*" + note + "*/", i + |note| + 2;
    StandsAt(s, i, text, 0);
    StandsAt(s, i, text, 1);
    forall k | i + 2 <= k < e ensures !(s[k] == '*' && s[k + 1] == '/') {
      StandsAt(s, i, text, k - i);
      StandsAt(s, i, text, k - i + 1);
      assert text[k - i] == (note + "*/")[k - i - 2] && text[k - i + 1] == (note + "*/")[k - i - 1];
    }
    StandsAt(s, i, text, |text| - 2);
    StandsAt(s, i, text, |text| - 1);
    StarSlashIs(s, i + 2, e);
  }

  /** One character of the scan. */
  lemma CharScanned(s: string, i: nat, depth: nat)
    requires depth >= 1 && i < |s|
    ensures s[i] == '{' ==> InterpClose(s, i, depth, Code) == InterpClose(s, i + 1, depth + 1, Code)
    ensures s[i] == '}' ==> InterpClose(s, i, depth, Code) == if depth == 1 then Some(i) else InterpClose(s, i + 1, depth - 1, Code)
    ensures s[i] == '`' ==> InterpClose(s, i, depth, Code) == InterpClose(s, i + 1, depth, Bt)
    ensures s[i] == '`' ==> InterpClose(s, i, depth, Bt) == InterpClose(s, i + 1, depth, Code)
    ensures s[i] == '"' ==> InterpClose(s, i, depth, Code) == InterpClose(s, i + 1, depth, Dq)
    ensures s[i] == '\'' ==> InterpClose(s, i, depth, Code) == InterpClose(s, i + 1, depth, Sq)
    ensures PlainChar(s[i]) ==> InterpClose(s, i, depth, Code) == InterpClose(s, i + 1, depth, Code)
    ensures s[i] == '/' && i + 1 < |s| && s[i + 1] != '/' && s[i + 1] != '*' ==>
              InterpClose(s, i, depth, Code) == InterpClose(s, i + 1, depth, Code)
  {
  }

  lemma {:induction false} PieceScanned(s: string, i: nat, p: Piece, depth: nat)
    requires depth >= 1 && PieceOk(p) && Stands(s, i, PieceText(p))
    ensures InterpClose(s, i, depth, Code) == InterpClose(s, i + |PieceText(p)|, depth, Code)
    decreases p
  {
    hide InterpClose, Inside, PlainChar, CodeText, TemplateText, Stands;
    match p
    case Plain(c) =>
      PlainScanned(s, i, c, depth);
    case Divide(c) =>
      SlashScanned(s, i, c, depth);
    case Quoted(q, body) =>
      QuotedScanned(s, i, q, body, depth);
    case LineNote(note) =>
      LineScanned(s, i, note, depth);
    case BlockNote(note) =>
      BlockScanned(s, i, note, depth);
    case Braces(inside) =>
      BracesScanned(s, i, inside, depth);
    case Ticks(parts) =>
      BackticksScanned(s, i, parts, depth);
  }

  lemma PlainScanned(s: string, i: nat, c: char, depth: nat)
    requires depth >= 1 && PlainChar(c) && Stands(s, i, [c])
    ensures InterpClose(s, i, depth, Code) == InterpClose(s, i + 1, depth, Code)
  {
    StandsAt(s, i, [c], 0);
    CharScanned(s, i, depth);
  }

  lemma SlashScanned(s: string, i: nat, c: char, depth: nat)
    requires depth >= 1 && PlainChar(c) && c != '*' && Stands(s, i, "/" + [c])
    ensures InterpClose(s, i, depth, Code) == InterpClose(s, i + 2, depth, Code)
  {
    hide InterpClose;
    StandsAt(s, i, "/" + [c], 0);
    StandsAt(s, i, "/" + [c], 1);
    CharScanned(s, i, depth);
    CharScanned(s, i + 1, depth);
  }

  lemma QuotedScanned(s: string, i: nat, q: char, body: string, depth: nat)
    requires depth >= 1 && (q == '"' || q == '\'') && Inside(body, q) && Stands(s, i, [q] + body + [q])
    ensures InterpClose(s, i, depth, Code) == InterpClose(s, i + |body| + 2, depth, Code)
  {
    hide InterpClose, Inside;
    assert [q] + body + [q] == [q] + (body + [q]);
    StandsParts(s, i, [q], body + [q]);
    StandsAt(s, i, [q], 0);
    CharScanned(s, i, depth);
    StringScanned(s, i + 1, body, q, depth, if q == '"' then Dq else Sq);
  }

  lemma {:induction false} BracesScanned(s: string, i: nat, inside: seq<Piece>, depth: nat)
    requires depth >= 1 && CodeOk(inside) && Stands(s, i, "{" + CodeText(inside) + "}")
    ensures InterpClose(s, i, depth, Code) == InterpClose(s, i + 2 + |CodeText(inside)|, depth, Code)
    decreases inside, 1
  {
    hide InterpClose, CodeText, CodeOk;
    var text := CodeText(inside);
    StandsBetween(s, i, "{", text, '}');
    StandsAt(s, i, "{", 0);
    CharScanned(s, i, depth);
    CodeScanned(s, i + 1, inside, depth + 1);
    CharScanned(s, i + 1 + |text|, depth + 1);
  }

  lemma {:induction false} BackticksScanned(s: string, i: nat, parts: seq<Part>, depth: nat)
    requires depth >= 1 && TemplateOk(parts) && Stands(s, i, "`" + TemplateText(parts) + "`")
    ensures InterpClose(s, i, depth, Code) == InterpClose(s, i + 2 + |TemplateText(parts)|, depth, Code)
    decreases parts, 1
  {
    hide InterpClose, TemplateText, TemplateOk;
    var text := TemplateText(parts);
    StandsBetween(s, i, "`", text, '`');
    StandsAt(s, i, "`", 0);
    CharScanned(s, i, depth);
    TicksScanned(s, i + 1, parts, depth);
    CharScanned(s, i + 1 + |text|, depth);
  }

  lemma {:induction false} CodeScanned(s: string, i: nat, ps: seq<Piece>, depth: nat)
    requires depth >= 1 && CodeOk(ps) && Stands(s, i, CodeText(ps))
    ensures InterpClose(s, i, depth, Code) == InterpClose(s, i + |CodeText(ps)|, depth, Code)
    decreases ps, 0
  {
    hide InterpClose, PieceOk, PieceText;
    if ps != [] {
      StandsParts(s, i, PieceText(ps[0]), CodeText(ps[1..]));
      PieceScanned(s, i, ps[0], depth);
      CodeScanned(s, i + |PieceText(ps[0])|, ps[1..], depth);
    }
  }

  lemma {:induction false} PartScanned(s: string, i: nat, t: Part, depth: nat)
    requires depth >= 1 && PartOk(t) && Stands(s, i, PartText(t))
    ensures InterpClose(s, i, depth, Bt) == InterpClose(s, i + |PartText(t)|, depth, Bt)
    decreases t
  {
    var text := PartText(t);
    StandsAt(s, i, text, 0);
    if t.Hole? {
      HoleClosed(s, i, t);
    } else if !t.Chunk? {
      StandsAt(s, i, text, 1);
    }
  }

  lemma {:induction false} HoleClosed(s: string, i: nat, t: Part)
    requires t.Hole? && PartOk(t) && Stands(s, i, PartText(t))
    ensures i + 1 < |s| && s[i] == '$' && s[i + 1] == '{'
    ensures InterpClose(s, i + 2, 1, Code) == Some(i + |PartText(t)| - 1)
    decreases t, 0
  {
    var inside, text := t.inside, CodeText(t.inside);
    hide InterpClose, CodeText, Stands;
    StandsBetween(s, i, "${", text, '}');
    OpensHole(s, i);
    CodeScanned(s, i + 2, inside, 1);
    CharScanned(s, i + 2 + |text|, 1);
  }

  lemma OpensHole(s: string, i: nat)
    requires Stands(s, i, "${")
    ensures i + 1 < |s| && s[i] == '$' && s[i + 1] == '{'
  {
    StandsAt(s, i, "${", 0);
    StandsAt(s, i, "${", 1);
  }

  lemma {:induction false} TicksScanned(s: string, i: nat, ts: seq<Part>, depth: nat)
    requires depth >= 1 && TemplateOk(ts) && Stands(s, i, TemplateText(ts))
    ensures InterpClose(s, i, depth, Bt) == InterpClose(s, i + |TemplateText(ts)|, depth, Bt)
    decreases ts, 0
  {
    hide InterpClose, PartOk, PartText;
    if ts != [] {
      StandsParts(s, i, PartText(ts[0]), TemplateText(ts[1..]));
      PartScanned(s, i, ts[0], depth);
      TicksScanned(s, i + |PartText(ts[0])|, ts[1..], depth);
    }
  }

  /** An interpolation is closed by the brace after its code: braces in its strings, comments, templates and braces do not
      count. */
  lemma InterpolationCloses(s: string, i: nat, ps: seq<Piece>)
    requires CodeOk(ps) && Stands(s, i, CodeText(ps) + "}")
    ensures InterpClose(s, i, 1, Code) == Some(i + |CodeText(ps)|)
  {
    hide InterpClose, CodeText;
    StandsParts(s, i, CodeText(ps), "}");
    CodeScanned(s, i, ps, 1);
    StandsAt(s, i + |CodeText(ps)|, "}", 0);
    CharScanned(s, i + |CodeText(ps)|, 1);
  }

  // ----- templates ------------------------------------------------------------------------------

  lemma PartPassed(s: string, i: nat, t: Part)
    requires PartOk(t) && Stands(s, i, PartText(t))
    ensures TemplateEnd(s, i) == TemplateEnd(s, i + |PartText(t)|)
    ensures NestedTemplateEnd(s, i) == NestedTemplateEnd(s, i + |PartText(t)|)
  {
    var text := PartText(t);
    StandsAt(s, i, text, 0);
    if t.Hole? {
      HoleClosed(s, i, t);
    } else if !t.Chunk? {
      StandsAt(s, i, text, 1);
    }
  }

  lemma {:induction false} PartsPassed(s: string, i: nat, ts: seq<Part>)
    requires TemplateOk(ts) && Stands(s, i, TemplateText(ts))
    ensures TemplateEnd(s, i) == TemplateEnd(s, i + |TemplateText(ts)|)
    ensures NestedTemplateEnd(s, i) == NestedTemplateEnd(s, i + |TemplateText(ts)|)
    decreases ts
  {
    hide TemplateEnd, NestedTemplateEnd, PartOk, PartText;
    if ts != [] {
      StandsParts(s, i, PartText(ts[0]), TemplateText(ts[1..]));
      PartPassed(s, i, ts[0]);
      PartsPassed(s, i + |PartText(ts[0])|, ts[1..]);
    }
  }

  /** After the backtick: blanks and tabs, and then the end or a character that goes on after an expression. */
  predicate EndsExpression(s: string, i: nat)
  {
    exists j :: i <= j <= |s| && (forall k :: i <= k < j ==> s[k] == ' ' || s[k] == '\t')
      && (j == |s| || s[j] == ';' || s[j] == ',' || s[j] == ')' || s[j] == '}' || s[j] == ']' || s[j] == ':')
  }

  lemma {:induction false} WhileInIs(s: string, i: nat, cs: string, j: nat)
    requires i <= j <= |s| && (forall k :: i <= k < j ==> s[k] in cs) && (j < |s| ==> s[j] !in cs)
    ensures WhileIn(s, i, cs) == j
    decreases j - i
  {
    if i < j {
      WhileInIs(s, i + 1, cs, j);
    }
  }

  lemma Terminates(s: string, tick: nat)
    requires tick < |s| && EndsExpression(s, tick + 1)
    ensures BacktickLooksLikeTerminator(s, tick) && !At(s, tick + 1, '`')
  {
    var j :| tick + 1 <= j <= |s| && (forall k :: tick + 1 <= k < j ==> s[k] == ' ' || s[k] == '\t')
      && (j == |s| || s[j] == ';' || s[j] == ',' || s[j] == ')' || s[j] == '}' || s[j] == ']' || s[j] == ':');
    WhileInIs(s, tick + 1, " \t", j);
  }

  /** A backtick looks like the end of its template exactly before the end of the text, before such a character, and at the
      end of a line before a word that starts a statement; j is where the blanks after it end, m the white space. */
  lemma TerminatorExactly(s: string, tick: nat, j: nat, m: nat)
    requires tick < j <= m <= |s| && (forall k :: tick < k < j ==> s[k] == ' ' || s[k] == '\t')
    requires j < |s| ==> s[j] != ' ' && s[j] != '\t'
    requires forall k :: j <= k < m ==> s[k] == ' ' || s[k] == '\t' || s[k] == '\n' || s[k] == '\r'
    requires m < |s| ==> s[m] != ' ' && s[m] != '\t' && s[m] != '\n' && s[m] != '\r'
    ensures BacktickLooksLikeTerminator(s, tick)
            <==> || j == |s| || s[j] == ';' || s[j] == ',' || s[j] == ')' || s[j] == '}' || s[j] == ']' || s[j] == ':'
                 || ((s[j] == '\n' || s[j] == '\r') && StatementWordAt(s, m))
  {
    hide StatementWordAt;
    WhileInIs(s, tick + 1, " \t", j);
    WhileInIs(s, j, "\n\r \t", m);
  }

  lemma {:induction false} NoTickNoEnd(s: string, i: nat)
    requires forall k :: i <= k < |s| ==> s[k] != '`'
    ensures NestedTemplateEnd(s, i).None?
    decreases |s| - i
  {
    hide InterpClose;
    if i < |s| {
      if s[i] == '\\' && i + 1 < |s| {
        NoTickNoEnd(s, i + 2);
      } else if s[i] == '$' && At(s, i + 1, '{') {
        var close := InterpClose(s, i + 2, 1, Code);
        if close.Some? {
          CloseLater(s, i + 2);
          NoTickNoEnd(s, close.value + 1);
        }
      } else {
        NoTickNoEnd(s, i + 1);
      }
    }
  }

  lemma CloseLater(s: string, pos: nat)
    ensures var r := InterpClose(s, pos, 1, Code); r.Some? ==> pos <= r.value < |s|
  {
  }

  /** A template ends at its backtick if an expression can end there, or if no other backtick follows. */
  lemma TemplateEnds(s: string, i: nat, ts: seq<Part>)
    requires TemplateOk(ts) && Stands(s, i, TemplateText(ts) + "`")
    requires var tick := i + |TemplateText(ts)|;
             EndsExpression(s, tick + 1) || forall k :: tick < k < |s| ==> s[k] != '`'
    ensures TemplateEnd(s, i) == Some(i + |TemplateText(ts)| + 1)
  {
    hide TemplateEnd, NestedTemplateEnd, BacktickLooksLikeTerminator, TemplateText, TemplateOk, EndsExpression;
    var tick := i + |TemplateText(ts)|;
    StandsParts(s, i, TemplateText(ts), "`");
    StandsAt(s, tick, "`", 0);
    PartsPassed(s, i, ts);
    if EndsExpression(s, tick + 1) {
      Terminates(s, tick);
    } else {
      NoTickNoEnd(s, tick + 1);
    }
    EndsAtTick(s, tick);
  }

  lemma EndsAtTick(s: string, tick: nat)
    requires tick < |s| && s[tick] == '`'
    requires (BacktickLooksLikeTerminator(s, tick) && !At(s, tick + 1, '`'))
             || (NestedTemplateEnd(s, tick + 1).None? && !At(s, tick + 1, '`'))
    ensures TemplateEnd(s, tick) == Some(tick + 1)
  {
    hide InterpClose, NestedTemplateEnd, BacktickLooksLikeTerminator;
  }

  /** Two backticks in a row do not end a template, and neither does one that does not look like its end and opens a
      template that is closed: that template is passed over. */
  lemma TicksPassed(s: string, i: nat, ts: seq<Part>)
    requires At(s, i, '`')
    ensures At(s, i + 1, '`') ==> TemplateEnd(s, i) == TemplateEnd(s, i + 2)
    ensures !BacktickLooksLikeTerminator(s, i) && TemplateOk(ts) && Stands(s, i, "`" + TemplateText(ts) + "`")
            && !At(s, i + 1, '`')
            ==> TemplateEnd(s, i) == TemplateEnd(s, i + |TemplateText(ts)| + 2)
  {
    hide InterpClose, BacktickLooksLikeTerminator, TemplateText, TemplateOk, NestedTemplateEnd;
    if TemplateOk(ts) && Stands(s, i, "`" + TemplateText(ts) + "`") && !At(s, i + 1, '`') {
      NestedEnds(s, i, ts);
    }
  }

  lemma NestedEnds(s: string, i: nat, ts: seq<Part>)
    requires TemplateOk(ts) && Stands(s, i, "`" + TemplateText(ts) + "`")
    ensures NestedTemplateEnd(s, i + 1) == Some(i + |TemplateText(ts)| + 2)
  {
    hide TemplateText, TemplateOk, InterpClose;
    StandsBetween(s, i, "`", TemplateText(ts), '`');
    PartsPassed(s, i + 1, ts);
  }

  predicate WordHere(s: string, m: nat, w: string) { Stands(s, m, w) && (m + |w| == |s| || !WordPart(s[m + |w|])) }

  /** The words that start a statement. */
  lemma StatementWordsExactly(s: string, m: nat)
    ensures StatementWordAt(s, m)
            <==> || WordHere(s, m, "function") || WordHere(s, m, "const") || WordHere(s, m, "let") || WordHere(s, m, "var")
                 || WordHere(s, m, "class") || WordHere(s, m, "async") || WordHere(s, m, "export") || WordHere(s, m, "import")
                 || WordHere(s, m, "return") || WordHere(s, m, "throw") || WordHere(s, m, "debugger")
  {
    var kws := StatementKeywords;
    assert |kws| == 11 && kws[0] == "function" && kws[1] == "const" && kws[2] == "let" && kws[3] == "var"
           && kws[4] == "class" && kws[5] == "async" && kws[6] == "export" && kws[7] == "import" && kws[8] == "return"
           && kws[9] == "throw" && kws[10] == "debugger";
    SameParts(s);
    hide StatementKeywords, WordPart, IsIdentPart;
    assert forall k :: 0 <= k < |kws| ==> (WordHere(s, m, kws[k]) <==>
             m + |kws[k]| <= |s| && s[m..m + |kws[k]|] == kws[k] && (m + |kws[k]| == |s| || !IsIdentPart(s[m + |kws[k]|])));
    hide Stands, WordHere;
  }

  /** A template that starts in code is one template token. */
  lemma TemplateIsToken(s: string, a: nat, ts: seq<Part>)
    requires TemplateOk(ts) && Stands(s, a, "`" + TemplateText(ts) + "`") && Context(s, a) == InCode
    requires var tick := a + 1 + |TemplateText(ts)|;
             EndsExpression(s, tick + 1) || forall k :: tick < k < |s| ==> s[k] != '`'
    ensures Tok(Tpl, a, a + |TemplateText(ts)| + 2) in Lex(s, 0)
  {
    var text := TemplateText(ts);
    hide *;
    assert "`" + text + "`" == "`" + (text + "`");
    StandsParts(s, a, "`", text + "`");
    StandsAt(s, a, "`", 0);
    TemplateEnds(s, a + 1, ts);
    TickStarts(s, a);
    LiteralIsToken(s, a, Tpl, a + |text| + 2);
  }

  lemma TickStarts(s: string, a: nat)
    requires a < |s| && s[a] == '`' && TemplateEnd(s, a + 1).Some?
    ensures LiteralEnd(s, a) == TemplateEnd(s, a + 1) && StartOf(s, a) == Some(Tpl)
    ensures After(s, a, InCode) == InLiteral(LiteralEnd(s, a).value) && a < LiteralEnd(s, a).value <= |s|
  {
    hide TemplateEnd;
    TemplateEndsLater(s, a + 1);
  }

  lemma TemplateEndsLater(s: string, i: nat)
    ensures TemplateEnd(s, i).Some? ==> i < TemplateEnd(s, i).value <= |s|
  {
  }

  lemma LiteralIsToken(s: string, a: nat, kind: Kind, end: nat)
    requires a < end <= |s| && Context(s, a) == InCode && StartOf(s, a) == Some(kind) && kind != Eof
    requires After(s, a, InCode) == InLiteral(end)
    ensures Tok(kind, a, end) in Lex(s, 0)
  {
    hide Context, StartOf, Lex, After;
    LexExactly(s, Tok(kind, a, end));
    LiteralRuns(s, a + 1, end);
  }

  // ----- regular expressions --------------------------------------------------------------------

  /** A part of a regular expression: one character, an escape, a class. */
  datatype Atom = One(c: char) | Slashed(c: char) | Class(members: seq<Member>)

  datatype Member = In(c: char) | InSlashed(c: char)

  predicate MemberOk(m: Member) { m.In? ==> m.c != ']' && m.c != '\\' }

  predicate AtomOk(x: Atom)
  {
    match x
    case One(c) => c != '\\' && c != '[' && c != '/'
    case Slashed(_) => true
    case Class(members) => forall k :: 0 <= k < |members| ==> MemberOk(members[k])
  }

  function MembersText(ms: seq<Member>): string
  {
    if ms == [] then "" else (if ms[0].In? then [ms[0].c] else "\\" + [ms[0].c]) + MembersText(ms[1..])
  }

  function AtomText(x: Atom): string
  {
    match x
    case One(c) => [c]
    case Slashed(c) => "\\" + [c]
    case Class(members) => "[" + MembersText(members) + "]"
  }

  function AtomsText(xs: seq<Atom>): string { if xs == [] then "" else AtomText(xs[0]) + AtomsText(xs[1..]) }

  lemma {:induction false} MembersPassed(s: string, i: nat, ms: seq<Member>)
    requires (forall k :: 0 <= k < |ms| ==> MemberOk(ms[k])) && Stands(s, i, MembersText(ms))
    ensures RegexBody(s, i, true) == RegexBody(s, i + |MembersText(ms)|, true)
    decreases |ms|
  {
    if ms != [] {
      var head := if ms[0].In? then [ms[0].c] else "\\" + [ms[0].c];
      StandsAt(s, i, MembersText(ms), 0);
      StandsParts(s, i, head, MembersText(ms[1..]));
      MembersPassed(s, i + |head|, ms[1..]);
    }
  }

  lemma AtomPassed(s: string, i: nat, x: Atom)
    requires AtomOk(x) && Stands(s, i, AtomText(x))
    ensures RegexBody(s, i, false) == RegexBody(s, i + |AtomText(x)|, false)
  {
    if x.Class? {
      ClassPassed(s, i, x.members);
    } else {
      StandsAt(s, i, AtomText(x), 0);
    }
  }

  lemma ClassPassed(s: string, i: nat, ms: seq<Member>)
    requires (forall k :: 0 <= k < |ms| ==> MemberOk(ms[k])) && Stands(s, i, "[" + MembersText(ms) + "]")
    ensures RegexBody(s, i, false) == RegexBody(s, i + |MembersText(ms)| + 2, false)
  {
    hide RegexBody, MembersText, MemberOk, Stands;
    var text := MembersText(ms);
    StandsBetween(s, i, "[", text, ']');
    StandsAt(s, i, "[", 0);
    MembersPassed(s, i + 1, ms);
    BracketsPassed(s, i, true);
    BracketsPassed(s, i + 1 + |text|, true);
  }

  lemma BracketsPassed(s: string, i: nat, inClass: bool)
    requires i < |s|
    ensures s[i] == '[' ==> forall c :: RegexBody(s, i, c) == RegexBody(s, i + 1, true)
    ensures s[i] == ']' && inClass ==> RegexBody(s, i, inClass) == RegexBody(s, i + 1, false)
  {
  }

  lemma {:induction false} AtomsPassed(s: string, i: nat, xs: seq<Atom>)
    requires (forall k :: 0 <= k < |xs| ==> AtomOk(xs[k])) && Stands(s, i, AtomsText(xs))
    ensures RegexBody(s, i, false) == RegexBody(s, i + |AtomsText(xs)|, false)
    decreases |xs|
  {
    hide AtomOk, AtomText, RegexBody;
    if xs != [] {
      StandsParts(s, i, AtomText(xs[0]), AtomsText(xs[1..]));
      AtomPassed(s, i, xs[0]);
      AtomsPassed(s, i + |AtomText(xs[0])|, xs[1..]);
    }
  }

  predicate Letter(c: char) { 'a' <= c <= 'z' || 'A' <= c <= 'Z' }

  lemma {:induction false} LettersEnd(s: string, i: nat, j: nat)
    requires i <= j <= |s| && (forall k :: i <= k < j ==> Letter(s[k])) && (j < |s| ==> !Letter(s[j]))
    ensures WhileAlpha(s, i) == j
    decreases j - i
  {
    if i < j {
      LettersEnd(s, i + 1, j);
    }
  }

  /** The body ends at the first slash that is neither escaped nor in a class, and the flags belong to it. */
  lemma RegexEnds(s: string, i: nat, xs: seq<Atom>, end: nat)
    requires (forall k :: 0 <= k < |xs| ==> AtomOk(xs[k])) && Stands(s, i, AtomsText(xs) + "/")
    requires var slash := i + |AtomsText(xs)|;
             slash < end <= |s| && (forall k :: slash < k < end ==> Letter(s[k])) && (end < |s| ==> !Letter(s[end]))
    ensures RegexBody(s, i, false) == Some(end)
  {
    hide AtomOk, AtomsText, RegexBody, WhileAlpha;
    var slash := i + |AtomsText(xs)|;
    StandsParts(s, i, AtomsText(xs), "/");
    StandsAt(s, slash, "/", 0);
    AtomsPassed(s, i, xs);
    LettersEnd(s, slash + 1, end);
    SlashEnds(s, slash);
  }

  lemma SlashEnds(s: string, slash: nat)
    requires slash < |s| && s[slash] == '/'
    ensures RegexBody(s, slash, false) == Some(WhileAlpha(s, slash + 1))
  {
    hide WhileAlpha;
  }

  /** A regular expression where one may start is one token, flags included. */
  lemma RegexIsToken(s: string, a: nat, xs: seq<Atom>, end: nat)
    requires xs != [] && (xs[0].One? ==> xs[0].c != '*')
    requires (forall k :: 0 <= k < |xs| ==> AtomOk(xs[k])) && Stands(s, a, "/" + AtomsText(xs) + "/") && Context(s, a) == InCode
    requires CanStartRegex(s, a)
    requires var slash := a + 1 + |AtomsText(xs)|;
             slash < end <= |s| && (forall k :: slash < k < end ==> Letter(s[k])) && (end < |s| ==> !Letter(s[end]))
    ensures Tok(Rx, a, end) in Lex(s, 0)
  {
    hide *;
    OpensRegex(s, a, xs);
    RegexEnds(s, a + 1, xs, end);
    SlashStarts(s, a);
    LiteralIsToken(s, a, Rx, end);
  }

  lemma OpensRegex(s: string, a: nat, xs: seq<Atom>)
    requires xs != [] && AtomOk(xs[0]) && (xs[0].One? ==> xs[0].c != '*') && Stands(s, a, "/" + AtomsText(xs) + "/")
    ensures a < |s| && s[a] == '/' && Stands(s, a + 1, AtomsText(xs) + "/") && !At(s, a + 1, '/') && !At(s, a + 1, '*')
  {
    NoComment(s, a, xs);
    hide AtomsText, AtomOk;
    var text := AtomsText(xs);
    assert "/" + text + "/" == "/" + (text + "/");
    StandsParts(s, a, "/", text + "/");
    StandsAt(s, a, "/", 0);
  }

  lemma NoComment(s: string, a: nat, xs: seq<Atom>)
    requires xs != [] && AtomOk(xs[0]) && (xs[0].One? ==> xs[0].c != '*') && Stands(s, a, "/" + AtomsText(xs) + "/")
    ensures !At(s, a + 1, '/') && !At(s, a + 1, '*')
  {
    var text := "/" + AtomsText(xs) + "/";
    StandsAt(s, a, text, 1);
    assert text[1] == AtomText(xs[0])[0];
  }

  lemma SlashStarts(s: string, a: nat)
    requires a < |s| && s[a] == '/' && !At(s, a + 1, '/') && !At(s, a + 1, '*') && CanStartRegex(s, a)
    requires RegexBody(s, a + 1, false).Some?
    ensures StartOf(s, a) == Some(Rx) && After(s, a, InCode) == InLiteral(RegexBody(s, a + 1, false).value)
  {
    hide RegexBody, CanStartRegex;
  }

  lemma {:induction false} BackOver(s: string, i: nat, j: nat)
    requires i <= j <= |s| && (forall k :: i <= k < j ==> White(s[k])) && (i > 0 ==> !White(s[i - 1]))
    ensures BackOverSpace(s, j) == i
    decreases j - i
  {
    if i < j {
      BackOver(s, i, j - 1);
    }
  }

  predicate White(c: char) { c == ' ' || '\t' <= c <= '\r' }

  lemma {:induction false} BackOverWord(s: string, i: nat, j: nat)
    requires i <= j <= |s| && (forall k :: i <= k < j ==> WordPart(s[k])) && (i > 0 ==> !WordPart(s[i - 1]))
    ensures BackOverIdent(s, j) == i
    decreases j - i
  {
    if i < j {
      BackOverWord(s, i, j - 1);
    }
  }

  /** Operators and opening brackets, after which a value comes. */
  predicate BeforeValue(c: char)
  {
    || c == '(' || c == '{' || c == '[' || c == ',' || c == ';' || c == ':' || c == '?' || c == '=' || c == '!'
    || c == '&' || c == '|' || c == '+' || c == '-' || c == '*' || c == '%' || c == '^' || c == '~' || c == '<' || c == '>'
  }

  /** [i, j) is a whole word after which a value comes. */
  predicate ValueWord(s: string, i: nat, j: nat)
  {
    && i < j <= |s| && (forall k :: i <= k < j ==> WordPart(s[k])) && (i > 0 ==> !WordPart(s[i - 1]))
    && (s[i..j] == "return" || s[i..j] == "throw" || s[i..j] == "case" || s[i..j] == "delete" || s[i..j] == "void"
        || s[i..j] == "typeof" || s[i..j] == "instanceof" || s[i..j] == "in" || s[i..j] == "of")
  }

  /** A slash may start a regular expression at the start of the text, after an operator or opening bracket that is no
      ++ or --, and after certain words; white space in between does not matter. */
  lemma RegexStartsExactly(s: string, j: nat, slash: nat)
    requires j <= slash <= |s| && (forall k :: j <= k < slash ==> White(s[k])) && (j > 0 ==> !White(s[j - 1]))
    ensures CanStartRegex(s, slash)
            <==> || j == 0
                 || (BeforeValue(s[j - 1]) && !(j > 1 && (s[j - 1] == '+' || s[j - 1] == '-') && s[j - 2] == s[j - 1]))
                 || exists i: nat :: ValueWord(s, i, j)
  {
    BackOver(s, j, slash);
    if j > 0 {
      OperatorsAre(s[j - 1]);
      OperatorNoWord(s[j - 1]);
      WordsBefore(s, j);
      hide BackOverSpace, BackOverIdent, RegexAllowedAfter, BeforeValue, ValueWord, WordPart, RegexPrefixKeywords;
      if i: nat :| ValueWord(s, i, j) {
        EndsInWord(s, i, j);
      }
    }
  }

  lemma EndsInWord(s: string, i: nat, j: nat)
    requires ValueWord(s, i, j)
    ensures WordPart(s[j - 1])
  {
  }

  lemma WordsBefore(s: string, j: nat)
    requires 0 < j <= |s|
    ensures (exists i: nat :: ValueWord(s, i, j))
            <==> (IsAlpha(s[j - 1]) || s[j - 1] == '_' || s[j - 1] == '$') && s[BackOverIdent(s, j)..j] in RegexPrefixKeywords
  {
    hide RegexPrefixKeywords;
    var start := BackOverIdent(s, j);
    BackOverIdentIs(s, j);
    ValueWords(s[start..j]);
    if i: nat :| ValueWord(s, i, j) {
      BackOverWord(s, i, j);
      assert s[start..j][j - start - 1] == s[j - 1];
    }
    if s[start..j] in RegexPrefixKeywords {
      assert ValueWord(s, start, j);
    }
  }

  lemma {:induction false} BackOverIdentIs(s: string, j: nat)
    requires j <= |s|
    ensures var i := BackOverIdent(s, j);
            i <= j && (forall k :: i <= k < j ==> WordPart(s[k])) && (i > 0 ==> !WordPart(s[i - 1]))
  {
    if j > 0 {
      BackOverIdentIs(s, j - 1);
    }
  }

  lemma ValueWords(w: string)
    ensures w in RegexPrefixKeywords
            <==> w == "return" || w == "throw" || w == "case" || w == "delete" || w == "void"
                 || w == "typeof" || w == "instanceof" || w == "in" || w == "of"
    ensures w in RegexPrefixKeywords ==> w != "" && Letter(w[|w| - 1])
  {
  }

  lemma OperatorsAre(c: char)
    ensures RegexAllowedAfter(c) <==> BeforeValue(c)
  {
  }

  lemma OperatorNoWord(c: char)
    ensures BeforeValue(c) ==> !WordPart(c)
  {
  }

  // ----- numbers --------------------------------------------------------------------------------

  predicate Digit(c: char) { '0' <= c <= '9' }

  predicate HexDigit(c: char) { Digit(c) || 'a' <= c <= 'f' || 'A' <= c <= 'F' }

  /** The end of a number that starts at i: 0x and hexadecimal digits, or digits and dots with an exponent after them, that
      is an e, a sign perhaps, and digits. */
  predicate NumberEndsAt(s: string, i: nat, end: nat)
    requires i < |s|
  {
    if s[i] == '0' && (At(s, i + 1, 'x') || At(s, i + 1, 'X')) then
      i + 2 <= end <= |s| && (forall k :: i + 2 <= k < end ==> HexDigit(s[k])) && (end < |s| ==> !HexDigit(s[end]))
    else
      exists j: nat ::
        && i <= j <= end <= |s| && (forall k :: i <= k < j ==> Digit(s[k]) || s[k] == '.')
        && (j < |s| ==> !Digit(s[j]) && s[j] != '.')
        && if At(s, j, 'e') || At(s, j, 'E') then
             var from := if At(s, j + 1, '+') || At(s, j + 1, '-') then j + 2 else j + 1;
             from <= end && (forall k :: from <= k < end ==> Digit(s[k])) && (end < |s| ==> !Digit(s[end]))
           else end == j
  }

  lemma {:induction false} HexRun(s: string, i: nat)
    requires i <= |s|
    ensures var e := WhileHex(s, i);
            i <= e <= |s| && (forall k :: i <= k < e ==> HexDigit(s[k])) && (e < |s| ==> !HexDigit(s[e]))
    decreases |s| - i
  {
    if i < |s| && IsHexDigit(s[i]) {
      HexRun(s, i + 1);
    }
  }

  lemma {:induction false} DigitRun(s: string, i: nat)
    requires i <= |s|
    ensures var e := WhileDigit(s, i);
            i <= e <= |s| && (forall k :: i <= k < e ==> Digit(s[k])) && (e < |s| ==> !Digit(s[e]))
    decreases |s| - i
  {
    if i < |s| && IsDigit(s[i]) {
      DigitRun(s, i + 1);
    }
  }

  lemma {:induction false} DigitDotRun(s: string, i: nat)
    requires i <= |s|
    ensures var e := WhileDigitDot(s, i);
            && i <= e <= |s| && (forall k :: i <= k < e ==> Digit(s[k]) || s[k] == '.')
            && (e < |s| ==> !Digit(s[e]) && s[e] != '.')
    decreases |s| - i
  {
    if i < |s| && (IsDigit(s[i]) || s[i] == '.') {
      DigitDotRun(s, i + 1);
    }
  }

  lemma NumberEnds(s: string, i: nat)
    requires i < |s| && (Digit(s[i]) || s[i] == '.')
    ensures NumberEndsAt(s, i, NumberEnd(s, i))
  {
    if s[i] == '0' && (At(s, i + 1, 'x') || At(s, i + 1, 'X')) {
      HexRun(s, i + 2);
    } else {
      DigitDotRun(s, i);
      var j := WhileDigitDot(s, i);
      if At(s, j, 'e') || At(s, j, 'E') {
        DigitRun(s, if At(s, j + 1, '+') || At(s, j + 1, '-') then j + 2 else j + 1);
      }
      hide WhileDigitDot, WhileDigit;
    }
  }
}
