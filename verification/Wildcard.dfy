/** Wildcard patterns of routes, gates and redirects (src/data/WildcardMatch.cpp). */
module Wildcard {
  import opened Chars

  // ----- the meaning of a pattern ---------------------------------------------------------------

  function Stars(p: string): nat { if p == "" then 0 else (if p[0] == '*' then 1 else 0) + Stars(p[1..]) }

  /** The pattern with its stars replaced, one text each. */
  function Fill(p: string, texts: seq<string>): string
    requires |texts| == Stars(p)
  {
    if p == "" then ""
    else if p[0] == '*' then texts[0] + Fill(p[1..], texts[1..])
    else [p[0]] + Fill(p[1..], texts)
  }

  /** Some texts for the stars give t. */
  ghost predicate Glob(p: string, t: string)
  {
    exists texts: seq<string> :: |texts| == Stars(p) && Fill(p, texts) == t
  }

  lemma GlobEmpty(t: string)
    ensures Glob("", t) <==> t == ""
  {
    if t == "" {
      var none: seq<string> := [];
      assert Fill("", none) == "";
    }
  }

  lemma GlobChar(p: string, t: string)
    requires p != "" && p[0] != '*'
    ensures Glob(p, t) <==> t != "" && t[0] == p[0] && Glob(p[1..], t[1..])
  {
    if Glob(p, t) {
      var texts: seq<string> :| |texts| == Stars(p) && Fill(p, texts) == t;
      assert t == [p[0]] + Fill(p[1..], texts);
      assert t[1..] == Fill(p[1..], texts);
    }
    if t != "" && t[0] == p[0] && Glob(p[1..], t[1..]) {
      var texts: seq<string> :| |texts| == Stars(p[1..]) && Fill(p[1..], texts) == t[1..];
      assert t == [t[0]] + t[1..];
      assert Fill(p, texts) == t;
    }
  }

  /** A star takes some front of the text. */
  lemma GlobStar(p: string, t: string)
    requires p != "" && p[0] == '*'
    ensures Glob(p, t) <==> exists k: nat :: k <= |t| && Glob(p[1..], t[k..])
  {
    if Glob(p, t) {
      var texts: seq<string> :| |texts| == Stars(p) && Fill(p, texts) == t;
      var k := |texts[0]|;
      assert t == texts[0] + Fill(p[1..], texts[1..]);
      assert t[k..] == Fill(p[1..], texts[1..]);
      assert k <= |t| && Glob(p[1..], t[k..]);
    }
    if exists k: nat :: k <= |t| && Glob(p[1..], t[k..]) {
      var k: nat :| k <= |t| && Glob(p[1..], t[k..]);
      var rest: seq<string> :| |rest| == Stars(p[1..]) && Fill(p[1..], rest) == t[k..];
      var texts := [t[..k]] + rest;
      assert texts[1..] == rest && texts[0] == t[..k];
      assert t == t[..k] + t[k..];
      assert Fill(p, texts) == t;
    }
  }

  lemma GlobAnything(t: string)
    ensures Glob("*", t)
  {
    GlobStar("*", t);
    GlobEmpty(t[|t|..]);
    assert "*"[1..] == "" && t[|t|..] == "";
  }

  /** Two stars say no more than one. */
  lemma GlobTwoStars(p: string, t: string)
    requires |p| >= 2 && p[0] == '*' && p[1] == '*'
    ensures Glob(p, t) <==> Glob(p[1..], t)
  {
    GlobStar(p, t);
    assert t[0..] == t;
    if Glob(p, t) {
      var k: nat :| k <= |t| && Glob(p[1..], t[k..]);
      GlobStar(p[1..], t[k..]);
      var j: nat :| j <= |t[k..]| && Glob(p[1..][1..], t[k..][j..]);
      assert t[k..][j..] == t[k + j..];
      GlobStar(p[1..], t);
    }
  }

  lemma {:induction false} GlobPlain(p: string, t: string)
    requires Stars(p) == 0
    ensures Glob(p, t) <==> p == t
  {
    if p == "" {
      GlobEmpty(t);
    } else {
      assert p[0] != '*';
      GlobChar(p, t);
      if t != "" {
        GlobPlain(p[1..], t[1..]);
        assert p == [p[0]] + p[1..] && t == [t[0]] + t[1..];
      }
    }
  }

  // ----- the matcher ----------------------------------------------------------------------------

  /** matchWildcard on pattern[i..] and text[j..]. */
  method MatchWildcard(pattern: string, i: nat, text: string, j: nat) returns (r: bool)
    requires i <= |pattern| && j <= |text|
    ensures r <==> Glob(pattern[i..], text[j..])
    decreases |pattern| - i, |text| - j
  {
    hide Glob;
    if i == |pattern| {
      GlobEmpty(text[j..]);
      return j == |text|;
    }
    if pattern[i] == '*' {
      var p := i;
      while p + 1 < |pattern| && pattern[p + 1] == '*'
        invariant i <= p < |pattern| && pattern[p] == '*'
        invariant Glob(pattern[i..], text[j..]) <==> Glob(pattern[p..], text[j..])
      {
        GlobTwoStars(pattern[p..], text[j..]);
        assert pattern[p..][1..] == pattern[p + 1..];
        p := p + 1;
      }
      p := p + 1;
      if p == |pattern| {
        GlobAnything(text[j..]);
        assert pattern[p - 1..] == "*";
        return true;
      }
      GlobStar(pattern[p - 1..], text[j..]);
      assert pattern[p - 1..][1..] == pattern[p..];
      var t := j;
      while t < |text|
        invariant j <= t <= |text|
        invariant forall k :: j <= k < t ==> !Glob(pattern[p..], text[k..])
      {
        var found := MatchWildcard(pattern, p, text, t);
        if found {
          assert text[j..][t - j..] == text[t..];
          return true;
        }
        t := t + 1;
      }
      r := MatchWildcard(pattern, p, text, t);
      assert text[j..][t - j..] == text[t..];
      forall k: nat | k <= |text[j..]| && k != t - j ensures !Glob(pattern[p..], text[j..][k..]) {
        assert text[j..][k..] == text[j + k..];
      }
      return;
    }
    GlobChar(pattern[i..], text[j..]);
    assert pattern[i..][1..] == pattern[i + 1..];
    if j < |text| && pattern[i] == text[j] {
      assert text[j..][1..] == text[j + 1..];
      r := MatchWildcard(pattern, i + 1, text, j + 1);
      return;
    }
    return false;
  }

  /** The text of a string up to its first NUL. */
  function CStr(s: string): string { if s == "" || s[0] == '\0' then "" else [s[0]] + CStr(s[1..]) }

  predicate NulFree(s: string) { forall k :: 0 <= k < |s| ==> s[k] != '\0' }

  lemma {:induction false} CStrWhole(s: string)
    requires NulFree(s)
    ensures CStr(s) == s
  {
    if s != "" {
      CStrWhole(s[1..]);
      assert s == [s[0]] + s[1..];
    }
  }

  /** What comes before the first NUL. */
  lemma {:induction false} CutAtNul(front: string, rest: string)
    requires NulFree(front)
    ensures CStr(front + ['\0'] + rest) == front
  {
    if front != "" {
      assert (front + ['\0'] + rest)[1..] == front[1..] + ['\0'] + rest;
      CutAtNul(front[1..], rest);
    }
  }

  predicate HasStar(p: string) { exists k :: 0 <= k < |p| && p[k] == '*' }

  lemma {:induction false} HasStarCounts(p: string)
    ensures HasStar(p) <==> Stars(p) > 0
  {
    if p != "" {
      HasStarCounts(p[1..]);
      if HasStar(p[1..]) {
        var k :| 0 <= k < |p[1..]| && p[1..][k] == '*';
        assert p[k + 1] == '*';
      }
      if HasStar(p) && p[0] != '*' {
        var k :| 0 <= k < |p| && p[k] == '*';
        assert p[1..][k - 1] == '*';
      }
    }
  }

  /** What a pattern of the registries accepts. */
  ghost predicate Accepts(pattern: string, path: string)
  {
    if HasStar(pattern) then Glob(CStr(pattern), CStr(path)) else pattern == path
  }

  /** On strings without NUL this is the glob relation. */
  lemma AcceptsIsGlob(pattern: string, path: string)
    requires NulFree(pattern) && NulFree(path)
    ensures Accepts(pattern, path) <==> Glob(pattern, path)
  {
    CStrWhole(pattern);
    CStrWhole(path);
    HasStarCounts(pattern);
    hide Glob;
    if !HasStar(pattern) {
      GlobPlain(pattern, path);
    }
  }

  /** First star at or after `from`. */
  method FindStar(p: string, from: nat) returns (r: Option<nat>)
    requires from <= |p|
    ensures r.Some? ==> from <= r.value < |p| && p[r.value] == '*' && forall k :: from <= k < r.value ==> p[k] != '*'
    ensures r.None? ==> forall k :: from <= k < |p| ==> p[k] != '*'
  {
    var i := from;
    while i < |p|
      invariant from <= i <= |p| && forall k :: from <= k < i ==> p[k] != '*'
    {
      if p[i] == '*' {
        return Some(i);
      }
      i := i + 1;
    }
    return None;
  }

  lemma CStrStep(s: string, i: nat)
    requires i < |s| && s[i] != '\0'
    ensures CStr(s[i..]) == [s[i]] + CStr(s[i + 1..])
  {
    assert s[i..][1..] == s[i + 1..];
  }

  lemma CStrEnd(s: string, i: nat)
    requires i <= |s| && (i < |s| ==> s[i] == '\0')
    ensures s[..i] + CStr(s[i..]) == s[..i]
  {
  }

  method ToCStr(s: string) returns (r: string)
    ensures r == CStr(s)
  {
    hide CStr;
    var i := 0;
    assert s[0..] == s;
    while i < |s| && s[i] != '\0'
      invariant i <= |s| && CStr(s) == s[..i] + CStr(s[i..])
    {
      CStrStep(s, i);
      assert s[..i] + ([s[i]] + CStr(s[i + 1..])) == s[..i + 1] + CStr(s[i + 1..]);
      i := i + 1;
    }
    CStrEnd(s, i);
    r := s[..i];
  }

  method MatchesWildcardPattern(pattern: string, path: string) returns (r: bool)
    ensures r <==> Accepts(pattern, path)
  {
    hide Glob;
    var star := FindStar(pattern, 0);
    if star.None? {
      return pattern == path;
    }
    assert HasStar(pattern);
    var p := ToCStr(pattern);
    var t := ToCStr(path);
    r := MatchWildcard(p, 0, t, 0);
    assert p[0..] == p && t[0..] == t;
  }

  // ----- captures -------------------------------------------------------------------------------

  predicate OneStarAt(p: string, k: nat)
  {
    k < |p| && p[k] == '*' && forall j :: 0 <= j < |p| && j != k ==> p[j] != '*'
  }

  /** extractWildcardCapture: what the only star of the pattern stands for. */
  ghost predicate Captures(pattern: string, path: string, capture: string)
  {
    if HasStar(pattern) then exists k: nat :: OneStarAt(pattern, k) && path == pattern[..k] + capture + pattern[k + 1..]
    else pattern == path && capture == ""
  }

  method ExtractWildcardCapture(pattern: string, path: string) returns (r: Option<string>)
    ensures r.Some? ==> Captures(pattern, path, r.value)
    ensures r.None? ==> forall capture :: !Captures(pattern, path, capture)
  {
    var firstStar := FindStar(pattern, 0);
    if firstStar.None? {
      return if pattern == path then Some("") else None;
    }
    var k := firstStar.value;
    assert HasStar(pattern);
    var second := FindStar(pattern, k + 1);
    if second.Some? {
      return None;
    }
    assert OneStarAt(pattern, k);
    assert forall j: nat :: OneStarAt(pattern, j) ==> j == k;
    var prefix := pattern[..k];
    var suffix := pattern[k + 1..];
    forall capture | path == prefix + capture + suffix
      ensures |path| >= |prefix| + |suffix| && path[..|prefix|] == prefix && path[|path| - |suffix|..] == suffix
    {
    }
    if |path| < |prefix| + |suffix| {
      return None;
    }
    if path[..|prefix|] != prefix {
      return None;
    }
    if suffix != "" && path[|path| - |suffix|..] != suffix {
      return None;
    }
    var capture := path[|prefix|..|path| - |suffix|];
    assert path == prefix + capture + suffix;
    return Some(capture);
  }

  /** Every star of the target replaced by the capture. */
  function Applied(target: string, capture: string): string
  {
    if target == "" then ""
    else (if target[0] == '*' then capture else [target[0]]) + Applied(target[1..], capture)
  }

  lemma {:induction false} AppliedConcat(a: string, b: string, capture: string)
    ensures Applied(a + b, capture) == Applied(a, capture) + Applied(b, capture)
  {
    if a == "" {
      assert a + b == b;
    } else {
      assert (a + b)[1..] == a[1..] + b;
      AppliedConcat(a[1..], b, capture);
    }
  }

  lemma {:induction false} AppliedPlain(a: string, capture: string)
    requires forall k :: 0 <= k < |a| ==> a[k] != '*'
    ensures Applied(a, capture) == a
  {
    if a != "" {
      AppliedPlain(a[1..], capture);
      assert a == [a[0]] + a[1..];
    }
  }

  method ApplyWildcardCapture(target: string, capture: string) returns (resolved: string)
    ensures resolved == Applied(target, capture)
  {
    var star := FindStar(target, 0);
    if star.None? {
      AppliedPlain(target, capture);
      return target;
    }
    resolved := "";
    for i := 0 to |target|
      invariant resolved == Applied(target[..i], capture)
    {
      AppliedConcat(target[..i], [target[i]], capture);
      assert target[..i + 1] == target[..i] + [target[i]];
      assert [target[i]][1..] == "";
      resolved := resolved + if target[i] == '*' then capture else [target[i]];
    }
    assert target[..|target|] == target;
  }

  lemma StarSplits(pattern: string, k: nat)
    requires OneStarAt(pattern, k)
    ensures k < |pattern| && pattern == pattern[..k] + (['*'] + pattern[k + 1..])
    ensures var front, back := pattern[..k], pattern[k + 1..];
            (forall j :: 0 <= j < |front| ==> front[j] != '*') && (forall j :: 0 <= j < |back| ==> back[j] != '*')
  {
    var back := pattern[k + 1..];
    assert forall j :: 0 <= j < |back| ==> back[j] == pattern[j + k + 1];
  }

  lemma AppliedAtStar(pattern: string, k: nat, capture: string)
    requires OneStarAt(pattern, k)
    ensures Applied(pattern, capture) == pattern[..k] + capture + pattern[k + 1..]
  {
    StarSplits(pattern, k);
    hide *;
    var front, back := pattern[..k], pattern[k + 1..];
    AppliedPlain(front, capture);
    AppliedPlain(back, capture);
    AppliedStar(back, capture);
    AppliedConcat(front, ['*'] + back, capture);
    assert pattern == front + (['*'] + back);
  }

  lemma AppliedStar(back: string, capture: string)
    ensures Applied(['*'] + back, capture) == capture + Applied(back, capture)
  {
    assert (['*'] + back)[1..] == back;
  }

  /** For a pattern with one star: captures and paths determine each other. */
  lemma CaptureRoundTrip(pattern: string, k: nat, path: string, capture: string)
    requires OneStarAt(pattern, k)
    ensures Captures(pattern, path, capture) <==> path == Applied(pattern, capture)
    ensures Applied(pattern, capture) == path ==> forall other :: Captures(pattern, path, other) ==> other == capture
  {
    AppliedAtStar(pattern, k, capture);
    assert HasStar(pattern);
    assert forall j: nat :: OneStarAt(pattern, j) ==> j == k;
    if Applied(pattern, capture) == path {
      forall other | Captures(pattern, path, other) ensures other == capture {
        var front := pattern[..k];
        var back := pattern[k + 1..];
        assert path == front + other + back && path == front + capture + back;
        assert path[|front|..|path| - |back|] == other;
        assert path[|front|..|path| - |back|] == capture;
      }
    }
  }

  lemma {:induction false} OneStarFill(pattern: string, k: nat, texts: seq<string>)
    requires OneStarAt(pattern, k) && |texts| == Stars(pattern)
    ensures |texts| == 1 && Fill(pattern, texts) == pattern[..k] + texts[0] + pattern[k + 1..]
    decreases k
  {
    var tail := pattern[1..];
    OneStarCount(pattern, k);
    if k == 0 {
      assert texts[1..] == [] && Stars(tail) == 0;
      hide OneStarAt, Stars;
      FillStar(pattern, texts);
      FillPlain(tail, texts[1..]);
      assert pattern[..0] + texts[0] + tail == texts[0] + tail;
    } else {
      assert OneStarAt(tail, k - 1);
      OneStarFill(tail, k - 1, texts);
      hide OneStarAt, Stars;
      FillStep(pattern, texts);
      assert pattern[..k] == [pattern[0]] + tail[..k - 1];
      assert tail[k..] == pattern[k + 1..];
    }
  }

  lemma FillStar(pattern: string, texts: seq<string>)
    requires pattern != "" && pattern[0] == '*' && |texts| == Stars(pattern)
    ensures texts != [] && |texts[1..]| == Stars(pattern[1..]) && Fill(pattern, texts) == texts[0] + Fill(pattern[1..], texts[1..])
  {
  }

  lemma FillStep(pattern: string, texts: seq<string>)
    requires pattern != "" && pattern[0] != '*' && |texts| == Stars(pattern)
    ensures Fill(pattern, texts) == [pattern[0]] + Fill(pattern[1..], texts)
  {
  }

  lemma {:induction false} FillPlain(p: string, texts: seq<string>)
    requires Stars(p) == 0 && |texts| == 0
    ensures Fill(p, texts) == p
  {
    if p != "" {
      FillPlain(p[1..], texts);
      assert p == [p[0]] + p[1..];
    }
  }

  /** With one star there is a capture exactly when the path matches. */
  lemma CaptureExactly(pattern: string, k: nat, path: string)
    requires OneStarAt(pattern, k)
    ensures Glob(pattern, path) <==> exists capture :: Captures(pattern, path, capture)
  {
    if Glob(pattern, path) {
      var texts: seq<string> :| |texts| == Stars(pattern) && Fill(pattern, texts) == path;
      OneStarFill(pattern, k, texts);
      assert Captures(pattern, path, texts[0]);
    }
    if exists capture :: Captures(pattern, path, capture) {
      var capture :| Captures(pattern, path, capture);
      HasStarCounts(pattern);
      var j: nat :| OneStarAt(pattern, j) && path == pattern[..j] + capture + pattern[j + 1..];
      OneStarCount(pattern, j);
      OneStarFill(pattern, j, [capture]);
    }
  }

  lemma {:induction false} OneStarCount(pattern: string, k: nat)
    requires OneStarAt(pattern, k)
    ensures Stars(pattern) == 1
    decreases k
  {
    if k == 0 {
      HasStarCounts(pattern[1..]);
    } else {
      assert OneStarAt(pattern[1..], k - 1);
      OneStarCount(pattern[1..], k - 1);
    }
  }
}
