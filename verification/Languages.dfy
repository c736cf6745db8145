/** Language prefixes of paths (src/data/LanguageConfig.cpp). No configured language and no configuration are the same. */
module Languages {
  import opened Chars

  predicate IsLikelyExternal(target: string)
  {
    HasPrefix(target, "http://") || HasPrefix(target, "https://") || HasPrefix(target, "//")
  }

  /** Two letters between the first slash and the next one, or the end. */
  predicate TwoLetters(path: string)
  {
    |path| >= 3 && path[0] == '/' && IsAlpha(path[1]) && IsAlpha(path[2]) && (|path| == 3 || path[3] == '/')
  }

  /** extractSupportedLanguagePrefix. */
  function PrefixOf(languages: set<string>, path: string): Option<string>
  {
    if TwoLetters(path) && path[1..3] in languages then Some(path[1..3]) else None
  }

  /** stripSupportedLanguagePrefix. */
  function Strip(languages: set<string>, path: string): Option<string>
  {
    if PrefixOf(languages, path).None? then None else if |path| == 3 then Some("/") else Some(path[3..])
  }

  /** normalizeRedirectTargetLanguage: a target inside the site that names no language gets that of the request. */
  function Localized(languages: set<string>, target: string, request: string): string
  {
    if target == "" || IsLikelyExternal(target) || target[0] != '/' then target
    else if PrefixOf(languages, target).Some? || PrefixOf(languages, request).None? then target
    else "/" + PrefixOf(languages, request).value + target
  }

  /** A language that a path can name. */
  predicate TwoLetterCode(g: string) { |g| == 2 && IsAlpha(g[0]) && IsAlpha(g[1]) }

  /** A path that names no language is left alone. */
  lemma Unprefixed(languages: set<string>, path: string, target: string)
    requires PrefixOf(languages, path).None?
    ensures Strip(languages, path).None? && Localized(languages, target, path) == target
  {
  }

  lemma NeverPrefixed(languages: set<string>, path: string)
    requires forall g :: g in languages ==> !TwoLetterCode(g)
    ensures PrefixOf(languages, path).None?
  {
    if TwoLetters(path) {
      assert TwoLetterCode(path[1..3]);
    }
  }

  /** Taking the language off a path and putting it back gives the path, exactly when something follows the language
      that is neither another language nor looks like an external target. */
  lemma StripAndBack(languages: set<string>, path: string)
    requires Strip(languages, path).Some?
    ensures var rest := Strip(languages, path).value;
            Localized(languages, rest, path) == path
            <==> |path| > 3 && PrefixOf(languages, rest).None? && !IsLikelyExternal(rest)
  {
    var rest := Strip(languages, path).value;
    if |path| > 3 {
      assert path == ['/'] + path[1..3] + path[3..];
      assert rest[0] == '/' && |rest| == |path| - 3;
    } else {
      assert |"/" + path[1..3] + rest| == 4;
    }
  }

  predicate Letter(c: char) { 'a' <= c <= 'z' || 'A' <= c <= 'Z' }

  /** The language of a path is a configured one of two letters between the first slash and the next slash or the end. */
  lemma PrefixExactly(languages: set<string>, path: string, g: string)
    ensures PrefixOf(languages, path) == Some(g)
            <==> && g in languages && |g| == 2 && Letter(g[0]) && Letter(g[1])
                 && (path == "/" + g || exists rest :: path == "/" + g + "/" + rest)
  {
    if PrefixOf(languages, path) == Some(g) && |path| > 3 {
      assert path == "/" + g + "/" + path[4..];
    }
    if PrefixOf(languages, path) == Some(g) && |path| == 3 {
      assert path == "/" + g;
    }
    if rest :| path == "/" + g + "/" + rest && |g| == 2 {
      assert path[1..3] == g && path[3] == '/' && path[0] == '/' && path[1] == g[0] && path[2] == g[1];
    }
    if path == "/" + g && |g| == 2 {
      assert path[1..3] == g && path[0] == '/' && path[1] == g[0] && path[2] == g[1];
    }
  }

  /** The language in front of a path comes off, the language alone leaves the root, and a target of the site that names
      no language takes on the one of the request. */
  lemma PrefixStands(languages: set<string>, g: string, path: string)
    requires g in languages && TwoLetterCode(g) && path != "" && path[0] == '/'
    ensures PrefixOf(languages, "/" + g + path) == Some(g)
    ensures Strip(languages, "/" + g + path) == Some(path) && Strip(languages, "/" + g) == Some("/")
    ensures forall target :: Localized(languages, target, "/" + g + path)
                          == if target != "" && target[0] == '/' && !IsLikelyExternal(target)
                                && PrefixOf(languages, target).None?
                             then "/" + g + target else target
  {
    var request := "/" + g + path;
    assert request[0] == '/' && request[1] == g[0] && request[2] == g[1] && request[3] == '/';
    assert request[1..3] == g && request[3..] == path;
    assert ("/" + g)[1..3] == g;
  }

  /** External targets name a scheme or a host. */
  lemma ExternalExactly(target: string)
    ensures IsLikelyExternal(target)
            <==> exists rest :: target == "http://" + rest || target == "https://" + rest || target == "//" + rest
  {
    if HasPrefix(target, "http://") {
      assert target == "http://" + target[7..];
    }
    if HasPrefix(target, "https://") {
      assert target == "https://" + target[8..];
    }
    if HasPrefix(target, "//") {
      assert target == "//" + target[2..];
    }
    if rest :| target == "http://" + rest || target == "https://" + rest || target == "//" + rest {
      assert target == "http://" + rest ==> target[..7] == "http://";
      assert target == "https://" + rest ==> target[..8] == "https://";
      assert target == "//" + rest ==> target[..2] == "//";
    }
  }
}
