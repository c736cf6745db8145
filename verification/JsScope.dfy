/**
 Bindings and environments of the renamer (struct Env and the binding half of struct Parser in
 src/builders/JSObfuscatorScope.cpp), as functions on one immutable state.  Environments live in a pool
 and are named by their index: 0 is the script's root environment, a function's environment is pushed
 when its body is entered, and a parent always has a smaller index.
 */
module JsScope {
  import opened Chars
  import opened JsLexer

  datatype Env = Env(parent: Option<nat>, hoisted: map<string, nat>, blocks: seq<map<string, nat>>)

  datatype Binding = Binding(orig: string, mangled: string)

  datatype Rename = Rename(a: nat, b: nat, mangled: string)

  /** `names` is the stream of spellings drawn from the random generator. */
  datatype Options = Options(reserved: set<string>, preserve: set<string>, externs: set<string>, strict: bool,
                             names: nat -> string)

  /**
   `locals` is a trace kept for the specification: every name declared by let, const, a parameter or a
   catch clause, or declared by var, function or class while the current environment is not the root.
   */
  datatype Scope = Scope(envs: seq<Env>, cur: nat, binds: seq<Binding>, implicits: map<string, nat>,
                         used: set<string>, drawn: nat, spans: seq<Rename>, undefined: seq<string>,
                         locals: set<string>)

  const MAX_ATTEMPTS := 256

  function Initial(): Scope
  {
    Scope([Env(None, map[], [map[]])], 0, [], map[], {}, 0, [], [], {})
  }

  // ----- bindings -------------------------------------------------------------------------------

  /** Draw spellings until one is unused, at most `left` times; `last` is the spelling drawn before. */
  function Draw(opt: Options, used: set<string>, drawn: nat, left: nat, orig: string, last: string): (string, nat)
    decreases left
  {
    if left == 0 then (last, drawn)
    else
      var next := opt.names(drawn);
      var mang := if next == "" then orig else next;
      if mang !in used then (mang, drawn + 1) else Draw(opt, used, drawn + 1, left - 1, orig, mang)
  }

  function Mangle(opt: Options, s: Scope, orig: string): (string, nat)
  {
    if orig in opt.preserve then (orig, s.drawn)
    else
      var (mang, drawn) := Draw(opt, s.used, s.drawn, MAX_ATTEMPTS, orig, "");
      (if mang in s.used then orig + "_g" + Decimal(|s.binds|) else mang, drawn)
  }

  function MakeBinding(opt: Options, s: Scope, orig: string): (r: (Scope, nat))
    ensures r.1 == |s.binds|
  {
    var (mang, drawn) := Mangle(opt, s, orig);
    (s.(binds := s.binds + [Binding(orig, mang)], used := s.used + {mang}, drawn := drawn), |s.binds|)
  }

  function ImplicitGlobal(opt: Options, s: Scope, name: string): (Scope, nat)
  {
    if name in s.implicits then (s, s.implicits[name])
    else
      var (t, bid) := MakeBinding(opt, s, name);
      (t.(implicits := t.implicits[name := bid]), bid)
  }

  function BidForHoisted(opt: Options, s: Scope, name: string): (Scope, nat)
  {
    if s.cur == 0 && name in s.implicits then (s, s.implicits[name]) else MakeBinding(opt, s, name)
  }

  function Record(s: Scope, a: nat, b: nat, mang: string): Scope
  {
    if a < b then s.(spans := s.spans + [Rename(a, b, mang)]) else s
  }

  function RecordBid(s: Scope, a: nat, b: nat, bid: nat): Scope
  {
    if bid < |s.binds| then Record(s, a, b, s.binds[bid].mangled) else s
  }

  // ----- lookup ---------------------------------------------------------------------------------

  function LookupBlocks(blocks: seq<map<string, nat>>, name: string): Option<nat>
  {
    if blocks == [] then None
    else
      var top := blocks[|blocks| - 1];
      if name in top then Some(top[name]) else LookupBlocks(blocks[..|blocks| - 1], name)
  }

  /** Innermost block first, then the environment's hoisted names, then the enclosing function. */
  function LookupFrom(envs: seq<Env>, e: nat, name: string): Option<nat>
  {
    if e >= |envs| then None
    else
      var block := LookupBlocks(envs[e].blocks, name);
      if block.Some? then block
      else if name in envs[e].hoisted then Some(envs[e].hoisted[name])
      else if envs[e].parent.Some? && envs[e].parent.value < e then LookupFrom(envs, envs[e].parent.value, name)
      else None
  }

  function Lookup(s: Scope, name: string): Option<nat> { LookupFrom(s.envs, s.cur, name) }

  // ----- declarations ---------------------------------------------------------------------------

  predicate Skipped(opt: Options, name: string) { name == "" || name[0] == '_' || name in opt.reserved }

  function Hoist(s: Scope, name: string, bid: nat): Scope
    requires s.cur < |s.envs|
  {
    var e := s.envs[s.cur];
    s.(envs := s.envs[s.cur := e.(hoisted := e.hoisted[name := bid])],
       locals := if s.cur == 0 then s.locals else s.locals + {name})
  }

  /** The declaration in a var list: no test for reserved words or a leading underscore. */
  function DeclareVar(opt: Options, s: Scope, name: string, a: nat, b: nat): Scope
    requires s.cur < |s.envs|
  {
    if name in s.envs[s.cur].hoisted then RecordBid(s, a, b, s.envs[s.cur].hoisted[name])
    else
      var (t, bid) := BidForHoisted(opt, s, name);
      RecordBid(Hoist(t, name, bid), a, b, bid)
  }

  /** Function and class names. */
  function DeclareHoisted(opt: Options, s: Scope, name: string, a: nat, b: nat): Scope
    requires s.cur < |s.envs|
  {
    if Skipped(opt, name) then s else DeclareVar(opt, s, name, a, b)
  }

  /** Bind `name` in the innermost block of the current environment. */
  function BindLet(s: Scope, name: string, bid: nat): Scope
    requires s.cur < |s.envs|
  {
    var e := s.envs[s.cur];
    var blocks := if e.blocks == [] then [map[]] else e.blocks;
    var top: map<string, nat> := blocks[|blocks| - 1];
    s.(envs := s.envs[s.cur := e.(blocks := blocks[|blocks| - 1 := top[name := bid]])], locals := s.locals + {name})
  }

  function DeclareLet(opt: Options, s: Scope, name: string, a: nat, b: nat): Scope
    requires s.cur < |s.envs|
  {
    if Skipped(opt, name) then s
    else
      var blocks := s.envs[s.cur].blocks;
      if blocks != [] && name in blocks[|blocks| - 1] then
        RecordBid(s.(locals := s.locals + {name}), a, b, blocks[|blocks| - 1][name])
      else
        var (t, bid) := MakeBinding(opt, s, name);
        RecordBid(BindLet(t, name, bid), a, b, bid)
  }

  // ----- references -----------------------------------------------------------------------------

  predicate BlankChar(c: char) { c == ' ' || c == '\t' || c == '\n' || c == '\r' }

  function SkipBlank(code: string, i: nat): (r: nat)
    requires i <= |code|
    ensures i <= r <= |code|
    decreases |code| - i
  {
    if i < |code| && BlankChar(code[i]) then SkipBlank(code, i + 1) else i
  }

  function BackBlank(code: string, i: nat): (r: nat)
    requires i <= |code|
    ensures r <= i
  {
    if i > 0 && BlankChar(code[i - 1]) then BackBlank(code, i - 1) else i
  }

  /** `name:` after an opening brace or a comma. */
  predicate IsObjectKey(code: string, a: nat, b: nat)
    requires a <= b <= |code|
  {
    var after := SkipBlank(code, b);
    var before := BackBlank(code, a);
    after < |code| && code[after] == ':' && before > 0 && (code[before - 1] == '{' || code[before - 1] == ',')
  }

  predicate IsMember(code: string, a: nat)
    requires a <= |code|
  {
    var p := BackOverSpace(code, a);
    p > 0 && (code[p - 1] == '.' || (code[p - 1] == '?' && p >= 2 && code[p - 2] == '.'))
  }

  /** Occurrences that are never renamed. */
  predicate Exempt(opt: Options, code: string, a: nat, b: nat)
    requires a <= b <= |code|
  {
    Skipped(opt, code[a..b]) || IsMember(code, a) || IsObjectKey(code, a, b)
  }

  function ReferenceIdent(opt: Options, code: string, s: Scope, a: nat, b: nat): Scope
    requires a <= b <= |code|
  {
    var name := code[a..b];
    if Exempt(opt, code, a, b) then s
    else
      var bid := Lookup(s, name);
      if bid.Some? then RecordBid(s, a, b, bid.value)
      else if name in opt.externs then Record(s, a, b, name)
      else if opt.strict then Record(s.(undefined := s.undefined + [name]), a, b, name)
      else
        var (t, ig) := ImplicitGlobal(opt, s, name);
        RecordBid(t, a, b, ig)
  }

  // ----- scopes ---------------------------------------------------------------------------------

  function EnterBlock(s: Scope): Scope
    requires s.cur < |s.envs|
  {
    var e := s.envs[s.cur];
    var blocks := if e.blocks == [] then [map[]] else e.blocks;
    s.(envs := s.envs[s.cur := e.(blocks := blocks + [map[]])])
  }

  function ExitBlock(s: Scope): Scope
    requires s.cur < |s.envs|
  {
    var e := s.envs[s.cur];
    if |e.blocks| > 1 then s.(envs := s.envs[s.cur := e.(blocks := e.blocks[..|e.blocks| - 1])]) else s
  }

  function EnterFunction(s: Scope): Scope
  {
    s.(envs := s.envs + [Env(Some(s.cur), map[], [map[]])], cur := |s.envs|)
  }

  function LeaveFunction(s: Scope, saved: nat): Scope { s.(cur := saved) }

  // ----- well-formed states ---------------------------------------------------------------------

  predicate BidsBelow(m: map<string, nat>, n: nat) { forall k :: k in m ==> m[k] < n }

  predicate EnvOk(e: Env, index: nat, bindCount: nat)
  {
    && (if index == 0 then e.parent == None else e.parent.Some? && e.parent.value < index)
    && e.blocks != []
    && BidsBelow(e.hoisted, bindCount)
    && forall k :: 0 <= k < |e.blocks| ==> BidsBelow(e.blocks[k], bindCount)
  }

  predicate WellFormed(s: Scope)
  {
    && s.cur < |s.envs|
    && (forall e :: 0 <= e < |s.envs| ==> EnvOk(s.envs[e], e, |s.binds|))
    && BidsBelow(s.implicits, |s.binds|)
  }

  lemma LookupBlocksBelow(blocks: seq<map<string, nat>>, name: string, n: nat)
    requires forall k :: 0 <= k < |blocks| ==> BidsBelow(blocks[k], n)
    ensures var r := LookupBlocks(blocks, name); r.Some? ==> r.value < n
  {
    if blocks != [] && name !in blocks[|blocks| - 1] {
      LookupBlocksBelow(blocks[..|blocks| - 1], name, n);
    }
  }

  lemma LookupBelow(s: Scope, e: nat, name: string)
    requires WellFormed(s)
    ensures var r := LookupFrom(s.envs, e, name); r.Some? ==> r.value < |s.binds|
  {
    if e < |s.envs| {
      assert EnvOk(s.envs[e], e, |s.binds|);
      LookupBlocksBelow(s.envs[e].blocks, name, |s.binds|);
      if s.envs[e].parent.Some? && s.envs[e].parent.value < e {
        LookupBelow(s, s.envs[e].parent.value, name);
      }
    }
  }

  // ----- what every step keeps ------------------------------------------------------------------

  predicate Extends(m: map<string, nat>, n: map<string, nat>)
  {
    forall k :: k in m ==> k in n && n[k] == m[k]
  }

  /** From s to t the current environment may gain names on its top block and hoisted names; nothing else is rebound. */
  predicate Grows(s: Scope, t: Scope)
  {
    && s.cur == t.cur < |s.envs| <= |t.envs|
    && (forall e :: 0 <= e < |s.envs| && e != s.cur ==> t.envs[e] == s.envs[e])
    && EnvGrows(s.envs[s.cur], t.envs[s.cur])
    && s.binds <= t.binds
    && s.spans <= t.spans
    && Extends(s.implicits, t.implicits)
    && s.locals <= t.locals
  }

  predicate EnvGrows(d: Env, e: Env)
  {
    && d.parent == e.parent
    && |d.blocks| == |e.blocks| > 0
    && d.blocks[..|d.blocks| - 1] == e.blocks[..|e.blocks| - 1]
    && Extends(d.blocks[|d.blocks| - 1], e.blocks[|e.blocks| - 1])
    && Extends(d.hoisted, e.hoisted)
  }

  lemma GrowsReflexive(s: Scope)
    requires WellFormed(s)
    ensures Grows(s, s)
  {
    assert EnvOk(s.envs[s.cur], s.cur, |s.binds|);
  }

  lemma GrowsTransitive(s: Scope, t: Scope, u: Scope)
    requires Grows(s, t) && Grows(t, u)
    ensures Grows(s, u)
  {
  }

  // ----- one spelling per hoisted name ----------------------------------------------------------

  /** Names to which the hoisting guarantee applies. */
  predicate Eligible(opt: Options, name: string)
  {
    !Skipped(opt, name) && name !in opt.externs && !opt.strict
  }

  predicate InBlocks(e: Env, name: string) { exists k :: 0 <= k < |e.blocks| && name in e.blocks[k] }

  /** The binding that all occurrences of a root-level name share, once there is one. */
  function RootBid(s: Scope, name: string): Option<nat>
    requires |s.envs| > 0
  {
    if name in s.envs[0].hoisted then Some(s.envs[0].hoisted[name])
    else if name in s.implicits then Some(s.implicits[name])
    else None
  }

  predicate Spelled(code: string, s: Scope, name: string, r: Rename)
    requires |s.envs| > 0
  {
    r.a <= r.b <= |code| && code[r.a..r.b] == name ==>
      RootBid(s, name).Some? && RootBid(s, name).value < |s.binds| && r.mangled == s.binds[RootBid(s, name).value].mangled
  }

  predicate OneSpelling(code: string, s: Scope, name: string)
    requires |s.envs| > 0
  {
    && (forall e :: 0 <= e < |s.envs| ==> !InBlocks(s.envs[e], name))
    && (forall e :: 0 < e < |s.envs| ==> name !in s.envs[e].hoisted)
    && (name in s.envs[0].hoisted && name in s.implicits ==> s.envs[0].hoisted[name] == s.implicits[name])
    && (forall k :: 0 <= k < |s.spans| ==> Spelled(code, s, name, s.spans[k]))
  }

  ghost predicate HoistConsistent(opt: Options, code: string, s: Scope)
    requires |s.envs| > 0
  {
    forall name :: Eligible(opt, name) && name !in s.locals ==> OneSpelling(code, s, name)
  }
}
