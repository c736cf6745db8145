/** What scopes do for the renamer: the spelling a new binding gets, and which binding a name stands for (struct Env and
    struct Parser in src/builders/JSObfuscatorScope.cpp). */
module JsScoping {
  import opened Chars
  import opened JsLexer
  import opened JsScope
  import opened JsScopeLemmas

  // ----- spellings ------------------------------------------------------------------------------

  /** The k-th spelling drawn from now on; an empty one stands for the name itself. */
  function Candidate(opt: Options, drawn: nat, orig: string, k: nat): string
  {
    if opt.names(drawn + k) == "" then orig else opt.names(drawn + k)
  }

  lemma {:induction false} DrawFinds(opt: Options, used: set<string>, drawn: nat, left: nat, orig: string, last: string, k: nat)
    requires k < left && Candidate(opt, drawn, orig, k) !in used
    requires forall j: nat :: j < k ==> Candidate(opt, drawn, orig, j) in used
    ensures Draw(opt, used, drawn, left, orig, last) == (Candidate(opt, drawn, orig, k), drawn + k + 1)
    decreases k
  {
    if k > 0 {
      var next := drawn + 1;
      assert Candidate(opt, drawn, orig, 0) in used;
      forall j: nat | j < k - 1 ensures Candidate(opt, next, orig, j) in used {
        assert Candidate(opt, next, orig, j) == Candidate(opt, drawn, orig, j + 1);
      }
      DrawFinds(opt, used, next, left - 1, orig, Candidate(opt, drawn, orig, 0), k - 1);
    }
  }

  lemma {:induction false} DrawFails(opt: Options, used: set<string>, drawn: nat, left: nat, orig: string, last: string)
    requires forall j: nat :: j < left ==> Candidate(opt, drawn, orig, j) in used
    requires left == 0 ==> last in used
    ensures var r := Draw(opt, used, drawn, left, orig, last); r.0 in used && r.1 == drawn + left
    decreases left
  {
    if left > 0 {
      var next := drawn + 1;
      assert Candidate(opt, drawn, orig, 0) in used;
      forall j: nat | j < left - 1 ensures Candidate(opt, next, orig, j) in used {
        assert Candidate(opt, next, orig, j) == Candidate(opt, drawn, orig, j + 1);
      }
      DrawFails(opt, used, next, left - 1, orig, Candidate(opt, drawn, orig, 0));
    }
  }

  /** A new binding takes the first of 256 spellings that no binding has yet, or else the name itself and its number;
      a preserved name keeps its spelling. */
  lemma SpellingExactly(opt: Options, s: Scope, orig: string, k: nat)
    ensures var t := MakeBinding(opt, s, orig).0;
            var mangled := t.binds[|s.binds|].mangled;
            && |t.binds| == |s.binds| + 1 && t.binds[..|s.binds|] == s.binds && t.binds[|s.binds|].orig == orig
            && t.used == s.used + {mangled}
            && (orig in opt.preserve ==> mangled == orig)
            && (orig !in opt.preserve && k < 256 && Candidate(opt, s.drawn, orig, k) !in s.used
                && (forall j: nat :: j < k ==> Candidate(opt, s.drawn, orig, j) in s.used)
                ==> mangled == Candidate(opt, s.drawn, orig, k) && t.drawn == s.drawn + k + 1)
            && (orig !in opt.preserve && (forall j: nat :: j < 256 ==> Candidate(opt, s.drawn, orig, j) in s.used)
                ==> mangled == orig + "_g" + Decimal(|s.binds|) && t.drawn == s.drawn + 256)
  {
    hide Candidate, Draw;
    if k < 256 && Candidate(opt, s.drawn, orig, k) !in s.used
       && forall j: nat :: j < k ==> Candidate(opt, s.drawn, orig, j) in s.used {
      DrawFinds(opt, s.used, s.drawn, 256, orig, "", k);
    }
    if forall j: nat :: j < 256 ==> Candidate(opt, s.drawn, orig, j) in s.used {
      DrawFails(opt, s.used, s.drawn, 256, orig, "");
    }
  }

  // ----- which binding a name stands for --------------------------------------------------------

  /** Of the blocks of an environment the innermost one that has the name decides. */
  lemma {:induction false} InnermostDecides(blocks: seq<map<string, nat>>, name: string, k: nat)
    requires k < |blocks| && name in blocks[k] && forall j :: k < j < |blocks| ==> name !in blocks[j]
    ensures LookupBlocks(blocks, name) == Some(blocks[k][name])
    decreases |blocks|
  {
    if k < |blocks| - 1 {
      InnermostDecides(blocks[..|blocks| - 1], name, k);
    }
  }

  /** A name that no inner block has stands for what it stands for outside. */
  lemma {:induction false} NoBlockDecides(blocks: seq<map<string, nat>>, name: string, k: nat)
    requires k <= |blocks| && forall j :: k <= j < |blocks| ==> name !in blocks[j]
    ensures LookupBlocks(blocks, name) == LookupBlocks(blocks[..k], name)
    decreases |blocks|
  {
    if k < |blocks| {
      NoBlockDecides(blocks[..|blocks| - 1], name, k);
      assert blocks[..|blocks| - 1][..k] == blocks[..k];
    } else {
      assert blocks[..k] == blocks;
    }
  }

  /** The environments below e decide what e's parents say. */
  lemma {:induction false} SameBelow(d: seq<Env>, e: seq<Env>, n: nat, k: nat, name: string)
    requires k < n <= |d| && n <= |e| && d[..n] == e[..n]
    ensures LookupFrom(d, k, name) == LookupFrom(e, k, name)
    decreases k
  {
    assert d[k] == d[..n][k] == e[..n][k] == e[k];
    if d[k].parent.Some? && d[k].parent.value < k {
      SameBelow(d, e, n, d[k].parent.value, name);
    }
  }

  /** A let in an inner block shadows whatever the name stands for outside, the block's other names still stand for what
      they did, and after the block every name stands for what it stood for before it. */
  lemma LetShadows(opt: Options, s: Scope, name: string, a: nat, b: nat, other: string)
    requires WellFormed(s) && !Skipped(opt, name)
    ensures s.cur < |s.envs|
    ensures var t := DeclareLet(opt, EnterBlock(s), name, a, b);
            && t.cur == s.cur < |t.envs|
            && Lookup(t, name) == Some(|s.binds|)
            && (other != name ==> Lookup(t, other) == Lookup(s, other))
            && Lookup(ExitBlock(t), other) == Lookup(s, other)
            && |t.binds| == |s.binds| + 1 && t.binds[|s.binds|].orig == name
            && (a < b ==> t.spans == s.spans + [Rename(a, b, t.binds[|s.binds|].mangled)])
  {
    assert EnvOk(s.envs[s.cur], s.cur, |s.binds|);
    SpellingExactly(opt, s, name, 0);
    LetState(opt, s, name, a, b);
    hide MakeBinding, DeclareLet, EnvOk;
    var t := DeclareLet(opt, EnterBlock(s), name, a, b);
    var blocks, inner := s.envs[s.cur].blocks, t.envs[s.cur].blocks;
    InnermostDecides(inner, name, |blocks|);
    if other != name {
      NoBlockDecides(inner, other, |blocks|);
    }
    assert inner[..|blocks|] == blocks;
    BlocksDecide(s, t, other, other != name);
    BlocksDecide(s, ExitBlock(t), other, true);
  }

  /** What a let in a new block makes of the state. */
  lemma LetState(opt: Options, s: Scope, name: string, a: nat, b: nat)
    requires s.cur < |s.envs| && s.envs[s.cur].blocks != [] && !Skipped(opt, name)
    ensures var t := DeclareLet(opt, EnterBlock(s), name, a, b);
            var e := s.envs[s.cur];
            var m := MakeBinding(opt, s, name).0;
            && t.cur == s.cur && t.envs == s.envs[s.cur := e.(blocks := e.blocks + [map[name := |s.binds|]])]
            && ExitBlock(t).envs == s.envs && ExitBlock(t).cur == s.cur
            && t.binds == m.binds && (a < b ==> t.spans == s.spans + [Rename(a, b, m.binds[|s.binds|].mangled)])
  {
    var e := s.envs[s.cur];
    var inner := EnterBlock(s);
    assert inner.envs[s.cur].blocks == e.blocks + [map[]];
    assert MakeBinding(opt, inner, name) == (MakeBinding(opt, s, name).0.(envs := inner.envs), |s.binds|);
    hide MakeBinding;
    var t := DeclareLet(opt, inner, name, a, b);
    assert t.envs[s.cur].blocks == e.blocks + [map[name := |s.binds|]];
    assert t.envs == s.envs[s.cur := e.(blocks := e.blocks + [map[name := |s.binds|]])];
    assert t.envs[s.cur].blocks[..|e.blocks|] == e.blocks;
    assert ExitBlock(t).envs == s.envs;
  }

  /** Where the blocks of the current environment say the same, a lookup does. */
  lemma BlocksDecide(s: Scope, t: Scope, name: string, same: bool)
    requires s.cur == t.cur < |s.envs| == |t.envs| && t.envs[..s.cur] == s.envs[..s.cur]
    requires t.envs[s.cur].hoisted == s.envs[s.cur].hoisted && t.envs[s.cur].parent == s.envs[s.cur].parent
    requires same ==> LookupBlocks(t.envs[s.cur].blocks, name) == LookupBlocks(s.envs[s.cur].blocks, name)
    ensures same ==> Lookup(t, name) == Lookup(s, name)
  {
    var parent := s.envs[s.cur].parent;
    if parent.Some? && parent.value < s.cur {
      SameBelow(s.envs, t.envs, s.cur, parent.value, name);
    }
  }

  /** A var in a new function shadows the outer name inside it, its other names are those outside, and after the function
      every name stands for what it stood for before. */
  lemma VarShadows(opt: Options, s: Scope, name: string, a: nat, b: nat, other: string)
    requires WellFormed(s)
    ensures var u := EnterFunction(s);
            && u.cur == |s.envs| < |u.envs|
            && var t := DeclareVar(opt, u, name, a, b);
               && Lookup(t, name) == Some(|s.binds|)
               && (other != name ==> Lookup(t, other) == Lookup(s, other))
               && Lookup(LeaveFunction(t, s.cur), other) == Lookup(s, other)
               && |t.binds| == |s.binds| + 1 && t.binds[|s.binds|].orig == name
               && (a < b ==> t.spans == s.spans + [Rename(a, b, t.binds[|s.binds|].mangled)])
  {
    SpellingExactly(opt, s, name, 0);
    VarState(opt, s, name, a, b);
    hide MakeBinding, DeclareVar;
    var t := DeclareVar(opt, EnterFunction(s), name, a, b);
    assert t.envs[..|s.envs|] == s.envs == s.envs[..|s.envs|];
    SameBelow(s.envs, t.envs, |s.envs|, s.cur, other);
    SameBelow(s.envs, t.envs, |s.envs|, s.cur, name);
    EmptyBlock(name);
    EmptyBlock(other);
  }

  lemma EmptyBlock(name: string)
    ensures LookupBlocks([map[]], name) == None
  {
    var blocks: seq<map<string, nat>> := [map[]];
    assert blocks[..0] == [];
  }

  lemma VarState(opt: Options, s: Scope, name: string, a: nat, b: nat)
    requires WellFormed(s)
    ensures var t := DeclareVar(opt, EnterFunction(s), name, a, b);
            var m := MakeBinding(opt, s, name).0;
            && t.cur == |s.envs| && t.envs == s.envs + [Env(Some(s.cur), map[name := |s.binds|], [map[]])]
            && t.binds == m.binds && (a < b ==> t.spans == s.spans + [Rename(a, b, m.binds[|s.binds|].mangled)])
  {
    var u := EnterFunction(s);
    assert u.cur > 0;
    assert MakeBinding(opt, u, name) == (MakeBinding(opt, s, name).0.(envs := u.envs, cur := u.cur), |s.binds|);
    hide MakeBinding;
  }

  /** A reference is spelled like the binding its name stands for. */
  lemma ReferenceSpelled(opt: Options, code: string, s: Scope, a: nat, b: nat, bid: nat)
    requires a < b <= |code| && !Exempt(opt, code, a, b) && Lookup(s, code[a..b]) == Some(bid) && bid < |s.binds|
    ensures ReferenceIdent(opt, code, s, a, b) == s.(spans := s.spans + [Rename(a, b, s.binds[bid].mangled)])
  {
    hide Exempt, Lookup;
  }

  /** A reference to a name that is bound nowhere: an external name keeps its spelling, in strict mode the name is reported,
      and otherwise all such references share one binding. */
  lemma FreeReference(opt: Options, code: string, s: Scope, a: nat, b: nat)
    requires a < b <= |code| && !Exempt(opt, code, a, b) && Lookup(s, code[a..b]) == None
    ensures var name, t := code[a..b], ReferenceIdent(opt, code, s, a, b);
            && (name in opt.externs ==> t == s.(spans := s.spans + [Rename(a, b, name)]))
            && (name !in opt.externs && opt.strict ==> t.undefined == s.undefined + [name] && t.envs == s.envs)
            && (name !in opt.externs && !opt.strict && name in s.implicits && s.implicits[name] < |s.binds| ==>
                  t == s.(spans := s.spans + [Rename(a, b, s.binds[s.implicits[name]].mangled)]))
            && (name !in opt.externs && !opt.strict && name !in s.implicits ==>
                  && t.implicits == s.implicits[name := |s.binds|] && |t.binds| == |s.binds| + 1
                  && t.binds[|s.binds|].orig == name && t.envs == s.envs
                  && t.spans == s.spans + [Rename(a, b, t.binds[|s.binds|].mangled)])
  {
    hide Exempt, Lookup, Draw;
  }
}
