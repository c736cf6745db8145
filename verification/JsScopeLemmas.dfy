/** What each scope operation keeps: well-formedness, growth, and one spelling per hoisted name. */
module JsScopeLemmas {
  import opened Chars
  import opened JsLexer
  import opened JsScope

  /** Either nothing is recorded, or exactly one rename of [a, b). */
  predicate RecordsAt(s: Scope, t: Scope, a: nat, b: nat)
  {
    t.spans == s.spans || (|t.spans| == |s.spans| + 1 && t.spans[..|s.spans|] == s.spans
                           && t.spans[|s.spans|].a == a && t.spans[|s.spans|].b == b && a < b)
  }

  ghost predicate Good(opt: Options, code: string, s: Scope)
  {
    WellFormed(s) && HoistConsistent(opt, code, s)
  }

  lemma InitialIsGood(opt: Options, code: string)
    ensures Good(opt, code, Initial())
  {
    var s := Initial();
    forall name | Eligible(opt, name) && name !in s.locals ensures OneSpelling(code, s, name) {
    }
  }

  // ----- one name at a time ---------------------------------------------------------------------

  lemma SpelledStable(code: string, s: Scope, t: Scope, name: string)
    requires |s.envs| > 0 && |t.envs| > 0
    requires s.binds <= t.binds
    requires RootBid(s, name).Some? ==> RootBid(t, name) == RootBid(s, name)
    requires forall k :: 0 <= k < |s.spans| ==> Spelled(code, s, name, s.spans[k])
    ensures forall k :: 0 <= k < |s.spans| ==> Spelled(code, t, name, s.spans[k])
  {
    forall k | 0 <= k < |s.spans| ensures Spelled(code, t, name, s.spans[k]) {
      assert Spelled(code, s, name, s.spans[k]);
    }
  }

  lemma LookupBlocksMiss(blocks: seq<map<string, nat>>, name: string)
    requires forall k :: 0 <= k < |blocks| ==> name !in blocks[k]
    ensures LookupBlocks(blocks, name) == None
  {
    if blocks != [] {
      LookupBlocksMiss(blocks[..|blocks| - 1], name);
    }
  }

  /** A name bound nowhere but in the root's hoisted table resolves there from every environment. */
  lemma {:induction false} LookupRoot(code: string, s: Scope, e: nat, name: string)
    requires WellFormed(s) && e < |s.envs| && OneSpelling(code, s, name)
    ensures LookupFrom(s.envs, e, name)
         == if name in s.envs[0].hoisted then Some(s.envs[0].hoisted[name]) else None
  {
    assert EnvOk(s.envs[e], e, |s.binds|);
    assert !InBlocks(s.envs[e], name);
    forall k | 0 <= k < |s.envs[e].blocks| ensures name !in s.envs[e].blocks[k] {
    }
    LookupBlocksMiss(s.envs[e].blocks, name);
    if e > 0 {
      LookupRoot(code, s, s.envs[e].parent.value, name);
    }
  }

  lemma MakeBindingGood(opt: Options, code: string, s: Scope, orig: string)
    requires Good(opt, code, s)
    ensures var t := MakeBinding(opt, s, orig).0; Good(opt, code, t) && Grows(s, t)
    ensures var t := MakeBinding(opt, s, orig).0;
            t.spans == s.spans && t.envs == s.envs && t.implicits == s.implicits && t.locals == s.locals
            && |t.binds| == |s.binds| + 1
  {
    var t := MakeBinding(opt, s, orig).0;
    forall e | 0 <= e < |t.envs| ensures EnvOk(t.envs[e], e, |t.binds|) {
      assert EnvOk(s.envs[e], e, |s.binds|);
      forall k | 0 <= k < |t.envs[e].blocks| ensures BidsBelow(t.envs[e].blocks[k], |t.binds|) {
        assert BidsBelow(s.envs[e].blocks[k], |s.binds|);
      }
    }
    forall name | Eligible(opt, name) && name !in t.locals ensures OneSpelling(code, t, name) {
      assert OneSpelling(code, s, name);
      SpelledStable(code, s, t, name);
    }
    GrowsReflexive(s);
  }

  lemma RecordBidGood(opt: Options, code: string, s: Scope, a: nat, b: nat, bid: nat)
    requires Good(opt, code, s)
    requires a < b <= |code| && bid < |s.binds|
    requires Eligible(opt, code[a..b]) && code[a..b] !in s.locals ==> RootBid(s, code[a..b]) == Some(bid)
    ensures var t := RecordBid(s, a, b, bid); Good(opt, code, t) && Grows(s, t) && RecordsAt(s, t, a, b) && |t.spans| == |s.spans| + 1
  {
    var t := RecordBid(s, a, b, bid);
    forall name | Eligible(opt, name) && name !in t.locals ensures OneSpelling(code, t, name) {
      assert OneSpelling(code, s, name);
      forall k | 0 <= k < |t.spans| ensures Spelled(code, t, name, t.spans[k]) {
        if k < |s.spans| {
          assert Spelled(code, s, name, s.spans[k]);
        }
      }
    }
    GrowsReflexive(s);
  }

  lemma HoistGood(opt: Options, code: string, s: Scope, name: string, bid: nat)
    requires Good(opt, code, s) && bid < |s.binds| && name !in s.envs[s.cur].hoisted
    requires s.cur == 0 && name in s.implicits ==> bid == s.implicits[name]
    ensures var t := Hoist(s, name, bid); Good(opt, code, t) && Grows(s, t) && t.spans == s.spans && t.binds == s.binds
    ensures var t := Hoist(s, name, bid);
            Eligible(opt, name) && name !in t.locals ==> RootBid(t, name) == Some(bid)
  {
    var t := Hoist(s, name, bid);
    assert EnvOk(s.envs[s.cur], s.cur, |s.binds|);
    forall e | 0 <= e < |t.envs| ensures EnvOk(t.envs[e], e, |t.binds|) {
      assert EnvOk(s.envs[e], e, |s.binds|);
    }
    forall n | Eligible(opt, n) && n !in t.locals ensures OneSpelling(code, t, n) {
      assert OneSpelling(code, s, n);
      forall e | 0 <= e < |t.envs| ensures !InBlocks(t.envs[e], n) {
        assert !InBlocks(s.envs[e], n);
      }
      SpelledStable(code, s, t, n);
    }
  }

  lemma DeclareVarGood(opt: Options, code: string, s: Scope, a: nat, b: nat)
    requires Good(opt, code, s) && a < b <= |code|
    ensures var t := DeclareVar(opt, s, code[a..b], a, b);
            Good(opt, code, t) && Grows(s, t) && RecordsAt(s, t, a, b) && |t.spans| == |s.spans| + 1
  {
    var name := code[a..b];
    assert EnvOk(s.envs[s.cur], s.cur, |s.binds|);
    if name in s.envs[s.cur].hoisted {
      if Eligible(opt, name) && name !in s.locals {
        assert OneSpelling(code, s, name);
      }
      RecordBidGood(opt, code, s, a, b, s.envs[s.cur].hoisted[name]);
    } else {
      var (t, bid) := BidForHoisted(opt, s, name);
      if !(s.cur == 0 && name in s.implicits) {
        MakeBindingGood(opt, code, s, name);
      } else {
        GrowsReflexive(s);
      }
      var u := Hoist(t, name, bid);
      HoistGood(opt, code, t, name, bid);
      RecordBidGood(opt, code, u, a, b, bid);
      GrowsTransitive(s, t, u);
      GrowsTransitive(s, u, RecordBid(u, a, b, bid));
    }
  }

  lemma DeclareHoistedGood(opt: Options, code: string, s: Scope, a: nat, b: nat)
    requires Good(opt, code, s) && a < b <= |code|
    ensures var t := DeclareHoisted(opt, s, code[a..b], a, b);
            Good(opt, code, t) && Grows(s, t) && RecordsAt(s, t, a, b)
            && (Skipped(opt, code[a..b]) || |t.spans| == |s.spans| + 1)
  {
    GrowsReflexive(s);
    if !Skipped(opt, code[a..b]) {
      DeclareVarGood(opt, code, s, a, b);
    }
  }

  lemma BindLetGood(opt: Options, code: string, s: Scope, name: string, bid: nat)
    requires Good(opt, code, s) && bid < |s.binds| && s.envs[s.cur].blocks != []
    requires name !in s.envs[s.cur].blocks[|s.envs[s.cur].blocks| - 1]
    ensures var t := BindLet(s, name, bid); Good(opt, code, t) && Grows(s, t) && t.binds == s.binds && t.spans == s.spans
  {
    var e := s.envs[s.cur];
    var t := BindLet(s, name, bid);
    assert EnvOk(e, s.cur, |s.binds|);
    forall k | 0 <= k < |t.envs[s.cur].blocks| ensures BidsBelow(t.envs[s.cur].blocks[k], |t.binds|) {
      assert BidsBelow(e.blocks[k], |s.binds|);
    }
    forall k | 0 <= k < |t.envs| ensures EnvOk(t.envs[k], k, |t.binds|) {
      assert EnvOk(s.envs[k], k, |s.binds|);
    }
    forall n | Eligible(opt, n) && n !in t.locals ensures OneSpelling(code, t, n) {
      assert OneSpelling(code, s, n);
      forall k | 0 <= k < |t.envs| ensures !InBlocks(t.envs[k], n) {
        assert !InBlocks(s.envs[k], n);
      }
      SpelledStable(code, s, t, n);
    }
    assert EnvGrows(e, t.envs[s.cur]);
  }

  /** Marking a name as local only weakens what is promised. */
  lemma MarkLocalGood(opt: Options, code: string, s: Scope, name: string)
    requires Good(opt, code, s)
    ensures var t := s.(locals := s.locals + {name}); Good(opt, code, t) && Grows(s, t)
  {
    var t := s.(locals := s.locals + {name});
    forall n | Eligible(opt, n) && n !in t.locals ensures OneSpelling(code, t, n) {
      assert OneSpelling(code, s, n);
      SpelledStable(code, s, t, n);
    }
    GrowsReflexive(s);
  }

  lemma DeclareLetGood(opt: Options, code: string, s: Scope, a: nat, b: nat)
    requires Good(opt, code, s) && a < b <= |code|
    ensures var t := DeclareLet(opt, s, code[a..b], a, b);
            Good(opt, code, t) && Grows(s, t) && RecordsAt(s, t, a, b)
            && (Skipped(opt, code[a..b]) || |t.spans| == |s.spans| + 1)
  {
    var name := code[a..b];
    GrowsReflexive(s);
    if !Skipped(opt, name) {
      var e := s.envs[s.cur];
      assert EnvOk(e, s.cur, |s.binds|);
      var top := e.blocks[|e.blocks| - 1];
      assert BidsBelow(top, |s.binds|);
      if name in top {
        MarkLocalGood(opt, code, s, name);
        var u := s.(locals := s.locals + {name});
        RecordBidGood(opt, code, u, a, b, top[name]);
        GrowsTransitive(s, u, RecordBid(u, a, b, top[name]));
      } else {
        MakeBindingGood(opt, code, s, name);
        var (m, bid) := MakeBinding(opt, s, name);
        BindLetGood(opt, code, m, name, bid);
        var u := BindLet(m, name, bid);
        RecordBidGood(opt, code, u, a, b, bid);
        GrowsTransitive(s, m, u);
        GrowsTransitive(s, u, RecordBid(u, a, b, bid));
      }
    }
  }

  lemma ReferenceGood(opt: Options, code: string, s: Scope, a: nat, b: nat)
    requires Good(opt, code, s) && a < b <= |code|
    ensures var t := ReferenceIdent(opt, code, s, a, b);
            Good(opt, code, t) && Grows(s, t) && RecordsAt(s, t, a, b)
            && (Exempt(opt, code, a, b) || |t.spans| == |s.spans| + 1)
            && t.envs == s.envs
  {
    var name := code[a..b];
    GrowsReflexive(s);
    if !Exempt(opt, code, a, b) {
      var bid := Lookup(s, name);
      LookupBelow(s, s.cur, name);
      if Eligible(opt, name) && name !in s.locals {
        assert OneSpelling(code, s, name);
        LookupRoot(code, s, s.cur, name);
      }
      if bid.Some? {
        RecordBidGood(opt, code, s, a, b, bid.value);
      } else if name in opt.externs {
        RecordOtherGood(opt, code, s, a, b, name);
      } else if opt.strict {
        RecordOtherGood(opt, code, s.(undefined := s.undefined + [name]), a, b, name);
      } else {
        ImplicitGood(opt, code, s, name);
        var (t, ig) := ImplicitGlobal(opt, s, name);
        RecordBidGood(opt, code, t, a, b, ig);
        GrowsTransitive(s, t, RecordBid(t, a, b, ig));
      }
    }
  }

  /** Recording a name outside the guarantee touches no eligible name. */
  lemma RecordOtherGood(opt: Options, code: string, s: Scope, a: nat, b: nat, mang: string)
    requires WellFormed(s) && HoistConsistent(opt, code, s) && a < b <= |code| && !Eligible(opt, code[a..b])
    ensures var t := Record(s, a, b, mang); Good(opt, code, t) && Grows(s, t)
  {
    var t := Record(s, a, b, mang);
    forall n | Eligible(opt, n) && n !in t.locals ensures OneSpelling(code, t, n) {
      assert OneSpelling(code, s, n);
      forall k | 0 <= k < |t.spans| ensures Spelled(code, t, n, t.spans[k]) {
        if k < |s.spans| {
          assert Spelled(code, s, n, s.spans[k]);
        }
      }
    }
    GrowsReflexive(s);
  }

  lemma ImplicitGood(opt: Options, code: string, s: Scope, name: string)
    requires Good(opt, code, s) && Lookup(s, name) == None
    ensures var (t, ig) := ImplicitGlobal(opt, s, name);
            Good(opt, code, t) && Grows(s, t) && ig < |t.binds| && t.spans == s.spans && t.envs == s.envs
            && t.locals == s.locals
            && (Eligible(opt, name) && name !in s.locals ==> RootBid(t, name) == Some(ig))
  {
    if Eligible(opt, name) && name !in s.locals {
      assert OneSpelling(code, s, name);
      LookupRoot(code, s, s.cur, name);
    }
    if name in s.implicits {
      GrowsReflexive(s);
    } else {
      MakeBindingGood(opt, code, s, name);
      var (m, ig) := MakeBinding(opt, s, name);
      var t := m.(implicits := m.implicits[name := ig]);
      forall n | Eligible(opt, n) && n !in t.locals ensures OneSpelling(code, t, n) {
        assert OneSpelling(code, m, n);
        SpelledStable(code, m, t, n);
      }
    }
  }

  // ----- scopes ---------------------------------------------------------------------------------

  lemma EnterBlockGood(opt: Options, code: string, s: Scope)
    requires Good(opt, code, s)
    ensures var t := EnterBlock(s); Good(opt, code, t) && t.spans == s.spans
  {
    var t := EnterBlock(s);
    var e := s.envs[s.cur];
    assert EnvOk(e, s.cur, |s.binds|);
    forall k | 0 <= k < |t.envs| ensures EnvOk(t.envs[k], k, |t.binds|) {
      assert EnvOk(s.envs[k], k, |s.binds|);
    }
    forall n | Eligible(opt, n) && n !in t.locals ensures OneSpelling(code, t, n) {
      assert OneSpelling(code, s, n);
      forall k | 0 <= k < |t.envs| ensures !InBlocks(t.envs[k], n) {
        assert !InBlocks(s.envs[k], n);
      }
      SpelledStable(code, s, t, n);
    }
  }

  /** A block leaves the enclosing block stack exactly as it was. */
  lemma ExitBlockGood(opt: Options, code: string, s: Scope, t: Scope)
    requires Good(opt, code, s) && Good(opt, code, t) && Grows(EnterBlock(s), t)
    ensures var u := ExitBlock(t);
            Good(opt, code, u) && Grows(s, u) && u.spans == t.spans && u.envs[s.cur].blocks == s.envs[s.cur].blocks
  {
    var u := ExitBlock(t);
    var d := s.envs[s.cur];
    var e := t.envs[s.cur];
    assert EnvOk(d, s.cur, |s.binds|);
    assert EnterBlock(s).envs[s.cur].blocks == d.blocks + [map[]];
    assert EnvGrows(EnterBlock(s).envs[s.cur], e);
    assert u.envs[s.cur].blocks == d.blocks;
    forall k | 0 <= k < |u.envs| ensures EnvOk(u.envs[k], k, |u.binds|) {
      assert EnvOk(t.envs[k], k, |t.binds|);
    }
    forall n | Eligible(opt, n) && n !in u.locals ensures OneSpelling(code, u, n) {
      assert OneSpelling(code, t, n);
      forall k | 0 <= k < |u.envs| ensures !InBlocks(u.envs[k], n) {
        assert !InBlocks(t.envs[k], n);
      }
      SpelledStable(code, t, u, n);
    }
  }

  lemma EnterFunctionGood(opt: Options, code: string, s: Scope)
    requires Good(opt, code, s)
    ensures var t := EnterFunction(s); Good(opt, code, t) && t.spans == s.spans
  {
    var t := EnterFunction(s);
    forall k | 0 <= k < |t.envs| ensures EnvOk(t.envs[k], k, |t.binds|) {
      if k < |s.envs| {
        assert EnvOk(s.envs[k], k, |s.binds|);
      }
    }
    forall n | Eligible(opt, n) && n !in t.locals ensures OneSpelling(code, t, n) {
      assert OneSpelling(code, s, n);
      forall k | 0 <= k < |t.envs| ensures !InBlocks(t.envs[k], n) {
        if k < |s.envs| {
          assert !InBlocks(s.envs[k], n);
        }
      }
      SpelledStable(code, s, t, n);
    }
  }

  /** A function body leaves every environment of the enclosing functions exactly as it was. */
  lemma LeaveFunctionGood(opt: Options, code: string, s: Scope, t: Scope)
    requires Good(opt, code, s) && Good(opt, code, t) && Grows(EnterFunction(s), t)
    ensures var u := LeaveFunction(t, s.cur);
            Good(opt, code, u) && Grows(s, u) && u.spans == t.spans && u.envs[..|s.envs|] == s.envs
  {
    var u := LeaveFunction(t, s.cur);
    var f := EnterFunction(s);
    forall e | 0 <= e < |s.envs| ensures t.envs[e] == s.envs[e] {
      assert f.envs[e] == s.envs[e];
    }
    forall k | 0 <= k < |u.envs| ensures EnvOk(u.envs[k], k, |u.binds|) {
      assert EnvOk(t.envs[k], k, |t.binds|);
    }
    forall n | Eligible(opt, n) && n !in u.locals ensures OneSpelling(code, u, n) {
      assert OneSpelling(code, t, n);
      SpelledStable(code, t, u, n);
    }
    assert EnvOk(s.envs[s.cur], s.cur, |s.binds|);
  }

  /** A reference declares nothing. */
  lemma ReferenceDeclaresNothing(opt: Options, code: string, s: Scope, a: nat, b: nat)
    requires a <= b <= |code|
    ensures ReferenceIdent(opt, code, s, a, b).locals == s.locals
  {
    hide Exempt, Lookup, Mangle;
  }
}
