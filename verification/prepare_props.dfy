/** What the `#prepare` list of dist/fly-typograf.js (v1.2.7) does to a text. */
module PrepareProperties {

  import opened Options
  import opened Chars
  import opened Matching
  import opened Rules
  import opened Replace

  /** The characters the prepare stage exists to remove: both no-break
      spaces and the three long dashes. */
  const Special: set<char> := {NBSP, NNBSP, MDASH, NDASH, MINUS}

  /** The prepare stage is its five rules one after another. */
  lemma PrepareSteps(s: string)
    ensures RunStage(PrepareRules, s).text
            == Apply(DashVariant, Apply(DoubleDash, Apply(NoBreakRun,
                 Apply(ThinBesideSpace, Apply(NbspBesideSpace, s).text).text).text).text).text
  {
    RunStagePrefix(PrepareRules, 1, s);
    RunStagePrefix(PrepareRules, 2, s);
    RunStagePrefix(PrepareRules, 3, s);
    RunStagePrefix(PrepareRules, 4, s);
    RunStagePrefix(PrepareRules, 5, s);
    assert PrepareRules[..5] == PrepareRules;
  }

  /** After the prepare stage no no-break space of either width and no em
      dash, en dash or minus sign is left: a run of no-break spaces becomes a
      space and every long dash becomes a hyphen, and no replacement of the
      later rules brings one back. */
  lemma PrepareLeavesNoSpecial(s: string)
    ensures forall c :: c in RunStage(PrepareRules, s).text ==> c !in Special
  {
    var t3 := Apply(NoBreakRun, Apply(ThinBesideSpace, Apply(NbspBesideSpace, s).text).text).text;
    NoBreakRunClears(Apply(ThinBesideSpace, Apply(NbspBesideSpace, s).text).text);
    DoubleDashKeepsClear(t3);
    DashVariantClears(Apply(DoubleDash, t3).text);
    PrepareSteps(s);
  }

  /** The run rule turns every no-break space of either width into a space. */
  lemma NoBreakRunClears(t: string)
    ensures forall c :: c in Apply(NoBreakRun, t).text ==> c != NBSP && c != NNBSP
  {
    ReplaceAvoids(Compile(NoBreakRun), t, 0, {NBSP, NNBSP});
  }

  /** The double-dash rule writes no no-break space. */
  lemma DoubleDashKeepsClear(t: string)
    requires forall c :: c in t ==> c != NBSP && c != NNBSP
    ensures forall c :: c in Apply(DoubleDash, t).text ==> c != NBSP && c != NNBSP
  {
    forall j | 0 <= j < |t| ensures t[j] !in {NBSP, NNBSP} {
      assert t[j] in t;
    }
    ReplaceAvoids(Compile(DoubleDash), t, 0, {NBSP, NNBSP});
  }

  /** The dash rule turns every long dash into a hyphen and writes nothing
      else, so a text without no-break spaces comes out without any
      character of Special. */
  lemma DashVariantClears(t: string)
    requires forall c :: c in t ==> c != NBSP && c != NNBSP
    ensures forall c :: c in Apply(DashVariant, t).text ==> c !in Special
  {
    forall j | 0 <= j < |t| ensures t[j] !in {NBSP, NNBSP} {
      assert t[j] in t;
    }
    ReplaceAvoids(Compile(DashVariant), t, 0, Special);
  }

  /** `--` as the prepare stage turns it into `-` costs one caret step, which
      is the one character it removes. */
  lemma DoubleDashCaret(s: string)
    ensures |Apply(DoubleDash, s).text| == |s| + Apply(DoubleDash, s).delta
    ensures Apply(DoubleDash, s).delta <= 0
  {
    DeltaNonPositive(Compile(DoubleDash), s, 0);
  }

  /** A regex whose callbacks never move the caret forward. */
  ghost predicate NeverForward(f: Matcher)
    requires Scans(f)
  {
    forall s: string, i: nat :: i < |s| && f(s, i).Some? ==> f(s, i).value.delta <= 0
  }

  lemma {:induction false} DeltaNonPositive(f: Matcher, s: string, i: nat)
    requires Scans(f) && i <= |s|
    requires NeverForward(f)
    ensures ReplaceFrom(f, s, i).delta <= 0
    decreases |s| - i
  {
    if i < |s| {
      match f(s, i)
      case Some(m) => DeltaNonPositive(f, s, i + m.len);
      case None => DeltaNonPositive(f, s, i + 1);
    }
  }

  /** A text without no-break spaces passes the three space rules unchanged. */
  lemma SpaceRulesIdentity(s: string)
    requires NBSP !in s && NNBSP !in s
    ensures Apply(NbspBesideSpace, s) == Rewritten(s, 0)
    ensures Apply(ThinBesideSpace, s) == Rewritten(s, 0)
    ensures Apply(NoBreakRun, s) == Rewritten(s, 0)
  {
    NoSpaceRuleMatches(s);
    ReplaceCopies(Compile(NbspBesideSpace), s, 0, |s|);
    ReplaceCopies(Compile(ThinBesideSpace), s, 0, |s|);
    ReplaceCopies(Compile(NoBreakRun), s, 0, |s|);
    assert s[0..|s|] + [] == s;
  }

  /** Without no-break spaces, none of the three space rules matches. */
  lemma NoSpaceRuleMatches(s: string)
    requires NBSP !in s && NNBSP !in s
    ensures forall j :: 0 <= j < |s| ==> Compile(NbspBesideSpace)(s, j).None?
    ensures forall j :: 0 <= j < |s| ==> Compile(ThinBesideSpace)(s, j).None?
    ensures forall j :: 0 <= j < |s| ==> Compile(NoBreakRun)(s, j).None?
  {
    forall j | 0 <= j < |s|
      ensures Compile(NbspBesideSpace)(s, j).None?
      ensures Compile(ThinBesideSpace)(s, j).None?
      ensures Compile(NoBreakRun)(s, j).None?
    {
      assert s[j] in s;
      if j + 1 < |s| { assert s[j + 1] in s; }
    }
  }

  lemma DoubleDashExample()
    ensures Apply(DoubleDash, "a—--b") == Rewritten("a—-b", -1)
  {
    var dd, s := Compile(DoubleDash), "a—--b";
    assert dd(s, 2) == Some(Match(2, "-", -1));
    assert dd(s, 0).None? && dd(s, 1).None? && dd(s, 3).None? && dd(s, 4).None?;
    OneMatch(dd, s, 2);
  }

  lemma DoubleDashAgain()
    ensures Apply(DoubleDash, "a--b") == Rewritten("a-b", -1)
  {
    var dd, t := Compile(DoubleDash), "a--b";
    assert dd(t, 1) == Some(Match(2, "-", -1));
    assert dd(t, 0).None? && dd(t, 2).None? && dd(t, 3).None?;
    OneMatch(dd, t, 1);
  }

  lemma DashVariantExample()
    ensures Apply(DashVariant, "a—-b") == Rewritten("a--b", 0)
  {
    var dv, s := Compile(DashVariant), "a—-b";
    assert dv(s, 1) == Some(Match(1, "-", 0));
    assert dv(s, 0).None? && dv(s, 2).None? && dv(s, 3).None?;
    OneMatch(dv, s, 1);
  }

  lemma DashVariantIdle()
    ensures Apply(DashVariant, "a-b") == Rewritten("a-b", 0)
  {
    var dv, t := Compile(DashVariant), "a-b";
    assert dv(t, 0).None? && dv(t, 1).None? && dv(t, 2).None?;
    ReplaceCopies(dv, t, 0, 3);
    assert ReplaceFrom(dv, t, 3) == Rewritten([], 0);
    assert t[0..3] + [] == t;
  }

  /** The stage is not idempotent: `a—--b` comes out as `a--b`, because the
      double-dash rule runs before the em dash becomes a hyphen, and a second
      pass turns that into `a-b`. */
  lemma PrepareNotIdempotent()
    ensures RunStage(PrepareRules, "a—--b").text == "a--b"
    ensures RunStage(PrepareRules, "a--b").text == "a-b"
  {
    var s, t := "a—--b", "a--b";
    SpaceRulesIdentity(s);
    PrepareSteps(s);
    DoubleDashExample();
    DashVariantExample();
    SpaceRulesIdentity(t);
    PrepareSteps(t);
    DoubleDashAgain();
    DashVariantIdle();
  }
}
