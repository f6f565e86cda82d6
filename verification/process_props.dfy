/** What rules of the `#process` list of dist/fly-typograf.js (v1.2.7) do,
    and where their caret shift and the change in length part ways. */
module ProcessProperties {

  import opened Options
  import opened Chars
  import opened GlyphTables
  import opened Matching
  import opened Rules
  import opened Replace
  import D = DistRules
  import C = CommonRules

  /** A run of exactly three dots anywhere in a text becomes an ellipsis,
      caret -2; the text around it may hold anything but dots and ellipses. */
  lemma ThreeDotsBecomeEllipsis(p: string, q: string)
    requires DotFree(p) && DotFree(q)
    ensures Apply(ThreeDots, p + Dots(3) + q) == Rewritten(p + [ELLIPSIS] + q, -2)
  {
    var t, f := p + Dots(3) + q, Compile(ThreeDots);
    D.ThreeDotsInText(p, 3, q, t);
    assert f(t, |p|) == Some(Match(3, [ELLIPSIS], -2));
    OneMatch(f, t, |p|);
    assert t[..|p|] == p && t[|p| + 3..] == q;
  }

  /** The extra-dot rule leaves alone an ellipsis that no dot follows, such
      as the one the three-dot rule has just written. */
  lemma LoneEllipsisStays(p: string, q: string)
    requires DotFree(p) && DotFree(q)
    ensures Apply(ExtraDots, p + [ELLIPSIS] + q) == Rewritten(p + [ELLIPSIS] + q, 0)
  {
    var u, f := p + [ELLIPSIS] + q, Compile(ExtraDots);
    assert u == p + [ELLIPSIS] + Dots(0) + q;
    C.ExtraDotsInText(p, 0, q, u);
    assert forall j :: 0 <= j < |u| ==> f(u, j).None?;
    ReplaceIdentity(f, u, 0);
    assert u[0..] == u;
  }

  /** A run of four or more dots anywhere in a text (`wait....`) is left
      alone by both dot rules: the lookahead keeps the three-dot rule off
      it, so there is no ellipsis for the extra-dot rule to undo. */
  lemma LongDotRunsStay(p: string, n: nat, q: string)
    requires DotFree(p) && DotFree(q) && 4 <= n
    ensures Apply(ThreeDots, p + Dots(n) + q) == Rewritten(p + Dots(n) + q, 0)
    ensures Apply(ExtraDots, p + Dots(n) + q) == Rewritten(p + Dots(n) + q, 0)
  {
    var t, f, g := p + Dots(n) + q, Compile(ThreeDots), Compile(ExtraDots);
    assert forall j :: 0 <= j < |t| ==> f(t, j).None? by {
      D.ThreeDotsInText(p, n, q, t);
    }
    assert forall j :: 0 <= j < |t| ==> g(t, j).None? by {
      DotRunText(p, n, q, t);
    }
    ReplaceIdentity(f, t, 0);
    ReplaceIdentity(g, t, 0);
    assert t[0..] == t;
  }

  /** "wait...." keeps its four dots; "wait..." ends in an ellipsis. */
  lemma WaitExamples()
    ensures Apply(ThreeDots, "wait....") == Rewritten("wait....", 0)
    ensures Apply(ThreeDots, "wait...") == Rewritten("wait…", -2)
  {
    assert DotFree("wait") && DotFree("");
    LongDotRunsStay("wait", 4, "");
    assert "wait" + Dots(4) + "" == "wait....";
    ThreeDotsBecomeEllipsis("wait", "");
    assert "wait" + Dots(3) + "" == "wait...";
    assert "wait" + [ELLIPSIS] + "" == "wait…";
  }

  /** The sign rules of both versions, whatever the case of the letter: each
      caret shift is the change in length. */
  lemma SymbolShifts()
    ensures C.Copyright("(C)", 0) == Some(Match(3, "©", -2))
    ensures C.Copyright("(с)", 0) == Some(Match(3, "©", -2))
    ensures C.Registered("(R)", 0) == Some(Match(3, "®", -2))
    ensures C.Trademark("(Tm)", 0) == Some(Match(4, "™", -3))
    ensures C.Rouble("(Р)", 0) == Some(Match(3, "₽", -2))
    ensures C.PlusMinus("+/-", 0) == Some(Match(3, "±", -2))
  {
    assert "+/-"[0..3] == "+/-";
  }

  /** A thin no-break space beside a space is dropped with no caret shift. */
  lemma ThinSpaceDrift()
    ensures D.ThinBesideSpace([NNBSP, ' '], 0) == Some(Match(2, " ", 0))
  {
  }

  /** A run of no-break spaces shrinks to one space with no caret shift. */
  lemma NoBreakRunDrift()
    ensures D.NoBreakRun([NBSP, NBSP, NNBSP], 0) == Some(Match(3, " ", 0))
  {
    assert Run([NBSP, NBSP, NNBSP], 3, D.IsNoBreakSpace) == 0;
    assert Run([NBSP, NBSP, NNBSP], 0, D.IsNoBreakSpace) == 3;
  }

  /** A dash with no space after it gains a no-break space while the caret
      stays where it was. */
  lemma DashSpacingDrift()
    ensures D.DashSpacing([' ', MDASH, 'a'], 0) == Some(Match(3, [' ', MDASH, NBSP, 'a'], 0))
  {
    assert Run([' ', MDASH, 'a'], 0, D.IsPlainSpace) == 1;
    assert Run([' ', MDASH, 'a'], 2, D.IsPlainSpace) == 0;
  }

  /** The token "1/10" loses three characters for a caret shift of -2. */
  lemma TenthDrift()
    ensures D.Fraction("1/10", 0) == Some(Match(4, "⅒", -2))
  {
    LookupAt(Fractions, 8, 0);
    assert "1/10"[0..4] == Fractions[8].0;
  }

  /** A superscript before `-`, a character of the class with no superscript,
      gains the eight letters of "undefined" and no caret shift. */
  lemma UndefinedSuperscript()
    ensures D.UpIndexDigit("²-", 0) == Some(Match(2, "²undefined", 0))
  {
    var s := "²-";
    assert Glyphs(UpIndex)[2] == s[0];
    NotUpIndexKey(s[1]);
    assert D.UpIndexOf(s[1]).None?;
    assert [s[0]] + "undefined" == "²undefined";
  }

  /** A token of the fraction pattern that is not a key, such as "2/7", is
      written back as it was, with no caret shift. */
  lemma NonKeyFractionStays()
    ensures D.Fraction("2/7", 0) == Some(Match(3, "2/7", 0))
  {
    assert "2/7"[0..3] == "2/7";
    assert "2/7" !in Keys(Fractions);
  }

  /** A fraction glyph followed by a digit is turned back into the token that
      produced it, so it does not absorb the digit; the caret shift of +2
      matches the change in length for every glyph but ⅒. */
  lemma FractionGlyphRestored(s: string, i: nat)
    requires i < |s|
    requires C.FractionBeforeDigit(Fractions, s, i).Some?
    ensures var m := C.FractionBeforeDigit(Fractions, s, i).value;
            var token := m.repl[..|m.repl| - 1];
            Lookup(Fractions, token) == Some(s[i]) && m.repl == token + [s[i + 1]]
            && (CaretExact(m) <==> s[i] != '⅒')
  {
    var m := C.FractionBeforeDigit(Fractions, s, i).value;
    FractionTableInjective();
    C.FractionBeforeDigitRestores(Fractions, s, i);
    OnlyTenthKeyIsLong(m.repl[..|m.repl| - 1], s[i]);
  }

  /** A superscript after a space goes back to the character it stands for,
      the first key the table gives it; the degree sign goes back to the
      Latin `o`. */
  lemma SuperscriptAfterSpaceRestored(s: string, i: nat)
    requires i < |s|
    requires D.UpIndexAfterSpace(s, i).Some?
    ensures var m := D.UpIndexAfterSpace(s, i).value;
            m.repl[0] == ' ' && Lookup(UpIndex, m.repl[1..]) == Some(s[i + 1])
            && (s[i + 1] == '°' ==> m.repl == " o")
  {
    var m := D.UpIndexAfterSpace(s, i).value;
    UpIndexKeysDistinct();
    assert m.repl == " " + m.repl[1..];
    LookupOfEntry(UpIndex, m.repl[1..], s[i + 1]);
    if s[i + 1] == '°' {
      DegreeReversesToLatin();
    }
  }
}
