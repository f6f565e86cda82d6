/** What rules of the `#rules` list of FlyTypograf.js (v1.0) do to a text. */
module LegacyProperties {

  import opened Options
  import opened Chars
  import opened GlyphTables
  import opened Matching
  import opened Rules
  import opened Replace
  import C = CommonRules
  import L = LegacyRules

  /** With no lookahead, the three-dot rule takes the first three dots of
      any run of three or more in a text (caret -2); the dots after them
      stay, since each follows a dot. For a run of exactly three, the
      ellipsis is all that is left of it. */
  lemma LegacyThreeDotsBecomeEllipsis(p: string, n: nat, q: string)
    requires DotFree(p) && DotFree(q) && 3 <= n
    ensures Apply(LegacyThreeDots, p + Dots(n) + q) == Rewritten(p + [ELLIPSIS] + Dots(n - 3) + q, -2)
  {
    var t, f := p + Dots(n) + q, Compile(LegacyThreeDots);
    L.LegacyThreeDotsInText(p, n, q, t);
    assert f(t, |p|) == Some(Match(3, [ELLIPSIS], -2));
    OneMatch(f, t, |p|);
    assert t[..|p|] == p && t[|p| + 3..] == Dots(n - 3) + q;
  }

  /** The extra-dot rule turns an ellipsis followed by m dots anywhere in a
      text back into m + 3 plain dots, caret +2. */
  lemma EllipsisWithDotsReverts(p: string, m: nat, q: string)
    requires DotFree(p) && DotFree(q) && 1 <= m
    ensures Apply(ExtraDots, p + [ELLIPSIS] + Dots(m) + q) == Rewritten(p + Dots(m + 3) + q, 2)
  {
    var u, f := p + [ELLIPSIS] + Dots(m) + q, Compile(ExtraDots);
    C.ExtraDotsInText(p, m, q, u);
    assert f(u, |p|) == Some(Match(1 + m, Dots(m + 3), 2));
    OneMatch(f, u, |p|);
    assert u[..|p|] == p && u[|p| + 1 + m..] == q;
  }

  /** A run of four or more dots anywhere in a text comes through the two dot
      rules unchanged, with a net caret shift of zero: -2 for the ellipsis,
      +2 for undoing it. */
  lemma LongDotRunsRoundTrip(p: string, n: nat, q: string)
    requires DotFree(p) && DotFree(q) && 4 <= n
    ensures var w := Apply(LegacyThreeDots, p + Dots(n) + q);
            var x := Apply(ExtraDots, w.text);
            x.text == p + Dots(n) + q && w.delta + x.delta == 0
  {
    LegacyThreeDotsBecomeEllipsis(p, n, q);
    EllipsisWithDotsReverts(p, n - 3, q);
  }

  /** v1.0 on "wait....": the first rule leaves "wait…." (caret -2) and the
      second gives "wait...." back (caret +2). */
  lemma LegacyWaitExample()
    ensures Apply(LegacyThreeDots, "wait....") == Rewritten("wait….", -2)
    ensures Apply(ExtraDots, "wait….") == Rewritten("wait....", 2)
  {
    assert DotFree("wait") && DotFree("");
    LegacyThreeDotsBecomeEllipsis("wait", 4, "");
    assert "wait" + Dots(4) + "" == "wait....";
    assert "wait" + [ELLIPSIS] + Dots(1) + "" == "wait….";
    EllipsisWithDotsReverts("wait", 1, "");
  }

  /** A v1.0 fraction glyph followed by a digit is turned back into the token
      that produced it, and the caret shift of +2 is the change in length. */
  lemma LegacyFractionGlyphRestored(s: string, i: nat)
    requires i < |s|
    requires C.FractionBeforeDigit(LegacyFractions, s, i).Some?
    ensures var m := C.FractionBeforeDigit(LegacyFractions, s, i).value;
            var token := m.repl[..|m.repl| - 1];
            Lookup(LegacyFractions, token) == Some(s[i]) && m.repl == token + [s[i + 1]]
            && |token| == 3 && CaretExact(m)
  {
    var m := C.FractionBeforeDigit(LegacyFractions, s, i).value;
    LegacyFractionTableInjective();
    C.FractionBeforeDigitRestores(LegacyFractions, s, i);
    LegacyKeyLength(m.repl[..|m.repl| - 1], s[i]);
  }

  /** A v1.0 fraction token that is a key becomes its glyph (caret -2), and the
      glyph followed by a digit becomes the token again (caret +2). */
  lemma LegacyFractionRoundTripInText(s: string, i: nat, d: char)
    requires i < |s| && L.LegacyFraction(s, i).Some? && s[i..i + 3] in Keys(LegacyFractions)
    requires IsDigit(d)
    ensures var g := L.LegacyFraction(s, i).value.repl;
            |g| == 1 && C.FractionBeforeDigit(LegacyFractions, g + [d], 0) == Some(Match(2, s[i..i + 3] + [d], 2))
  {
    var token := s[i..i + 3];
    var g := L.LegacyFraction(s, i).value.repl;
    LegacyFractionRoundTrip(token, g[0]);
    var t := g + [d];
    assert t[0] == g[0] && t[1] == d;
    assert Lookup(LegacyFractions, token) == Some(g[0]);
    assert g[0] in Glyphs(LegacyFractions);
  }
}
