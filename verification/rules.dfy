/** One rule of a rule list (`{ pattern, replace }` in the source), and what
    it matches at a position. The rules of both versions live in one type; a
    rule whose regex is the same in both is one constructor. */
module Rules {

  import opened Options
  import opened Chars
  import opened GlyphTables
  import opened Matching
  import C = CommonRules
  import D = DistRules
  import L = LegacyRules

  datatype Rule =
    // the `#prepare` list of dist/fly-typograf.js
    | NbspBesideSpace | ThinBesideSpace | NoBreakRun | DoubleDash | DashVariant
    // members of the `#process` list of dist/fly-typograf.js only
    | MinusSign | Division | DashSign | NbspBeforeDash | DashSpacing | DashBeforeDigit
    | ThreeDots | Fraction | UpIndexSign | UpIndexDigit | UpIndexAfterSpace
    | OpenQuote(q: QuoteStyle) | CloseQuote(q: QuoteStyle) | Preposition
    // rules both versions have
    | PlusMinus | Copyright | Registered | Trademark | Rouble | ExtraDots | Size
    | FractionBeforeDigit(t: Table)
    | OpenQuoteNested(q: QuoteStyle) | CloseQuoteNested(q: QuoteStyle)
    | HtmlOpenQuote(q: QuoteStyle) | HtmlCloseQuote(q: QuoteStyle)
    | Apostrophe | MinutesSeconds(q: QuoteStyle) | ParticleDash | Particle
    // members of the `#rules` list of FlyTypograf.js (v1.0) only
    | SpacedMinus | SpacedDash | DoubleHyphen | NbspCollapse | Interval
    | LegacyThreeDots | LegacyFraction
    | LegacyOpenQuote(q: QuoteStyle) | LegacyCloseQuote(q: QuoteStyle) | LegacyPreposition

  /** The rules whose every match moves the caret by exactly the change in
      length it makes. The others: a thin no-break space beside a space and a
      run of no-break spaces shrink without moving the caret; the dash rule
      moves it one too far back when no space follows the dash; "1/10" and
      the superscript of a non-key do not agree with their caret shift. */
  predicate KeepsCaret(r: Rule)
  {
    match r
    case ThinBesideSpace => false
    case NoBreakRun => false
    case DashSpacing => false
    case Fraction => false
    case UpIndexDigit => false
    case FractionBeforeDigit(t) => forall k :: 0 <= k < |t| ==> |t[k].0| == 3
    case _ => true
  }

  /** The rules only dist/fly-typograf.js has. */
  predicate InDistOnly(r: Rule)
  {
    r.NbspBesideSpace? || r.ThinBesideSpace? || r.NoBreakRun? || r.DoubleDash? || r.DashVariant?
    || r.MinusSign? || r.Division? || r.DashSign? || r.NbspBeforeDash? || r.DashSpacing?
    || r.DashBeforeDigit? || r.ThreeDots? || r.Fraction? || r.UpIndexSign? || r.UpIndexDigit?
    || r.UpIndexAfterSpace? || r.OpenQuote? || r.CloseQuote? || r.Preposition?
  }

  /** The rules only FlyTypograf.js (v1.0) has. */
  predicate InLegacyOnly(r: Rule)
  {
    r.SpacedMinus? || r.SpacedDash? || r.DoubleHyphen? || r.NbspCollapse? || r.Interval?
    || r.LegacyThreeDots? || r.LegacyFraction? || r.LegacyOpenQuote? || r.LegacyCloseQuote?
    || r.LegacyPreposition?
  }

  /** The match of r's regex anchored at position i of s. */
  function MatchAt(r: Rule, s: string, i: nat): (m: Option<Match>)
    requires i < |s|
    ensures Fits(s, i, m)
    ensures KeepsCaret(r) && m.Some? ==> CaretExact(m.value)
  {
    if InDistOnly(r) then MatchDistOnly(r, s, i)
    else if InLegacyOnly(r) then MatchLegacyOnly(r, s, i)
    else MatchCommon(r, s, i)
  }

  /** The match of a rule of dist/fly-typograf.js only; None for the others. */
  function MatchDistOnly(r: Rule, s: string, i: nat): (m: Option<Match>)
    requires i < |s|
    ensures Fits(s, i, m)
    ensures KeepsCaret(r) && m.Some? ==> CaretExact(m.value)
  {
    match r
    case NbspBesideSpace => D.NbspBesideSpace(s, i)
    case ThinBesideSpace => D.ThinBesideSpace(s, i)
    case NoBreakRun => D.NoBreakRun(s, i)
    case DoubleDash => D.DoubleDash(s, i)
    case DashVariant => D.DashVariant(s, i)
    case MinusSign => D.MinusSign(s, i)
    case Division => D.Division(s, i)
    case DashSign => D.DashSign(s, i)
    case NbspBeforeDash => D.NbspBeforeDash(s, i)
    case DashSpacing => D.DashSpacing(s, i)
    case DashBeforeDigit => D.DashBeforeDigit(s, i)
    case ThreeDots => D.ThreeDots(s, i)
    case Fraction => D.Fraction(s, i)
    case UpIndexSign => D.UpIndexSign(s, i)
    case UpIndexDigit => D.UpIndexDigit(s, i)
    case UpIndexAfterSpace => D.UpIndexAfterSpace(s, i)
    case OpenQuote(q) => D.OpenQuote(q, s, i)
    case CloseQuote(q) => D.CloseQuote(q, s, i)
    // `/((?:[ \u00A0]|>|^|\t)[a-zа-яё]{1,2}) /igm`: `^` after any line terminator
    case Preposition => C.Preposition(s, i, {' ', NBSP, '>', '\t'}, i == 0 || IsLineTerminator(s[i - 1]))
    case _ => None
  }

  /** The match of a rule both versions have; None for the others. */
  function MatchCommon(r: Rule, s: string, i: nat): (m: Option<Match>)
    requires i < |s|
    ensures Fits(s, i, m)
    ensures KeepsCaret(r) && m.Some? ==> CaretExact(m.value)
  {
    match r
    case PlusMinus => C.PlusMinus(s, i)
    case Copyright => C.Copyright(s, i)
    case Registered => C.Registered(s, i)
    case Trademark => C.Trademark(s, i)
    case Rouble => C.Rouble(s, i)
    case ExtraDots => C.ExtraDots(s, i)
    case Size => C.Size(s, i)
    case FractionBeforeDigit(t) => C.FractionBeforeDigit(t, s, i)
    case OpenQuoteNested(q) => C.OpenQuoteNested(q, s, i)
    case CloseQuoteNested(q) => C.CloseQuoteNested(q, s, i)
    case HtmlOpenQuote(q) => C.HtmlOpenQuote(q, s, i)
    case HtmlCloseQuote(q) => C.HtmlCloseQuote(q, s, i)
    case Apostrophe => C.Apostrophe(s, i)
    case MinutesSeconds(q) => C.MinutesSeconds(q, s, i)
    case ParticleDash => C.ParticleDash(s, i)
    case Particle => C.Particle(s, i)
    case _ => None
  }

  /** The match of a rule of FlyTypograf.js (v1.0) only; None for the others. */
  function MatchLegacyOnly(r: Rule, s: string, i: nat): (m: Option<Match>)
    requires i < |s|
    ensures Fits(s, i, m)
    ensures KeepsCaret(r) && m.Some? ==> CaretExact(m.value)
  {
    match r
    case SpacedMinus => L.SpacedMinus(s, i)
    case SpacedDash => L.SpacedDash(s, i)
    case DoubleHyphen => L.DoubleHyphen(s, i)
    case NbspCollapse => L.NbspCollapse(s, i)
    case Interval => L.Interval(s, i)
    case LegacyThreeDots => L.LegacyThreeDots(s, i)
    case LegacyFraction => L.LegacyFraction(s, i)
    case LegacyOpenQuote(q) => L.LegacyOpenQuote(q, s, i)
    case LegacyCloseQuote(q) => L.LegacyCloseQuote(q, s, i)
    // `/((?:^|\n|\t|[\u00A0 ]|>)[a-zа-яё]{1,2}) /ig`: `^` only at the start
    case LegacyPreposition => C.Preposition(s, i, {'\n', '\t', NBSP, ' ', '>'}, i == 0)
    case _ => None
  }

  /** The regex of r, as the replace call sees it. */
  function Compile(r: Rule): (f: Matcher)
    ensures Scans(f)
    ensures KeepsCaret(r) ==> ScansExact(f)
  {
    (s: string, i: nat) requires i < |s| => MatchAt(r, s, i)
  }

  /** `#prepare` of dist/fly-typograf.js, in order. */
  const PrepareRules: seq<Rule> := [NbspBesideSpace, ThinBesideSpace, NoBreakRun, DoubleDash, DashVariant]

  /** `#process` of dist/fly-typograf.js, in order. The quote rules are built
      from the quote fields as their initialisers leave them, before the
      constructor runs. */
  const ProcessRules: seq<Rule> := [
    MinusSign, PlusMinus, Division, DashSign, NbspBeforeDash, DashSpacing,
    DashBeforeDigit, Copyright, Registered, Trademark, Rouble, ThreeDots,
    ExtraDots, Size, Fraction, FractionBeforeDigit(Fractions), UpIndexSign,
    UpIndexDigit, UpIndexAfterSpace, OpenQuote(DefaultQuotes), CloseQuote(DefaultQuotes),
    OpenQuoteNested(DefaultQuotes), CloseQuoteNested(DefaultQuotes),
    HtmlOpenQuote(DefaultQuotes), HtmlCloseQuote(DefaultQuotes), Apostrophe,
    MinutesSeconds(DefaultQuotes), Preposition, ParticleDash, Particle
  ]

  /** `#rules` of FlyTypograf.js (v1.0), in order. */
  const LegacyRuleList: seq<Rule> := [
    SpacedMinus, SpacedDash, DoubleHyphen, NbspCollapse, Interval, Copyright,
    Registered, Trademark, Rouble, LegacyThreeDots, ExtraDots, Size, PlusMinus,
    LegacyFraction, FractionBeforeDigit(LegacyFractions),
    LegacyOpenQuote(DefaultQuotes), LegacyCloseQuote(DefaultQuotes),
    OpenQuoteNested(DefaultQuotes), CloseQuoteNested(DefaultQuotes),
    HtmlOpenQuote(DefaultQuotes), HtmlCloseQuote(DefaultQuotes), Apostrophe,
    MinutesSeconds(DefaultQuotes), LegacyPreposition, ParticleDash, Particle
  ]

  /** `#prepare` in source order: the three space rules, then `--` before the
      long dashes become hyphens. The thin-space and run rules are the two
      that do not keep the caret. */
  lemma PrepareRulesInOrder()
    ensures |PrepareRules| == 5 && PrepareRules[3] == DoubleDash && PrepareRules[4] == DashVariant
    ensures forall k :: 0 <= k < |PrepareRules| ==>
              (KeepsCaret(PrepareRules[k]) <==> k != 1 && k != 2)
  {
  }

  /** `#process` in source order: the extra-dot rule runs right after the
      three-dot rule, and the four rules that do not keep the caret are the
      dash spacing, the fraction, the glyph-before-digit and the
      superscript-before-character rules. */
  lemma ProcessRulesInOrder()
    ensures |ProcessRules| == 30 && ProcessRules[11] == ThreeDots && ProcessRules[12] == ExtraDots
    ensures forall k :: 0 <= k < |ProcessRules| ==>
              (KeepsCaret(ProcessRules[k]) <==> k != 5 && k != 14 && k != 15 && k != 17)
  {
    forall k | 0 <= k < |ProcessRules|
      ensures KeepsCaret(ProcessRules[k]) <==> k != 5 && k != 14 && k != 15 && k != 17
    {
      if k == 15 {
        TenthBreaksCaret();
      } else if k < 8 {
      } else if k < 15 {
      } else if k < 23 {
      } else {
      }
    }
  }

  /** The glyph-before-digit rule of v1.2.7 does not keep the caret: the key
      of ⅒ is four characters long. */
  lemma TenthBreaksCaret()
    ensures !KeepsCaret(FractionBeforeDigit(Fractions))
  {
    assert |Fractions[8].0| == 4;
  }

  /** `#rules` of v1.0 in source order: the extra-dot rule runs right after
      the three-dot rule, and neither the v1.2.7 three-dot rule with its
      lookahead nor the v1.2.7 fraction rule is in the list. */
  lemma LegacyRulesInOrder()
    ensures |LegacyRuleList| == 26 && LegacyRuleList[9] == LegacyThreeDots && LegacyRuleList[10] == ExtraDots
    ensures ThreeDots !in LegacyRuleList && Fraction !in LegacyRuleList
  {
    forall k | 0 <= k < |LegacyRuleList|
      ensures LegacyRuleList[k] != ThreeDots && LegacyRuleList[k] != Fraction
    {
    }
  }
}
