/** The rules of FlyTypograf.js (v1.0) whose regular expression differs from
    every rule of dist/fly-typograf.js. As in CommonRules, each matcher says
    what its regex matches when anchored at position i of the original string.
    Every one of them moves the caret by exactly the change in length. */
module LegacyRules {

  import opened Options
  import opened Chars
  import opened GlyphTables
  import opened Matching

  /** `/ -(\d)/g` -> ` −$1`: a hyphen between a space and a digit is a minus. */
  function SpacedMinus(s: string, i: nat): (r: Option<Match>)
    requires i < |s|
    ensures Fits(s, i, r)
    ensures r.Some? ==> CaretExact(r.value)
  {
    if s[i] == ' ' && IsAt(s, i + 1, '-') && DigitAt(s, i + 2)
    then Some(Match(3, [' ', MINUS, s[i + 2]], 0))
    else None
  }

  /** `/(^|\n|\s|>)\-(\s)/g` -> `$1—$2`. Without the `m` flag `^` is the start
      of the text; it is tried first and, when it fails there, the alternatives
      that consume a character are tried at the same place. */
  function SpacedDash(s: string, i: nat): (r: Option<Match>)
    requires i < |s|
    ensures Fits(s, i, r)
    ensures r.Some? ==> CaretExact(r.value) && MDASH in r.value.repl
  {
    if i == 0 && s[0] == '-' && SpaceAt(s, 1) then Some(Match(2, [MDASH, s[1]], 0))
    else if (IsSpace(s[i]) || s[i] == '>') && IsAt(s, i + 1, '-') && SpaceAt(s, i + 2)
    then Some(Match(3, [s[i], MDASH, s[i + 2]], 0))
    else None
  }

  /** `/(?<![-!])-{2} /g` -> `— `, caret -1. */
  function DoubleHyphen(s: string, i: nat): (r: Option<Match>)
    requires i < |s|
    ensures Fits(s, i, r)
    ensures r.Some? ==> CaretExact(r.value) && r.value.delta == -1
  {
    if !InAt(s, i - 1, {'-', '!'}) && i + 3 <= |s| && s[i..i + 3] == "-- "
    then Some(Match(3, [MDASH, ' '], -1))
    else None
  }

  predicate IsNbsp(c: char) { c == NBSP }

  /** `/\u00a0{2,}|\u00a0 | \u00a0/g` -> one no-break space, caret moved back
      by the length of the match less one. */
  function NbspCollapse(s: string, i: nat): (r: Option<Match>)
    requires i < |s|
    ensures Fits(s, i, r)
    ensures r.Some? ==> CaretExact(r.value) && r.value.repl == [NBSP]
    ensures r.Some? ==> forall k :: i <= k < i + r.value.len ==> s[k] in {NBSP, ' '}
  {
    var n := Run(s, i, IsNbsp);
    if 2 <= n then Some(Match(n, [NBSP], -(n - 1)))
    else if i + 1 < |s| && ((s[i] == NBSP && s[i + 1] == ' ') || (s[i] == ' ' && s[i + 1] == NBSP))
    then Some(Match(2, [NBSP], -1))
    else None
  }

  /** `/(\d)\s?[-—]\s?(\d)/g` -> `$1–$2`, caret moved back by the characters
      removed. A space the optional `\s?` could give back is never wanted by
      what follows it, so each one takes a space whenever there is one. */
  function Interval(s: string, i: nat): (r: Option<Match>)
    requires i < |s|
    ensures Fits(s, i, r)
    ensures r.Some? ==> CaretExact(r.value) && 3 <= r.value.len <= 5
    ensures r.Some? ==> r.value.repl == [s[i], NDASH, s[i + r.value.len - 1]]
  {
    var j := if SpaceAt(s, i + 1) then i + 2 else i + 1;
    if IsDigit(s[i]) && (IsAt(s, j, '-') || IsAt(s, j, MDASH)) then
      var k := if SpaceAt(s, j + 1) then j + 2 else j + 1;
      if DigitAt(s, k) then Some(Match(k + 1 - i, [s[i], NDASH, s[k]], -(k + 1 - i - 3)))
      else None
    else None
  }

  /** `/(?<![.…])\.{3}/g` -> `…`, caret -2: unlike v1.2.7 there is no
      lookahead, so the first three dots of a longer run are taken too. */
  function LegacyThreeDots(s: string, i: nat): (r: Option<Match>)
    requires i < |s|
    ensures Fits(s, i, r)
    ensures r.Some? ==> CaretExact(r.value) && r.value == Match(3, [ELLIPSIS], -2)
  {
    if !InAt(s, i - 1, {'.', ELLIPSIS}) && i + 3 <= |s| && s[i..i + 3] == "..."
    then Some(Match(3, [ELLIPSIS], -2))
    else None
  }

  /** In p + Dots(n) + q, with p and q free of dots, the regex can match only
      where the run starts, and does there whenever the run has three dots or
      more. */
  lemma LegacyThreeDotsInText(p: string, n: nat, q: string, t: string)
    requires DotFree(p) && DotFree(q) && t == p + Dots(n) + q
    ensures forall j :: 0 <= j < |t| && j != |p| ==> LegacyThreeDots(t, j).None?
    ensures 3 <= n ==> LegacyThreeDots(t, |p|) == Some(Match(3, [ELLIPSIS], -2))
  {
    DotRunText(p, n, q, t);
    forall j | 0 <= j < |t| && j != |p| ensures LegacyThreeDots(t, j).None? {
      if |p| < j <= |p| + n {
        assert t[j - 1] == '.';
      } else if j + 3 <= |t| {
        assert t[j..j + 3][0] == t[j];
      }
    }
    if 3 <= n {
      assert t[|p|..|p| + 3] == "...";
    }
  }

  /** `/\b([123457]\/[234568])\b/g` -> the glyph with caret -2 when the token is
      a key of the v1.0 table, the token itself otherwise. */
  function LegacyFraction(s: string, i: nat): (r: Option<Match>)
    requires i < |s|
    ensures Fits(s, i, r)
    ensures r.Some? ==> r.value.len == 3 && CaretExact(r.value)
    ensures r.Some? && s[i..i + 3] in Keys(LegacyFractions) ==>
              r.value.repl == [Lookup(LegacyFractions, s[i..i + 3]).value] && r.value.delta == -2
    ensures r.Some? && s[i..i + 3] !in Keys(LegacyFractions) ==>
              r.value.repl == s[i..i + 3] && r.value.delta == 0
  {
    if WordBoundary(s, i) && s[i] in {'1', '2', '3', '4', '5', '7'} && IsAt(s, i + 1, '/')
       && InAt(s, i + 2, {'2', '3', '4', '5', '6', '8'}) && WordBoundary(s, i + 3)
    then
      match Lookup(LegacyFractions, s[i..i + 3])
      case Some(g) => Some(Match(3, [g], -2))
      case None => Some(Match(3, s[i..i + 3], 0))
    else None
  }

  /** `/["»]([a-z0-9а-яё…])/ig` -> the left quote and `$1`. */
  function LegacyOpenQuote(q: QuoteStyle, s: string, i: nat): (r: Option<Match>)
    requires i < |s|
    ensures Fits(s, i, r)
    ensures r.Some? ==> CaretExact(r.value) && r.value.len == 2 && r.value.repl == [q.left, s[i + 1]]
  {
    if (s[i] == '"' || s[i] == '»') && i + 1 < |s|
       && (IsLetterCI(s[i + 1]) || IsDigit(s[i + 1]) || s[i + 1] == ELLIPSIS)
    then Some(Match(2, [q.left, s[i + 1]], 0))
    else None
  }

  /** `/([a-z0-9а-яё…?!])["«]/ig` -> `$1` and the right quote. */
  function LegacyCloseQuote(q: QuoteStyle, s: string, i: nat): (r: Option<Match>)
    requires i < |s|
    ensures Fits(s, i, r)
    ensures r.Some? ==> CaretExact(r.value) && r.value.repl == [s[i], q.right]
  {
    if (IsLetterCI(s[i]) || IsDigit(s[i]) || s[i] in {ELLIPSIS, '?', '!'})
       && i + 1 < |s| && (s[i + 1] == '"' || s[i + 1] == '«')
    then Some(Match(2, [s[i], q.right], 0))
    else None
  }
}
