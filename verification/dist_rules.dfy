/** The rules of dist/fly-typograf.js (v1.2.7) that FlyTypograf.js does not
    share: the `#prepare` list and the v1.2.7 members of the `#process` list.
    As in CommonRules, each matcher says what its regex matches when anchored
    at position i of the original string. */
module DistRules {

  import opened Options
  import opened Chars
  import opened GlyphTables
  import opened Matching

  predicate IsNoBreakSpace(c: char) { c == NBSP || c == NNBSP }

  /** `/\u00A0 | \u00A0/g` -> two spaces: a no-break space beside a space becomes a space. */
  function NbspBesideSpace(s: string, i: nat): (r: Option<Match>)
    requires i < |s|
    ensures Fits(s, i, r)
    ensures r.Some? ==> CaretExact(r.value)
  {
    if i + 1 < |s| && ((s[i] == NBSP && s[i + 1] == ' ') || (s[i] == ' ' && s[i + 1] == NBSP))
    then Some(Match(2, "  ", 0))
    else None
  }

  /** `/\u202F | \u202F/g` -> one space (the pair shrinks by one; the caret is
      not moved). */
  function ThinBesideSpace(s: string, i: nat): (r: Option<Match>)
    requires i < |s|
    ensures Fits(s, i, r)
    ensures r.Some? ==> |r.value.repl| == r.value.len - 1 && r.value.delta == 0
  {
    if i + 1 < |s| && ((s[i] == NNBSP && s[i + 1] == ' ') || (s[i] == ' ' && s[i + 1] == NNBSP))
    then Some(Match(2, " ", 0))
    else None
  }

  /** `/[\u00A0\u202F]+/g` -> one space: a run of no-break spaces of either width
      collapses to one plain space (the caret is not moved). */
  function NoBreakRun(s: string, i: nat): (r: Option<Match>)
    requires i < |s|
    ensures Fits(s, i, r)
    ensures r.Some? ==> r.value.repl == " " && r.value.delta == 0
    ensures r.Some? <==> IsNoBreakSpace(s[i])
    ensures r.Some? ==> forall k :: i <= k < i + r.value.len ==> IsNoBreakSpace(s[k])
    ensures r.Some? && i + r.value.len < |s| ==> !IsNoBreakSpace(s[i + r.value.len])
  {
    var n := Run(s, i, IsNoBreakSpace);
    if n == 0 then None else Some(Match(n, " ", 0))
  }

  /** `/(?<![!-])--(?![->])/g` -> `-`, caret -1. */
  function DoubleDash(s: string, i: nat): (r: Option<Match>)
    requires i < |s|
    ensures Fits(s, i, r)
    ensures r.Some? ==> CaretExact(r.value)
  {
    if !InAt(s, i - 1, {'!', '-'}) && s[i] == '-' && IsAt(s, i + 1, '-') && !InAt(s, i + 2, {'-', '>'})
    then Some(Match(2, "-", -1))
    else None
  }

  /** `/([—–−])/g` -> `-`: em dash, en dash and minus sign become a hyphen. */
  function DashVariant(s: string, i: nat): (r: Option<Match>)
    requires i < |s|
    ensures Fits(s, i, r)
    ensures r.Some? ==> CaretExact(r.value)
  {
    if s[i] in {MDASH, NDASH, MINUS} then Some(Match(1, "-", 0)) else None
  }

  /** `(?<= |^|\d|[<fractions>])-(?=\d|[<fractions>])` -> `−` (no `m` flag, so
      `^` is the start of the text). */
  function MinusSign(s: string, i: nat): (r: Option<Match>)
    requires i < |s|
    ensures Fits(s, i, r)
    ensures r.Some? ==> CaretExact(r.value)
  {
    if s[i] == '-'
       && (i == 0 || s[i - 1] == ' ' || IsDigit(s[i - 1]) || s[i - 1] in Glyphs(Fractions))
       && i + 1 < |s| && (IsDigit(s[i + 1]) || s[i + 1] in Glyphs(Fractions))
    then Some(Match(1, [MINUS], 0))
    else None
  }

  /** `/(?<=(?:\d|[a-z])\s*)-:-/gi` -> `÷`, caret -2. The lookbehind skips the
      white space before the match and wants a digit or a Latin letter there. */
  function Division(s: string, i: nat): (r: Option<Match>)
    requires i < |s|
    ensures Fits(s, i, r)
    ensures r.Some? ==> CaretExact(r.value)
  {
    var k := i - RunBack(s, i, IsSpace);
    if i + 3 <= |s| && s[i..i + 3] == "-:-" && 0 < k && (IsDigit(s[k - 1]) || IsAsciiLetter(s[k - 1]))
    then Some(Match(3, "÷", -2))
    else None
  }

  /** `/(?<= |^|>|[^-!а-яёa-z0-9])-(?= |$|[^-])/gi` -> `—`: a hyphen that is not
      glued to a word, a digit, `!` or another hyphen on the left and is not
      followed by a hyphen becomes an em dash. */
  function DashSign(s: string, i: nat): (r: Option<Match>)
    requires i < |s|
    ensures Fits(s, i, r)
    ensures r.Some? ==> CaretExact(r.value)
  {
    if s[i] == '-'
       && (i == 0 || !(s[i - 1] in {'-', '!'} || IsLetterCI(s[i - 1]) || IsDigit(s[i - 1])))
       && (i + 1 == |s| || s[i + 1] != '-')
    then Some(Match(1, [MDASH], 0))
    else None
  }

  /** `/(?<!^|["»:;.!?…, ]) —(?!-)/gm` -> no-break space + `—`: the space before
      an em dash becomes a no-break space unless it follows punctuation, a
      space or a line start. */
  function NbspBeforeDash(s: string, i: nat): (r: Option<Match>)
    requires i < |s|
    ensures Fits(s, i, r)
    ensures r.Some? ==> CaretExact(r.value)
  {
    if s[i] == ' ' && IsAt(s, i + 1, MDASH) && !IsAt(s, i + 2, '-')
       && !(i == 0 || IsLineTerminator(s[i - 1]) || s[i - 1] in {'"', '»', ':', ';', '.', '!', '?', ELLIPSIS, ',', ' '})
    then Some(Match(2, [NBSP, MDASH], 0))
    else None
  }

  predicate IsPlainSpace(c: char) { c == ' ' }

  /** `/([ ]+)—([ ]*?)(["«a-zа-яё0-9])/gmi` -> ` —` + no-break space + `$3`, with
      the caret moved back by (spaces before - 1) + (spaces after - 1, or 0 when
      there are none). The lazy group still takes every space, since the class
      after it has none. */
  function DashSpacing(s: string, i: nat): (r: Option<Match>)
    requires i < |s|
    ensures Fits(s, i, r)
    ensures r.Some? ==> 3 <= r.value.len && r.value.repl == [' ', MDASH, NBSP, s[i + r.value.len - 1]]
    ensures r.Some? ==> (CaretExact(r.value) <==> s[i + r.value.len - 2] == ' ')
  {
    var before := Run(s, i, IsPlainSpace);
    var j := i + before;
    if before == 0 || !IsAt(s, j, MDASH) then None
    else
      var after := Run(s, j + 1, IsPlainSpace);
      var e := j + 1 + after;
      if e < |s| && (s[e] in {'"', '«'} || IsLetterCI(s[e]) || IsDigit(s[e]))
      then Some(Match(before + 1 + after + 1, [' ', MDASH, NBSP, s[e]],
                      -((before - 1) + (if after > 0 then after - 1 else 0))))
      else None
  }

  /** `/—(?=\d)/g` -> `−`: an em dash right before a digit is a minus sign. */
  function DashBeforeDigit(s: string, i: nat): (r: Option<Match>)
    requires i < |s|
    ensures Fits(s, i, r)
    ensures r.Some? ==> CaretExact(r.value)
  {
    if s[i] == MDASH && DigitAt(s, i + 1) then Some(Match(1, [MINUS], 0)) else None
  }

  /** `/(?<![.…])\.{3}(?!\.)/g` -> `…`, caret -2: exactly three dots. */
  function ThreeDots(s: string, i: nat): (r: Option<Match>)
    requires i < |s|
    ensures Fits(s, i, r)
    ensures r.Some? ==> CaretExact(r.value)
  {
    if !InAt(s, i - 1, {'.', ELLIPSIS}) && i + 3 <= |s| && s[i..i + 3] == "..." && !IsAt(s, i + 3, '.')
    then Some(Match(3, [ELLIPSIS], -2))
    else None
  }

  /** In p + Dots(n) + q, with p and q free of dots, the regex can match only
      where the run starts, and there only when the run is exactly three dots
      long. */
  lemma ThreeDotsInText(p: string, n: nat, q: string, t: string)
    requires DotFree(p) && DotFree(q) && t == p + Dots(n) + q
    ensures forall j :: 0 <= j < |t| && j != |p| ==> ThreeDots(t, j).None?
    ensures |p| < |t| ==> ThreeDots(t, |p|) == if n == 3 then Some(Match(3, [ELLIPSIS], -2)) else None
  {
    DotRunText(p, n, q, t);
    forall j | 0 <= j < |t| && j != |p| ensures ThreeDots(t, j).None? {
      if |p| < j <= |p| + n {
        assert t[j - 1] == '.';
      } else if j + 3 <= |t| {
        assert t[j..j + 3][0] == t[j];
      }
    }
    if |p| < |t| {
      var k := |p|;
      if n == 3 {
        assert t[k..k + 3] == "...";
      } else if 4 <= n {
        assert t[k + 3] == '.';
      } else if k + 3 <= |t| {
        assert t[k..k + 3][n] == t[k + n];
      }
    }
  }

  /** The length of the token `[123457]\/(?:[2-9]|10)\b` at i (alternatives in
      order), 0 when there is none. */
  function FractionToken(s: string, i: nat): (n: nat)
    ensures n == 0 || n == 3 || n == 4
    ensures n > 0 ==> i + n <= |s|
  {
    if !(InAt(s, i, {'1', '2', '3', '4', '5', '7'}) && IsAt(s, i + 1, '/')) then 0
    else if i + 2 < |s| && '2' <= s[i + 2] <= '9' && WordBoundary(s, i + 3) then 3
    else if i + 3 < |s| && s[i + 2] == '1' && s[i + 3] == '0' && WordBoundary(s, i + 4) then 4
    else 0
  }

  /** `/\b([123457]\/(?:[2-9]|10))\b/g` -> the glyph of the token with caret -2
      when the token is a key of the fraction table, the token itself (caret
      unchanged) when it is not. */
  function Fraction(s: string, i: nat): (r: Option<Match>)
    requires i < |s|
    ensures Fits(s, i, r)
    ensures r.Some? ==> r.value.len in {3, 4}
    ensures r.Some? && s[i..i + r.value.len] in Keys(Fractions) ==>
              r.value.repl == [Lookup(Fractions, s[i..i + r.value.len]).value] && r.value.delta == -2
    ensures r.Some? && s[i..i + r.value.len] !in Keys(Fractions) ==>
              r.value.repl == s[i..i + r.value.len] && r.value.delta == 0
  {
    var n := FractionToken(s, i);
    if n == 0 || !WordBoundary(s, i) then None
    else
      match Lookup(Fractions, s[i..i + n])
      case Some(g) => Some(Match(n, [g], -2))
      case None => Some(Match(n, s[i..i + n], 0))
  }

  /** `[0-9—+-=()]`: the range `+-=` runs from `+` to `=` and so also holds
      `,` `-` `.` `/` `:` `;` `<`. */
  predicate InUpIndexClass(c: char) { ('+' <= c <= '=') || c == MDASH || c == '(' || c == ')' }

  /** The superscript of c when c is a key of the table. */
  function UpIndexOf(c: char): Option<char>
  {
    Lookup(UpIndex, [c])
  }

  /** `/(\S)\^([0-9—+-=()]|[oо"])/gi` -> `$1` + the superscript of `$2`, or `$2`
      itself when the table has no such key, caret -1. */
  function UpIndexSign(s: string, i: nat): (r: Option<Match>)
    requires i < |s|
    ensures Fits(s, i, r)
    ensures r.Some? ==> CaretExact(r.value)
  {
    if !IsSpace(s[i]) && IsAt(s, i + 1, '^') && i + 2 < |s|
       && (InUpIndexClass(s[i + 2]) || s[i + 2] in {'o', 'O', 'о', 'О', '"'})
    then
      var up := match UpIndexOf(s[i + 2]) case Some(g) => g case None => s[i + 2];
      Some(Match(3, [s[i], up], -1))
    else None
  }

  /** `([<superscripts>])(?![ .])([0-9+-=()])` -> `$1` + `literals[$2]`. For a
      character of the class that is not a key (`,` `-` `/` `:` `;` `<`) the
      lookup is `undefined`, and the template literal writes that word. */
  function UpIndexDigit(s: string, i: nat): (r: Option<Match>)
    requires i < |s|
    ensures Fits(s, i, r)
    ensures r.Some? ==> r.value.len == 2 && r.value.delta == 0 && 2 <= |r.value.repl| && r.value.repl[0] == s[i]
    ensures r.Some? ==> (CaretExact(r.value) <==> UpIndexOf(s[i + 1]).Some?)
  {
    if s[i] in Glyphs(UpIndex) && i + 1 < |s| && s[i + 1] != ' ' && s[i + 1] != '.'
       && (('+' <= s[i + 1] <= '=') || s[i + 1] == '(' || s[i + 1] == ')')
    then
      var up := match UpIndexOf(s[i + 1]) case Some(g) => [g] case None => "undefined";
      Some(Match(2, [s[i]] + up, 0))
    else None
  }

  /** ` ([<superscripts>])` -> space + the first key, in `for … in` order, whose
      superscript is `$1`. */
  function UpIndexAfterSpace(s: string, i: nat): (r: Option<Match>)
    requires i < |s|
    ensures Fits(s, i, r)
    ensures r.Some? ==> CaretExact(r.value)
  {
    if s[i] == ' ' && i + 1 < |s| && s[i + 1] in Glyphs(UpIndex) then
      match ReverseLookup(UpIndex, s[i + 1])
      case Some(key) => Some(Match(2, " " + key, 0))
      case None => None
    else None
  }

  /** `/["»](?=\S)/g` -> the left quote: a quote mark before a non-space opens. */
  function OpenQuote(q: QuoteStyle, s: string, i: nat): (r: Option<Match>)
    requires i < |s|
    ensures Fits(s, i, r)
    ensures r.Some? ==> CaretExact(r.value)
  {
    if (s[i] == '"' || s[i] == '»') && i + 1 < |s| && !IsSpace(s[i + 1])
    then Some(Match(1, [q.left], 0))
    else None
  }

  /** `/(?<=\S)["«]/g` -> the right quote: a quote mark after a non-space closes. */
  function CloseQuote(q: QuoteStyle, s: string, i: nat): (r: Option<Match>)
    requires i < |s|
    ensures Fits(s, i, r)
    ensures r.Some? ==> CaretExact(r.value)
  {
    if (s[i] == '"' || s[i] == '«') && 0 < i && !IsSpace(s[i - 1])
    then Some(Match(1, [q.right], 0))
    else None
  }
}
