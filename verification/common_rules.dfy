/** The rules whose regular expression and replacement are the same in
    dist/fly-typograf.js (v1.2.7) and FlyTypograf.js (v1.0). Each matcher says
    what its regex matches when the search is anchored at position i of the
    string being rewritten (the original string: lookbehinds and lookaheads
    read it, not the partly rewritten one), with JavaScript's backtracking
    order resolved by hand. */
module CommonRules {

  import opened Options
  import opened Chars
  import opened GlyphTables
  import opened Matching

  /** `/\+\/-/g` -> `±`, caret -2. */
  function PlusMinus(s: string, i: nat): (r: Option<Match>)
    requires i < |s|
    ensures Fits(s, i, r)
    ensures r.Some? ==> CaretExact(r.value)
  {
    if i + 3 <= |s| && s[i..i + 3] == "+/-" then Some(Match(3, "±", -2)) else None
  }

  /** A parenthesised one-letter sign `(x)` under the `i` flag, x being a or b:
      consumed whole and replaced by glyph, caret -2. */
  function SignInParens(s: string, i: nat, a: char, b: char, glyph: char): (r: Option<Match>)
    requires i < |s|
    ensures Fits(s, i, r)
    ensures r.Some? ==> CaretExact(r.value)
  {
    if s[i] == '(' && i + 2 < |s| && (SameCI(s[i + 1], a) || SameCI(s[i + 1], b)) && s[i + 2] == ')'
    then Some(Match(3, [glyph], -2))
    else None
  }

  /** `/\([cс]\)/ig` (Latin or Cyrillic c) -> `©`, caret -2. */
  function Copyright(s: string, i: nat): (r: Option<Match>)
    requires i < |s|
    ensures Fits(s, i, r)
    ensures r.Some? ==> CaretExact(r.value)
  {
    SignInParens(s, i, 'c', 'с', '©')
  }

  /** `/\(r\)/ig` -> `®`, caret -2. */
  function Registered(s: string, i: nat): (r: Option<Match>)
    requires i < |s|
    ensures Fits(s, i, r)
    ensures r.Some? ==> CaretExact(r.value)
  {
    SignInParens(s, i, 'r', 'r', '®')
  }

  /** `/\(tm\)/ig` -> `™`, caret -3. */
  function Trademark(s: string, i: nat): (r: Option<Match>)
    requires i < |s|
    ensures Fits(s, i, r)
    ensures r.Some? ==> CaretExact(r.value)
  {
    if s[i] == '(' && i + 3 < |s| && SameCI(s[i + 1], 't') && SameCI(s[i + 2], 'm') && s[i + 3] == ')'
    then Some(Match(4, "™", -3))
    else None
  }

  /** `/\(р\)/ig` (Cyrillic er) -> `₽`, caret -2. */
  function Rouble(s: string, i: nat): (r: Option<Match>)
    requires i < |s|
    ensures Fits(s, i, r)
    ensures r.Some? ==> CaretExact(r.value)
  {
    SignInParens(s, i, 'р', 'р', '₽')
  }

  predicate IsDot(c: char) { c == '.' }

  /** `/…(\.+)/g` -> `...` followed by the dots, caret +2: an ellipsis followed
      by more dots goes back to plain dots. */
  function ExtraDots(s: string, i: nat): (r: Option<Match>)
    requires i < |s|
    ensures Fits(s, i, r)
    ensures r.Some? ==> CaretExact(r.value)
  {
    if s[i] != ELLIPSIS then None
    else
      var n := Run(s, i + 1, IsDot);
      if n == 0 then None else Some(Match(1 + n, "..." + s[i + 1..i + 1 + n], 2))
  }

  /** In p + [ELLIPSIS] + Dots(m) + q, with p and q free of dots, the regex
      matches only at the ellipsis, and there only when m dots follow it,
      taking all of them back to plain dots. */
  lemma ExtraDotsInText(p: string, m: nat, q: string, u: string)
    requires DotFree(p) && DotFree(q) && u == p + [ELLIPSIS] + Dots(m) + q
    ensures forall j :: 0 <= j < |u| && j != |p| ==> ExtraDots(u, j).None?
    ensures ExtraDots(u, |p|) == if m == 0 then None else Some(Match(1 + m, Dots(m + 3), 2))
  {
    EllipsisRunText(p, m, q, u);
    RunIs(u, |p| + 1, IsDot, m);
    assert u[|p| + 1..|p| + 1 + m] == Dots(m);
    assert "..." + Dots(m) == Dots(m + 3);
  }

  /** `/(\d)[xх](\d)/ig` (Latin or Cyrillic x) -> `$1×$2`. */
  function Size(s: string, i: nat): (r: Option<Match>)
    requires i < |s|
    ensures Fits(s, i, r)
    ensures r.Some? ==> CaretExact(r.value)
  {
    if IsDigit(s[i]) && i + 2 < |s| && (SameCI(s[i + 1], 'x') || SameCI(s[i + 1], 'х')) && IsDigit(s[i + 2])
    then Some(Match(3, [s[i], '×', s[i + 2]], 0))
    else None
  }

  /** `([<glyphs>])(\d)` -> the glyph's token (found by the reverse lookup)
      followed by the digit, caret +2: a fraction glyph must not absorb the
      digit after it. */
  function FractionBeforeDigit(t: Table, s: string, i: nat): (r: Option<Match>)
    requires i < |s|
    ensures Fits(s, i, r)
    ensures r.Some? ==> r.value.len == 2 && r.value.delta == 2 && 1 <= |r.value.repl|
    ensures r.Some? ==> r.value.repl[|r.value.repl| - 1] == s[i + 1] && (r.value.repl[..|r.value.repl| - 1], s[i]) in t
  {
    if s[i] in Glyphs(t) && DigitAt(s, i + 1) then
      match ReverseLookup(t, s[i])
      case Some(token) => Some(Match(2, token + [s[i + 1]], 2))
      case None => None
    else None
  }

  /** With distinct keys, the token a glyph turns back into looks up to that
      glyph, and the digit after it is kept. */
  lemma FractionBeforeDigitRestores(t: Table, s: string, i: nat)
    requires i < |s| && DistinctKeys(t)
    requires FractionBeforeDigit(t, s, i).Some?
    ensures var m := FractionBeforeDigit(t, s, i).value;
            var token := m.repl[..|m.repl| - 1];
            Lookup(t, token) == Some(s[i]) && m.repl == token + [s[i + 1]]
  {
    var m := FractionBeforeDigit(t, s, i).value;
    var token := m.repl[..|m.repl| - 1];
    LookupOfEntry(t, token, s[i]);
    assert m.repl == token + [s[i + 1]];
  }

  /** `"(«[a-zа-яё0-9…])` under `i` -> `«$1`: a straight quote before an
      opening quote glyph and a word becomes another opening glyph. */
  function OpenQuoteNested(q: QuoteStyle, s: string, i: nat): (r: Option<Match>)
    requires i < |s|
    ensures Fits(s, i, r)
    ensures r.Some? ==> CaretExact(r.value)
  {
    if s[i] == '"' && i + 2 < |s| && s[i + 1] == q.left
       && (IsLetterCI(s[i + 2]) || IsDigit(s[i + 2]) || s[i + 2] == ELLIPSIS)
    then Some(Match(3, [q.left, q.left, s[i + 2]], 0))
    else None
  }

  /** `([a-zа-яё0-9…?!]»)"` under `i` -> `$1»`. */
  function CloseQuoteNested(q: QuoteStyle, s: string, i: nat): (r: Option<Match>)
    requires i < |s|
    ensures Fits(s, i, r)
    ensures r.Some? ==> CaretExact(r.value)
  {
    if (IsLetterCI(s[i]) || IsDigit(s[i]) || s[i] in {ELLIPSIS, '?', '!'})
       && i + 2 < |s| && s[i + 1] == q.right && s[i + 2] == '"'
    then Some(Match(3, [s[i], q.right, q.right], 0))
    else None
  }

  /** `[-a-z0-9]` under `i`: the characters of an HTML attribute name. */
  predicate IsAttrNameChar(c: char) { c == '-' || IsAsciiLetter(c) || IsDigit(c) }

  /** `([-a-z0-9]+=)[«»]([^«»]*?)` under `i` -> `$1"$2`. The lazy group at the
      end always matches empty, so this turns the quote glyph after `name=`
      back into a straight quote. */
  function HtmlOpenQuote(q: QuoteStyle, s: string, i: nat): (r: Option<Match>)
    requires i < |s|
    ensures Fits(s, i, r)
    ensures r.Some? ==> CaretExact(r.value)
  {
    var n := Run(s, i, IsAttrNameChar);
    var j := i + n;
    if 0 < n && j + 1 < |s| && s[j] == '=' && (s[j + 1] == q.left || s[j + 1] == q.right)
    then Some(Match(n + 2, s[i..j + 1] + "\"", 0))
    else None
  }

  /** `([-a-z0-9]+=)["]([^>«»]*?)[«»]` under `i` -> `$1"$2"`: the first quote
      glyph after `name="` (with no `>` before it) becomes a straight quote. */
  function HtmlCloseQuote(q: QuoteStyle, s: string, i: nat): (r: Option<Match>)
    requires i < |s|
    ensures Fits(s, i, r)
    ensures r.Some? ==> CaretExact(r.value)
  {
    var n := Run(s, i, IsAttrNameChar);
    var j := i + n;
    if 0 < n && j + 1 < |s| && s[j] == '=' && s[j + 1] == '"' then
      var m := Run(s, j + 2, c => c != '>' && c != q.left && c != q.right);
      var e := j + 2 + m;
      if e < |s| && (s[e] == q.left || s[e] == q.right)
      then Some(Match(e + 1 - i, s[i..e] + "\"", 0))
      else None
    else None
  }

  /** The length of the suffix `([std]|ve|ll|clock)\b` (under `i`) at j,
      alternatives tried in order; 0 when none matches. */
  function AposSuffix(s: string, j: nat): (n: nat)
    ensures n == 0 || j + n <= |s|
  {
    if j < |s| && (SameCI(s[j], 's') || SameCI(s[j], 't') || SameCI(s[j], 'd')) && WordBoundary(s, j + 1) then 1
    else if j + 1 < |s| && SameCI(s[j], 'v') && SameCI(s[j + 1], 'e') && WordBoundary(s, j + 2) then 2
    else if j + 1 < |s| && SameCI(s[j], 'l') && SameCI(s[j + 1], 'l') && WordBoundary(s, j + 2) then 2
    else if j + 4 < |s| && SameCI(s[j], 'c') && SameCI(s[j + 1], 'l') && SameCI(s[j + 2], 'o')
            && SameCI(s[j + 3], 'c') && SameCI(s[j + 4], 'k') && WordBoundary(s, j + 5) then 5
    else 0
  }

  /** `/\b'([std]|ve|ll|clock)\b/ig` -> `’$1`: an English apostrophe. */
  function Apostrophe(s: string, i: nat): (r: Option<Match>)
    requires i < |s|
    ensures Fits(s, i, r)
    ensures r.Some? ==> CaretExact(r.value)
  {
    if s[i] == '\'' && WordBoundary(s, i) then
      var n := AposSuffix(s, i + 1);
      if n == 0 then None else Some(Match(1 + n, "’" + s[i + 1..i + 1 + n], 0))
    else None
  }

  predicate IsPrime(c: char) { c == '\'' || c == '′' }

  /** `([0-6]?[0-9])['′]([0-6]?[0-9])?(\d+)[»"]` -> `$1′$2$3″`: minutes and
      seconds. The digits after the prime always end up as the whole digit run
      before the closing mark, however the two groups split it. */
  function MinutesSeconds(q: QuoteStyle, s: string, i: nat): (r: Option<Match>)
    requires i < |s|
    ensures Fits(s, i, r)
    ensures r.Some? ==> CaretExact(r.value)
  {
    var p :=
      if '0' <= s[i] <= '6' && DigitAt(s, i + 1) && i + 2 < |s| && IsPrime(s[i + 2]) then i + 2
      else if IsDigit(s[i]) && i + 1 < |s| && IsPrime(s[i + 1]) then i + 1
      else i;
    if p == i then None
    else
      var n := Run(s, p + 1, IsDigit);
      var e := p + 1 + n;
      if 0 < n && e < |s| && (s[e] == q.right || s[e] == '"')
      then Some(Match(e + 1 - i, s[i..p] + "′" + s[p + 1..e] + "″", 0))
      else None
  }

  /** `((?:<prefix>)[a-zа-яё]{1,2}) ` under `i` -> `$1` + no-break space: a one-
      or two-letter word is glued to the next word. The prefix either consumes
      one of the characters in consumed, or is the zero-width `^` when
      lineStart holds at i; the two cannot both lead to a match, since the
      consumed characters are not letters. */
  function Preposition(s: string, i: nat, consumed: set<char>, lineStart: bool): (r: Option<Match>)
    requires i < |s|
    requires forall c :: c in consumed ==> !IsLetterCI(c)
    ensures Fits(s, i, r)
    ensures r.Some? ==> CaretExact(r.value)
  {
    var p := if s[i] in consumed then i + 1 else i;
    if p == i && !lineStart then None
    else if p + 2 < |s| && IsLetterCI(s[p]) && IsLetterCI(s[p + 1]) && s[p + 2] == ' '
    then Some(Match(p + 3 - i, s[i..p + 2] + [NBSP], 0))
    else if p + 1 < |s| && IsLetterCI(s[p]) && s[p + 1] == ' '
    then Some(Match(p + 2 - i, s[i..p + 1] + [NBSP], 0))
    else None
  }

  /** `/-(то|ка)\u00A0/gi` -> `-$1 `: the particles -то and -ка keep a plain space. */
  function ParticleDash(s: string, i: nat): (r: Option<Match>)
    requires i < |s|
    ensures Fits(s, i, r)
    ensures r.Some? ==> CaretExact(r.value)
  {
    if s[i] == '-' && i + 3 < |s|
       && ((SameCI(s[i + 1], 'т') && SameCI(s[i + 2], 'о')) || (SameCI(s[i + 1], 'к') && SameCI(s[i + 2], 'а')))
       && s[i + 3] == NBSP
    then Some(Match(4, s[i..i + 3] + " ", 0))
    else None
  }

  /** The length of `([.,!?:;])?\u00A0` at q: 2 with the punctuation, 1
      without, 0 when it does not match. */
  function ParticleTail(s: string, q: nat): (n: nat)
    ensures n <= 2 && (n == 0 || q + n <= |s|)
  {
    if q + 1 < |s| && s[q] in {'.', ',', '!', '?', ':', ';'} && s[q + 1] == NBSP then 2
    else if q < |s| && s[q] == NBSP then 1
    else 0
  }

  /** The lengths (word, tail) of `(же?|л[иь]|бы?|ка)([.,!?:;])?\u00A0` under
      `i` at j, alternatives and the optional letters tried in regex order;
      (0, 0) when it does not match. */
  function ParticleWord(s: string, j: nat): (wt: (nat, nat))
    ensures wt.0 == 0 <==> wt.1 == 0
    ensures wt.0 <= 2 && wt.1 <= 2
    ensures wt.0 > 0 ==> j + wt.0 + wt.1 <= |s|
  {
    if j >= |s| then (0, 0)
    else if SameCI(s[j], 'ж') || SameCI(s[j], 'б') then
      var second := if SameCI(s[j], 'ж') then 'е' else 'ы';
      if j + 1 < |s| && SameCI(s[j + 1], second) && ParticleTail(s, j + 2) > 0 then (2, ParticleTail(s, j + 2))
      else if ParticleTail(s, j + 1) > 0 then (1, ParticleTail(s, j + 1))
      else (0, 0)
    else if j + 1 < |s| && ((SameCI(s[j], 'л') && (SameCI(s[j + 1], 'и') || SameCI(s[j + 1], 'ь')))
                            || (SameCI(s[j], 'к') && SameCI(s[j + 1], 'а')))
            && ParticleTail(s, j + 2) > 0
    then (2, ParticleTail(s, j + 2))
    else (0, 0)
  }

  /** `/(?:\s|\t|[\u00A0 ])(же?|л[иь]|бы?|ка)([.,!?:;])?\u00A0/ig` ->
      `\u00A0$1$2 `: the no-break space moves from after a particle to before it. */
  function Particle(s: string, i: nat): (r: Option<Match>)
    requires i < |s|
    ensures Fits(s, i, r)
    ensures r.Some? ==> CaretExact(r.value)
  {
    if !IsSpace(s[i]) then None
    else
      var (w, t) := ParticleWord(s, i + 1);
      if w == 0 then None
      else Some(Match(1 + w + t, [NBSP] + s[i + 1..i + 1 + w] + (if t == 2 then [s[i + 1 + w]] else []) + " ", 0))
  }
}
