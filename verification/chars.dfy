/** Character classes of the JavaScript regular expressions the typograf uses
    (non-Unicode mode, as in `/…/g`, `/…/gi` and `/…/gm`), and the scanning
    helpers every rule matcher is built from. Strings are sequences of
    characters; every character the rules mention is in the Basic Multilingual
    Plane, so one `char` stands for one UTF-16 code unit of the source. */
module Chars {

  const NBSP: char := '\U{00A0}'   // no-break space
  const NNBSP: char := '\U{202F}'  // narrow (thin) no-break space
  const MDASH: char := '—'
  const NDASH: char := '–'
  const MINUS: char := '−'
  const ELLIPSIS: char := '…'

  /** `\d` */
  predicate IsDigit(c: char) { '0' <= c <= '9' }

  predicate IsAsciiLetter(c: char) { 'a' <= c <= 'z' || 'A' <= c <= 'Z' }

  /** `\w`: the word characters `\b` looks at (case folding does not change them). */
  predicate IsWordChar(c: char) { IsAsciiLetter(c) || IsDigit(c) || c == '_' }

  /** `\s`: white space and line terminators as ECMAScript defines them. */
  predicate IsSpace(c: char)
  {
    c == '\t' || c == '\n' || c == '\U{000B}' || c == '\U{000C}' || c == '\r' || c == ' '
    || c == NBSP || c == '\U{1680}' || ('\U{2000}' <= c <= '\U{200A}')
    || c == '\U{2028}' || c == '\U{2029}' || c == NNBSP || c == '\U{205F}'
    || c == '\U{3000}' || c == '\U{FEFF}'
  }

  /** The characters after which `^` matches in a multiline (`m`) regex. */
  predicate IsLineTerminator(c: char)
  {
    c == '\n' || c == '\r' || c == '\U{2028}' || c == '\U{2029}'
  }

  /** Basic Russian alphabet, both cases: `А`..`я` plus `Ё`/`ё`. */
  predicate IsCyrillicLetter(c: char)
  {
    ('\U{0410}' <= c <= '\U{044F}') || c == 'ё' || c == 'Ё'
  }

  /** `[a-zа-яё]` under the `i` flag. */
  predicate IsLetterCI(c: char) { IsAsciiLetter(c) || IsCyrillicLetter(c) }

  /** The canonical (upper-case) form the `i` flag compares, for the letters
      the rules name. */
  function Upper(c: char): (u: char)
    ensures IsLetterCI(c) ==> IsLetterCI(u)
  {
    if 'a' <= c <= 'z' then (c as int - 32) as char
    else if '\U{0430}' <= c <= '\U{044F}' then (c as int - 32) as char
    else if c == 'ё' then 'Ё'
    else c
  }

  /** The `i`-flag comparison of a subject character with a pattern letter. */
  predicate SameCI(c: char, letter: char) { Upper(c) == Upper(letter) }

  /** `\b` at position i of s: exactly one of the characters around i is a word character. */
  predicate WordBoundary(s: string, i: int)
  {
    (0 < i <= |s| && IsWordChar(s[i - 1])) != (0 <= i < |s| && IsWordChar(s[i]))
  }

  /** `c` occurs at position i of s (false outside the string). */
  predicate IsAt(s: string, i: int, c: char) { 0 <= i < |s| && s[i] == c }

  /** The character at position i of s lies in cs (false outside the string). */
  predicate InAt(s: string, i: int, cs: set<char>) { 0 <= i < |s| && s[i] in cs }

  /** Length of the longest run of characters satisfying p that starts at i
      (a greedy `[…]*` from i). */
  function Run(s: string, i: nat, p: char -> bool): (n: nat)
    requires i <= |s|
    ensures i + n <= |s|
    ensures forall k :: i <= k < i + n ==> p(s[k])
    ensures i + n < |s| ==> !p(s[i + n])
    decreases |s| - i
  {
    if i < |s| && p(s[i]) then 1 + Run(s, i + 1, p) else 0
  }

  /** A run that holds for n characters from i and stops there has length n. */
  lemma {:induction false} RunIs(s: string, i: nat, p: char -> bool, n: nat)
    requires i + n <= |s|
    requires forall k :: i <= k < i + n ==> p(s[k])
    requires i + n < |s| ==> !p(s[i + n])
    ensures Run(s, i, p) == n
    decreases n
  {
    if 0 < n {
      RunIs(s, i + 1, p, n - 1);
    }
  }

  /** Length of the longest run of characters satisfying p that ends just
      before i (what a lookbehind `(?<=…\s*)` skips). */
  function RunBack(s: string, i: nat, p: char -> bool): (n: nat)
    requires i <= |s|
    ensures n <= i
    ensures forall k :: i - n <= k < i ==> p(s[k])
    ensures n < i ==> !p(s[i - n - 1])
  {
    if 0 < i && p(s[i - 1]) then 1 + RunBack(s, i - 1, p) else 0
  }

  /** A digit at position i of s (false outside the string). */
  predicate DigitAt(s: string, i: int) { 0 <= i < |s| && IsDigit(s[i]) }

  /** `\s` at position i of s (false outside the string). */
  predicate SpaceAt(s: string, i: int) { 0 <= i < |s| && IsSpace(s[i]) }

  /** A run of n dots. */
  function Dots(n: nat): (d: string)
    ensures |d| == n && forall k :: 0 <= k < n ==> d[k] == '.'
  {
    seq(n, _ => '.')
  }

  /** s holds neither a dot nor an ellipsis. */
  predicate DotFree(s: string)
  {
    forall k :: 0 <= k < |s| ==> s[k] != '.' && s[k] != ELLIPSIS
  }

  /** In p + Dots(n) + q, with p and q free of dots, the dots are exactly the
      run and there is no ellipsis. */
  lemma DotRunText(p: string, n: nat, q: string, t: string)
    requires DotFree(p) && DotFree(q) && t == p + Dots(n) + q
    ensures |t| == |p| + n + |q|
    ensures forall j :: 0 <= j < |t| ==> (t[j] == '.' <==> |p| <= j < |p| + n) && t[j] != ELLIPSIS
  {
    forall j | 0 <= j < |t|
      ensures (t[j] == '.' <==> |p| <= j < |p| + n) && t[j] != ELLIPSIS
    {
      if j < |p| {
        assert t[j] == p[j];
      } else if j < |p| + n {
        assert t[j] == Dots(n)[j - |p|];
      } else {
        assert t[j] == q[j - |p| - n];
      }
    }
  }

  /** In p + [ELLIPSIS] + Dots(m) + q, with p and q free of dots, the one
      ellipsis is at |p| and the dots are exactly the m after it. */
  lemma EllipsisRunText(p: string, m: nat, q: string, u: string)
    requires DotFree(p) && DotFree(q) && u == p + [ELLIPSIS] + Dots(m) + q
    ensures |u| == |p| + 1 + m + |q| && u[|p|] == ELLIPSIS
    ensures forall j :: 0 <= j < |u| && j != |p| ==> u[j] != ELLIPSIS
    ensures forall j :: 0 <= j < |u| ==> (u[j] == '.' <==> |p| < j <= |p| + m)
  {
    forall j | 0 <= j < |u|
      ensures (j != |p| ==> u[j] != ELLIPSIS) && (u[j] == '.' <==> |p| < j <= |p| + m)
    {
      if j < |p| {
        assert u[j] == p[j];
      } else if j == |p| {
      } else if j <= |p| + m {
        assert u[j] == Dots(m)[j - |p| - 1];
      } else {
        assert u[j] == q[j - |p| - 1 - m];
      }
    }
  }
}
