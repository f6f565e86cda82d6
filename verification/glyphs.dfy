/** The glyph tables: ASCII tokens and the presentation glyphs that replace
    them, kept in declaration order because the reverse lookups scan them in
    that order (`Object.entries(…).find` and `for … in`). */
module GlyphTables {

  import opened Options

  /** A table in declaration order: token -> glyph. */
  type Table = seq<(string, char)>

  /** `#decimal.literals` of dist/fly-typograf.js. */
  const Fractions: Table := [
    ("1/2", '½'), ("1/3", '⅓'), ("1/4", '¼'), ("1/5", '⅕'), ("1/6", '⅙'),
    ("1/7", '⅐'), ("1/8", '⅛'), ("1/9", '⅑'), ("1/10", '⅒'), ("2/3", '⅔'),
    ("2/5", '⅖'), ("3/4", '¾'), ("3/5", '⅗'), ("3/8", '⅜'), ("4/5", '⅘'),
    ("5/6", '⅚'), ("5/8", '⅝'), ("7/8", '⅞')
  ]

  /** `#decimals` of FlyTypograf.js (v1.0): no sevenths, ninths or tenths. */
  const LegacyFractions: Table := [
    ("1/2", '½'), ("1/3", '⅓'), ("1/4", '¼'), ("1/5", '⅕'), ("1/6", '⅙'),
    ("1/8", '⅛'), ("2/3", '⅔'), ("2/5", '⅖'), ("3/4", '¾'), ("3/5", '⅗'),
    ("3/8", '⅜'), ("4/5", '⅘'), ("5/6", '⅚'), ("5/8", '⅝'), ("7/8", '⅞')
  ]

  /** `#upIndex.literals` of dist/fly-typograf.js. The integer-like keys "0".."9"
      come first, so declaration order is also the order `for … in` visits. Both
      the Latin `o` and the Cyrillic `о` map to the degree sign. */
  const UpIndex: Table := [
    ("0", '⁰'), ("1", '¹'), ("2", '²'), ("3", '³'), ("4", '⁴'),
    ("5", '⁵'), ("6", '⁶'), ("7", '⁷'), ("8", '⁸'), ("9", '⁹'),
    ("—", '⁻'), ("+", '⁺'), ("=", '⁼'), ("(", '⁽'), (")", '⁾'),
    ("o", '°'), ("о", '°'), ("\"", '″')
  ]

  function Keys(t: Table): (ks: seq<string>)
    ensures |ks| == |t| && forall k :: 0 <= k < |t| ==> ks[k] == t[k].0
  {
    seq(|t|, k requires 0 <= k < |t| => t[k].0)
  }

  /** The `values()` helper: the glyphs joined in declaration order (used to
      build the character classes of the rules that recognise a glyph). */
  function Glyphs(t: Table): (gs: seq<char>)
    ensures |gs| == |t| && forall k :: 0 <= k < |t| ==> gs[k] == t[k].1
  {
    seq(|t|, k requires 0 <= k < |t| => t[k].1)
  }

  predicate DistinctGlyphs(t: Table)
  {
    forall i, j :: 0 <= i < j < |t| ==> t[i].1 != t[j].1
  }

  predicate DistinctKeys(t: Table)
  {
    forall i, j :: 0 <= i < j < |t| ==> t[i].0 != t[j].0
  }

  /** `literals[token]`: the glyph of the entry whose key is token. Every
      table here has distinct keys, so which of two equal keys would win
      does not arise. */
  function Lookup(t: Table, token: string): (r: Option<char>)
    ensures r.Some? <==> token in Keys(t)
    ensures r.Some? ==> (token, r.value) in t
  {
    LookupFrom(t, token, 0)
  }

  function LookupFrom(t: Table, token: string, i: nat): (r: Option<char>)
    requires i <= |t|
    ensures r.Some? <==> exists k :: i <= k < |t| && t[k].0 == token
    ensures r.Some? ==> exists k :: i <= k < |t| && t[k] == (token, r.value)
    decreases |t| - i
  {
    if i == |t| then None
    else if t[i].0 == token then Some(t[i].1)
    else LookupFrom(t, token, i + 1)
  }

  /** The reverse lookup: the key of the first entry, in declaration order,
      whose glyph is g. */
  function ReverseLookup(t: Table, g: char): (r: Option<string>)
    ensures r.Some? <==> g in Glyphs(t)
    ensures r.Some? ==> (r.value, g) in t
  {
    ReverseFrom(t, g, 0)
  }

  function ReverseFrom(t: Table, g: char, i: nat): (r: Option<string>)
    requires i <= |t|
    ensures r.Some? <==> exists k :: i <= k < |t| && t[k].1 == g
    ensures r.Some? ==> exists k :: i <= k < |t| && t[k] == (r.value, g)
    decreases |t| - i
  {
    if i == |t| then None
    else if t[i].1 == g then Some(t[i].0)
    else ReverseFrom(t, g, i + 1)
  }

  /** Looking up the key of entry k finds entry k when no earlier entry has that key. */
  lemma {:induction false} LookupAt(t: Table, k: nat, i: nat)
    requires i <= k < |t| && forall j :: i <= j < k ==> t[j].0 != t[k].0
    ensures LookupFrom(t, t[k].0, i) == Some(t[k].1)
    decreases k - i
  {
    if i < k { LookupAt(t, k, i + 1); }
  }

  /** The reverse lookup of the glyph of entry k finds entry k when no earlier
      entry has that glyph. */
  lemma {:induction false} ReverseAt(t: Table, k: nat, i: nat)
    requires i <= k < |t| && forall j :: i <= j < k ==> t[j].1 != t[k].1
    ensures ReverseFrom(t, t[k].1, i) == Some(t[k].0)
    decreases k - i
  {
    if i < k { ReverseAt(t, k, i + 1); }
  }

  /** With pairwise distinct glyphs, the reverse lookup of a token's glyph gives
      back that token. */
  lemma ReverseOfLookup(t: Table, token: string)
    requires DistinctGlyphs(t)
    requires token in Keys(t)
    ensures Lookup(t, token).Some?
    ensures ReverseLookup(t, Lookup(t, token).value) == Some(token)
  {
    var g := Lookup(t, token).value;
    var k :| 0 <= k < |t| && t[k] == (token, g);
    ReverseAt(t, k, 0);
  }

  /** With pairwise distinct keys, looking up the token found by the reverse
      lookup of a glyph gives back that glyph. */
  lemma LookupOfReverse(t: Table, g: char)
    requires DistinctKeys(t)
    requires g in Glyphs(t)
    ensures ReverseLookup(t, g).Some?
    ensures Lookup(t, ReverseLookup(t, g).value) == Some(g)
  {
    var token := ReverseLookup(t, g).value;
    var k :| 0 <= k < |t| && t[k] == (token, g);
    LookupAt(t, k, 0);
  }

  /** With pairwise distinct keys, the lookup of an entry's key gives that
      entry's glyph. */
  lemma LookupOfEntry(t: Table, token: string, g: char)
    requires DistinctKeys(t)
    requires (token, g) in t
    ensures Lookup(t, token) == Some(g)
  {
    var k :| 0 <= k < |t| && t[k] == (token, g);
    LookupAt(t, k, 0);
  }

  /** Distinctness by ranking: when consecutive entries have strictly
      increasing key ranks and distinct glyph ranks are given by index, no two
      entries share a glyph or a key. */
  lemma {:induction false} DistinctByRank(t: Table, glyphRank: char -> int, keyRank: string -> int)
    requires forall i :: 0 <= i < |t| ==> glyphRank(t[i].1) == i
    requires forall i :: 0 < i < |t| ==> keyRank(t[i - 1].0) < keyRank(t[i].0)
    ensures DistinctGlyphs(t) && DistinctKeys(t)
  {
    forall i, j | 0 <= i < j < |t| ensures t[i].1 != t[j].1 && t[i].0 != t[j].0 {
      assert glyphRank(t[i].1) != glyphRank(t[j].1);
      KeyRankIncreases(t, keyRank, i, j);
    }
  }

  lemma {:induction false} KeyRankIncreases(t: Table, keyRank: string -> int, i: nat, j: nat)
    requires forall k :: 0 < k < |t| ==> keyRank(t[k - 1].0) < keyRank(t[k].0)
    requires i < j < |t|
    ensures keyRank(t[i].0) < keyRank(t[j].0)
    decreases j - i
  {
    if i + 1 < j { KeyRankIncreases(t, keyRank, i + 1, j); }
  }

  function FractionGlyphRank(c: char): int
  {
    match c
    case '½' => 0 case '⅓' => 1 case '¼' => 2 case '⅕' => 3 case '⅙' => 4 case '⅐' => 5
    case '⅛' => 6 case '⅑' => 7 case '⅒' => 8 case '⅔' => 9 case '⅖' => 10 case '¾' => 11
    case '⅗' => 12 case '⅜' => 13 case '⅘' => 14 case '⅚' => 15 case '⅝' => 16 case '⅞' => 17
    case _ => -1
  }

  /** Orders fraction tokens by numerator, then denominator. */
  function FractionKeyRank(k: string): int
  {
    if |k| == 3 then (k[0] as int - '0' as int) * 100 + (k[2] as int - '0' as int)
    else if |k| == 4 then (k[0] as int - '0' as int) * 100 + 10
    else -1
  }

  /** The v1.0 table is the dist table without its sevenths, ninths and tenths. */
  function LegacyRank(rank: int): int
  {
    if rank < 5 then rank else if rank == 6 then 5 else if rank >= 9 then rank - 3 else -1
  }

  /** Numbers the v1.0 fraction glyphs by their entry. */
  function LegacyGlyphRank(c: char): int
  {
    LegacyRank(FractionGlyphRank(c))
  }

  lemma LegacyRanked()
    ensures forall i :: 0 <= i < |LegacyFractions| ==> LegacyGlyphRank(LegacyFractions[i].1) == i
    ensures forall i :: 0 < i < |LegacyFractions| ==> FractionKeyRank(LegacyFractions[i - 1].0) < FractionKeyRank(LegacyFractions[i].0)
  {
  }

  /** The eighteen fraction glyphs of dist/fly-typograf.js are pairwise
      distinct, and so are their keys. */
  lemma FractionTableInjective()
    ensures |Fractions| == 18
    ensures DistinctGlyphs(Fractions) && DistinctKeys(Fractions)
  {
    DistinctByRank(Fractions, FractionGlyphRank, FractionKeyRank);
  }

  /** The fifteen v1.0 fraction glyphs are pairwise distinct, and so are their keys. */
  lemma LegacyFractionTableInjective()
    ensures |LegacyFractions| == 15
    ensures DistinctGlyphs(LegacyFractions) && DistinctKeys(LegacyFractions)
  {
    LegacyRanked();
    DistinctByRank(LegacyFractions, LegacyGlyphRank, FractionKeyRank);
  }

  /** Every fraction glyph has exactly one token, the one that produced it:
      reverse lookup and lookup are inverse to each other on the table. */
  lemma FractionRoundTrip(token: string, g: char)
    ensures token in Keys(Fractions) ==> ReverseLookup(Fractions, Lookup(Fractions, token).value) == Some(token)
    ensures g in Glyphs(Fractions) ==> Lookup(Fractions, ReverseLookup(Fractions, g).value) == Some(g)
  {
    FractionTableInjective();
    if token in Keys(Fractions) { ReverseOfLookup(Fractions, token); }
    if g in Glyphs(Fractions) { LookupOfReverse(Fractions, g); }
  }

  /** The same inverse pair for the v1.0 table. */
  lemma LegacyFractionRoundTrip(token: string, g: char)
    ensures token in Keys(LegacyFractions) ==> ReverseLookup(LegacyFractions, Lookup(LegacyFractions, token).value) == Some(token)
    ensures g in Glyphs(LegacyFractions) ==> Lookup(LegacyFractions, ReverseLookup(LegacyFractions, g).value) == Some(g)
  {
    LegacyFractionTableInjective();
    if token in Keys(LegacyFractions) { ReverseOfLookup(LegacyFractions, token); }
    if g in Glyphs(LegacyFractions) { LookupOfReverse(LegacyFractions, g); }
  }

  /** Every v1.0 fraction key is three characters long; in dist/fly-typograf.js
      every key but "1/10" is. */
  lemma FractionKeyLengths()
    ensures forall k :: 0 <= k < |LegacyFractions| ==> |LegacyFractions[k].0| == 3
    ensures forall k :: 0 <= k < |Fractions| ==> |Fractions[k].0| == (if Fractions[k].0 == "1/10" then 4 else 3)
  {
  }

  /** Every key of the v1.0 fraction table is three characters long. */
  lemma LegacyKeyLength(token: string, g: char)
    requires (token, g) in LegacyFractions
    ensures |token| == 3
  {
    var k :| 0 <= k < |LegacyFractions| && LegacyFractions[k] == (token, g);
    FractionKeyLengths();
  }

  /** The one fraction glyph whose key is not three characters long is ⅒. */
  lemma OnlyTenthKeyIsLong(token: string, g: char)
    requires (token, g) in Fractions
    ensures |token| == 3 <==> g != '⅒'
  {
    var k :| 0 <= k < |Fractions| && Fractions[k] == (token, g);
    FractionKeyLengths();
  }

  function UpIndexKeyRank(k: string): int
  {
    if |k| != 1 then -1
    else match k[0]
      case '0' => 0 case '1' => 1 case '2' => 2 case '3' => 3 case '4' => 4
      case '5' => 5 case '6' => 6 case '7' => 7 case '8' => 8 case '9' => 9
      case '—' => 10 case '+' => 11 case '=' => 12 case '(' => 13 case ')' => 14
      case 'o' => 15 case 'о' => 16 case '"' => 17 case _ => -1
  }

  /** Numbers the superscript glyphs by their first entry; the degree sign is
      entry 15 (Latin `o`) and again entry 16 (Cyrillic `о`). */
  function UpIndexGlyphRank(c: char): int
  {
    match c
    case '⁰' => 0 case '¹' => 1 case '²' => 2 case '³' => 3 case '⁴' => 4
    case '⁵' => 5 case '⁶' => 6 case '⁷' => 7 case '⁸' => 8 case '⁹' => 9
    case '⁻' => 10 case '⁺' => 11 case '⁼' => 12 case '⁽' => 13 case '⁾' => 14
    case '°' => 15 case '″' => 17 case _ => -1
  }

  lemma UpIndexRanked()
    ensures forall i :: 0 <= i < |UpIndex| ==> UpIndexGlyphRank(UpIndex[i].1) == (if i == 16 then 15 else i)
    ensures forall i :: 0 <= i < |UpIndex| ==> UpIndexKeyRank(UpIndex[i].0) == i
  {
  }

  /** A character without a rank is not a key of the superscript table. */
  lemma NotUpIndexKey(c: char)
    requires UpIndexKeyRank([c]) == -1
    ensures Lookup(UpIndex, [c]).None?
  {
    UpIndexRanked();
    assert [c] !in Keys(UpIndex);
  }

  /** The superscript keys are pairwise distinct. */
  lemma UpIndexKeysDistinct()
    ensures DistinctKeys(UpIndex)
  {
    UpIndexRanked();
    forall i, j | 0 <= i < j < |UpIndex| ensures UpIndex[i].0 != UpIndex[j].0 {
      assert UpIndexKeyRank(UpIndex[i].0) != UpIndexKeyRank(UpIndex[j].0);
    }
  }

  /** Both `o` keys, Latin and Cyrillic, give the degree sign. */
  lemma UpIndexDegree(token: string)
    requires token == "o" || token == "о"
    ensures Lookup(UpIndex, token) == Some('°')
  {
    if token == "o" { LookupAt(UpIndex, 15, 0); } else { LookupAt(UpIndex, 16, 0); }
  }

  /** The reverse lookup of the degree sign returns the Latin `o`, which is
      declared before the Cyrillic one. */
  lemma DegreeReversesToLatin()
    ensures ReverseLookup(UpIndex, '°') == Some("o")
  {
    ReverseAt(UpIndex, 15, 0);
  }

  /** Every superscript glyph but the degree sign reverses to the token that
      produced it; the degree sign reverses to the Latin `o`. */
  lemma UpIndexRoundTrip(token: string)
    requires token in Keys(UpIndex)
    ensures ReverseLookup(UpIndex, Lookup(UpIndex, token).value) == Some(if token == "о" then "o" else token)
  {
    var k :| 0 <= k < |UpIndex| && Keys(UpIndex)[k] == token;
    UpIndexLookupAt(k);
    if k == 16 {
      DegreeReversesToLatin();
    } else {
      UpIndexKeysDistinct();
      assert UpIndex[16].0 == "о";
      UpIndexReverseAt(k);
    }
  }

  /** The key of any superscript entry looks up to that entry's glyph. */
  lemma UpIndexLookupAt(k: nat)
    requires k < |UpIndex|
    ensures Lookup(UpIndex, UpIndex[k].0) == Some(UpIndex[k].1)
  {
    UpIndexKeysDistinct();
    LookupAt(UpIndex, k, 0);
  }

  /** The glyph of any superscript entry but the Cyrillic `о` reverses to
      that entry's key. */
  lemma UpIndexReverseAt(k: nat)
    requires k < |UpIndex| && k != 16
    ensures ReverseLookup(UpIndex, UpIndex[k].1) == Some(UpIndex[k].0)
  {
    UpIndexRanked();
    forall j | 0 <= j < k ensures UpIndex[j].1 != UpIndex[k].1 {
      assert UpIndexGlyphRank(UpIndex[j].1) != UpIndexGlyphRank(UpIndex[k].1);
    }
    ReverseAt(UpIndex, k, 0);
  }
}
