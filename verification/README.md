# fly-typograf, modelled in Dafny

fly-typograf fixes typography while the user types in a text field. It turns
hyphens into dashes and minus signs, `...` into `…`, `(c)` into `©`, `1/2` into
`½` and `x^2` into `x²`. It places quotes and no-break spaces. It also keeps the
caret near the text it was on. Each rule is a JavaScript regular expression
with a `replace` callback. Callbacks that change the length of the text also
shift a caret counter, and after the rules have run the counter is written
back as the caret.

The project models two versions of the class `FlyTypograf`:

- **v1.2.7** (`dist/fly-typograf.js`) runs two rule lists. `#prepare` reduces
  no-break spaces and long dashes to plain characters. `#process` then applies
  the typography. When `isMoveCaret` is set, the caret is read again before
  each list.
- **v1.0** (`FlyTypograf.js`) runs one list, `#rules`, with the caret read once.

## How the model is built

- **Rules as matchers.** Every regular expression is written out by hand as a
  matcher. A matcher answers what the regex matches when anchored at position
  `i` of the string: how many characters it consumes, the replacement, and
  the caret shift its callback adds. JavaScript's backtracking order is
  resolved rule by rule.
- **Matcher contracts.** Every matcher ensures that its match fits the string.
  It also states how the caret shift relates to the change in length: `CaretExact` where they agree, and the exact
  mismatch where they do not.
- **Global replace.** `Replace.ReplaceFrom` scans left to right. Where the
  regex matches, it emits the replacement and resumes after the match.
  Elsewhere it copies the character. Lookbehinds and lookaheads read the
  string the call started with.
- **Rule lists.** `Replace.RunStage` applies a list of rules one after
  another.
- **Classes.** Both classes are Dafny classes with the fields the source
  mutates. Their `forEach` over the rule list is a loop, proved against
  `RunStage`.
- **Quote rules.** The quote rules take the quote pair as a parameter. Both
  rule lists are built with `«»`, because the field initialisers that build
  them run before the v1.2.7 constructor stores the quote preference.

## Model

| member | source | states |
|---|---|---|
| GlyphTables.Lookup | dist/fly-typograf.js:210-212 | `literals[token]`: defined exactly when token is a key, and then the glyph of an entry with that key |
| GlyphTables.ReverseLookup | dist/fly-typograf.js:216-222 | `Object.entries(...).find`: defined exactly when the glyph occurs, and then the key of an entry with that glyph |
| GlyphTables.ReverseOfLookup | dist/fly-typograf.js:216-222 | with distinct glyphs, the reverse lookup of a token's glyph is that token |
| GlyphTables.LookupOfReverse | dist/fly-typograf.js:216-222 | with distinct keys, looking up the token the reverse lookup gives returns the glyph |
| GlyphTables.LookupOfEntry | dist/fly-typograf.js:23-42 | with distinct keys, the lookup of an entry's key is that entry's glyph |
| GlyphTables.FractionTableInjective | dist/fly-typograf.js:23-42 | the 18 fraction glyphs of v1.2.7 are pairwise distinct, and so are their keys |
| GlyphTables.LegacyFractionTableInjective | FlyTypograf.js:24-40 | the 15 fraction glyphs of v1.0 are pairwise distinct, and so are their keys |
| GlyphTables.FractionRoundTrip | dist/fly-typograf.js:206-222 | lookup and reverse lookup are inverse to each other on the v1.2.7 fraction table |
| GlyphTables.LegacyFractionRoundTrip | FlyTypograf.js:138-155 | lookup and reverse lookup are inverse to each other on the v1.0 fraction table |
| GlyphTables.FractionKeyLengths | FlyTypograf.js:24-40 | every v1.0 fraction key has three characters; in v1.2.7 every key but "1/10" has three and "1/10" has four |
| GlyphTables.OnlyTenthKeyIsLong | dist/fly-typograf.js:32 | the one v1.2.7 fraction whose key is not three characters long is ⅒ |
| GlyphTables.LegacyKeyLength | FlyTypograf.js:24-40 | every key of the v1.0 fraction table is three characters long |
| GlyphTables.UpIndexKeysDistinct | dist/fly-typograf.js:49-67 | the 18 superscript keys are pairwise distinct |
| GlyphTables.NotUpIndexKey | dist/fly-typograf.js:49-67 | a character outside the table's keys has no superscript |
| GlyphTables.UpIndexDegree | dist/fly-typograf.js:65-66 | both the Latin `o` and the Cyrillic `о` look up to the degree sign |
| GlyphTables.DegreeReversesToLatin | dist/fly-typograf.js:239-248 | the `for … in` reverse lookup of the degree sign returns the Latin `o`, the earlier key |
| GlyphTables.UpIndexLookupAt | dist/fly-typograf.js:49-67 | each superscript key looks up to the glyph of its own entry |
| GlyphTables.UpIndexReverseAt | dist/fly-typograf.js:239-248 | the glyph of each entry but the Cyrillic `о` reverses to that entry's key |
| GlyphTables.UpIndexRoundTrip | dist/fly-typograf.js:239-248 | each superscript key's glyph reverses to that key, except the Cyrillic `о`, whose glyph reverses to the Latin `o` |
| Chars.Run | dist/fly-typograf.js:87-90 | a greedy `[…]*` run from i (0 when s[i] is outside the class, which callers test to require `+`): inside the string, every character satisfies the class, and the next one does not |
| Chars.RunIs | dist/fly-typograf.js:193-199 | a run that holds for n characters and stops there has length exactly n, the length the extra-dot rule's `\.+` takes |
| Chars.RunBack | dist/fly-typograf.js:122-128 | the `\s*` run a lookbehind skips: every character satisfies the class, and the one before it does not |
| DistRules.NbspBesideSpace | dist/fly-typograf.js:77-80 | a no-break space beside a space becomes two spaces; caret shift equals the change in length |
| DistRules.ThinBesideSpace | dist/fly-typograf.js:82-85 | a thin no-break space beside a space: the text loses one character and the caret does not move |
| DistRules.NoBreakRun | dist/fly-typograf.js:87-90 | matches exactly at a no-break space of either width, consumes the maximal run, writes one space, and does not move the caret |
| DistRules.DoubleDash | dist/fly-typograf.js:92-98 | `--` not after `!`/`-` and not before `-`/`>` becomes `-`; caret shift equals the change in length |
| DistRules.DashVariant | dist/fly-typograf.js:100-103 | em dash, en dash and minus sign become a hyphen; caret shift equals the change in length |
| DistRules.MinusSign | dist/fly-typograf.js:109-112 | a hyphen between a number or fraction context and a digit or fraction becomes `−`; caret shift equals the change in length |
| CommonRules.PlusMinus | dist/fly-typograf.js:114-120 | `+/-` becomes `±`; the caret shift of -2 equals the change in length |
| DistRules.Division | dist/fly-typograf.js:122-128 | `-:-` after a digit or Latin letter (spaces between allowed) becomes `÷`; caret shift -2 equals the change in length |
| DistRules.DashSign | dist/fly-typograf.js:130-133 | a free-standing hyphen becomes `—`; caret shift equals the change in length |
| DistRules.NbspBeforeDash | dist/fly-typograf.js:135-138 | the space before `—` becomes a no-break space unless it starts a line or follows punctuation or a space; caret shift equals the change in length |
| DistRules.DashSpacing | dist/fly-typograf.js:140-146 | spaces, `—`, spaces, word character become ` —`, no-break space, that character; the caret shift equals the change in length exactly when a space follows the dash |
| DistRules.DashBeforeDigit | dist/fly-typograf.js:148-151 | `—` before a digit becomes `−`; caret shift equals the change in length |
| CommonRules.Copyright | dist/fly-typograf.js:153-159 | `(c)`/`(с)`, either case, becomes `©`; the caret shift of -2 equals the change in length |
| CommonRules.Registered | dist/fly-typograf.js:161-167 | `(r)`, either case, becomes `®`; the caret shift of -2 equals the change in length |
| CommonRules.Trademark | dist/fly-typograf.js:169-175 | `(tm)`, either case, becomes `™`; the caret shift of -3 equals the change in length |
| CommonRules.Rouble | dist/fly-typograf.js:177-183 | `(р)`, either case, becomes `₽`; the caret shift of -2 equals the change in length |
| DistRules.ThreeDots | dist/fly-typograf.js:185-191 | exactly three dots, not after a dot or `…` and not before a dot, become `…`; caret shift -2 equals the change in length |
| DistRules.ThreeDotsInText | dist/fly-typograf.js:185-191 | in a text whose only dots are one run of n, the regex matches only where the run starts, and there exactly when n is 3 |
| CommonRules.ExtraDots | dist/fly-typograf.js:193-199 | `…` followed by dots goes back to three dots and those dots; caret shift +2 equals the change in length |
| CommonRules.ExtraDotsInText | dist/fly-typograf.js:193-199 | in a text whose only dots are one `…` and the m dots after it, the regex matches only at the `…`, and there exactly when m ≥ 1, giving m + 3 dots with +2 |
| CommonRules.Size | dist/fly-typograf.js:201-204 | digit, `x`/`х`, digit becomes digit `×` digit; caret shift equals the change in length |
| DistRules.FractionToken | dist/fly-typograf.js:207 | the token `[123457]/([2-9]\|10)` followed by a word boundary has length 0, 3 or 4 and lies inside the string |
| DistRules.Fraction | dist/fly-typograf.js:206-214 | a fraction token is replaced by its glyph with caret -2 only when it is a key; otherwise the token and the caret stay as they were |
| CommonRules.FractionBeforeDigit | dist/fly-typograf.js:216-222 | a fraction glyph followed by a digit becomes a token of that glyph followed by the digit, caret +2 |
| CommonRules.FractionBeforeDigitRestores | dist/fly-typograf.js:216-222 | with distinct keys, the token a glyph turns back into looks up to that glyph, and the digit after it is kept |
| DistRules.UpIndexSign | dist/fly-typograf.js:224-230 | `c^x` becomes `c` + the superscript of x (or x when x has none); caret shift -1 equals the change in length |
| DistRules.UpIndexDigit | dist/fly-typograf.js:232-237 | a superscript before a class character keeps its length and caret; the caret shift equals the change in length exactly when that character has a superscript |
| DistRules.UpIndexAfterSpace | dist/fly-typograf.js:239-248 | a superscript after a space becomes its key; caret shift equals the change in length |
| DistRules.OpenQuote | dist/fly-typograf.js:250-253 | `"` or `»` before a non-space becomes the left quote; caret shift equals the change in length |
| DistRules.CloseQuote | dist/fly-typograf.js:255-258 | `"` or `«` after a non-space becomes the right quote; caret shift equals the change in length |
| CommonRules.OpenQuoteNested | dist/fly-typograf.js:260-263 | `"` before `«` and a word character becomes a second `«`; caret shift equals the change in length |
| CommonRules.CloseQuoteNested | dist/fly-typograf.js:265-268 | `"` after a word character and `»` becomes a second `»`; caret shift equals the change in length |
| CommonRules.HtmlOpenQuote | dist/fly-typograf.js:270-273 | a quote glyph right after `name=` goes back to `"`; caret shift equals the change in length |
| CommonRules.HtmlCloseQuote | dist/fly-typograf.js:275-278 | the first quote glyph after `name="` (with no `>` before it) goes back to `"`; caret shift equals the change in length |
| CommonRules.Apostrophe | dist/fly-typograf.js:280-283 | `'` before `s`, `t`, `d`, `ve`, `ll` or `clock` at a word boundary becomes `’`; caret shift equals the change in length |
| CommonRules.MinutesSeconds | dist/fly-typograf.js:285-288 | digits, a prime, digits and a closing quote become digits `′` digits `″`; caret shift equals the change in length |
| CommonRules.Preposition | dist/fly-typograf.js:290-293 | a one- or two-letter word after a space, `>`, a tab or a line start gets a no-break space after it; caret shift equals the change in length. The set of preceding characters and the line-start test are parameters: the v1.0 regex at FlyTypograf.js:196-200 also takes `\n` and has no `m` flag |
| CommonRules.ParticleDash | dist/fly-typograf.js:295-298 | `-то`/`-ка` followed by a no-break space get a plain space; caret shift equals the change in length |
| CommonRules.Particle | dist/fly-typograf.js:300-303 | the no-break space after a particle moves before it; caret shift equals the change in length |
| LegacyRules.SpacedMinus | FlyTypograf.js:43-47 | ` -d` becomes ` −d`: same length, caret shift 0 |
| LegacyRules.SpacedDash | FlyTypograf.js:48-52 | a hyphen between the text start, a space or `>` and a space becomes `—`; caret shift equals the change in length |
| LegacyRules.DoubleHyphen | FlyTypograf.js:53-60 | `-- ` not after `-`/`!` becomes `— `, caret shift -1, equal to the change in length |
| LegacyRules.NbspCollapse | FlyTypograf.js:61-68 | a run of no-break spaces, or one beside a space, becomes one no-break space; the caret shift of 1 - length is the change in length |
| LegacyRules.Interval | FlyTypograf.js:69-76 | digit, optional space, `-`/`—`, optional space, digit becomes digit `–` digit; caret shift equals the change in length |
| LegacyRules.LegacyThreeDots | FlyTypograf.js:109-116 | three dots not after a dot or `…` become `…`, caret -2, also at the head of a longer run |
| LegacyRules.LegacyThreeDotsInText | FlyTypograf.js:109-116 | in a text whose only dots are one run of n, the regex matches only where the run starts, and does there whenever n ≥ 3 |
| LegacyRules.LegacyFraction | FlyTypograf.js:138-147 | a three-character token becomes its glyph with caret -2 when it is a key, and stays with caret 0 when not; either way the caret shift equals the change in length |
| LegacyRules.LegacyOpenQuote | FlyTypograf.js:156-160 | `"`/`»` before a word character becomes `«`; caret shift equals the change in length |
| LegacyRules.LegacyCloseQuote | FlyTypograf.js:161-165 | `"`/`«` after a word character, `?` or `!` becomes `»`; caret shift equals the change in length |
| Rules.KeepsCaret | dist/fly-typograf.js:75-304 | the rules whose every callback shifts the caret by the change in length; all but the thin-space, no-break-run, dash-spacing, fraction and superscript-before-character rules, and the glyph-before-digit rule only for a table of three-character keys |
| Rules.MatchAt | dist/fly-typograf.js:75-304 | every rule's match fits the string, and for each rule of `KeepsCaret` the caret shift equals the change in length; the v1.0 rules are those of FlyTypograf.js:42-211 |
| Rules.PrepareRulesInOrder | dist/fly-typograf.js:75-104 | `#prepare` is its five rules in source order, `--` before the long-dash rule, and all but the thin-space and run rules keep the caret |
| Rules.ProcessRulesInOrder | dist/fly-typograf.js:107-304 | `#process` is its 30 rules in source order, the extra-dot rule right after the three-dot rule, and a rule keeps the caret exactly when it is not rule 5, 14, 15 or 17 (dash spacing, fraction, glyph before digit, superscript before character) |
| Rules.TenthBreaksCaret | dist/fly-typograf.js:32 | the v1.2.7 glyph-before-digit rule does not keep the caret, because the key of ⅒ has four characters |
| Rules.LegacyRulesInOrder | FlyTypograf.js:42-211 | `#rules` is its 26 rules in source order, the extra-dot rule right after the three-dot rule, and neither v1.2.7-only dot or fraction rule is among them |
| Rules.Compile | dist/fly-typograf.js:338 | a rule as `replace` sees it: it answers at every position with a match that fits, and when the rule keeps the caret, every match does |
| Replace.ReplaceFrom | dist/fly-typograf.js:338 | global `replace`: when every match keeps the caret, the output length is the input length plus the total caret shift |
| Replace.Apply | dist/fly-typograf.js:338 | one `replace` call: when the rule keeps the caret, the length changes by its total caret shift |
| Replace.RunStage | dist/fly-typograf.js:337-339 | the `forEach` over a rule list (also FlyTypograf.js:227-229): each rule rewrites what the rules before it left, and the caret shifts add up |
| Replace.RunStagePrefix | dist/fly-typograf.js:337-339 | the first k rules of a list are rule k - 1 applied to what the first k - 1 produced, and their shifts add |
| Replace.StageKeepsLength | dist/fly-typograf.js:337-339 | a rule list whose every rule keeps the caret changes the length by exactly the summed caret shift |
| Replace.ReplaceIdentity | dist/fly-typograf.js:338 | a replace whose matches all give back what they consumed changes neither text nor caret |
| Replace.ReplaceCopies | dist/fly-typograf.js:338 | where the regex matches nowhere in a stretch, the replace copies that stretch unchanged and adds no caret shift |
| Replace.OneMatch | dist/fly-typograf.js:338 | a replace with a single match copies the text around it and shifts the caret by that match's shift alone |
| Replace.ReplaceAvoids | dist/fly-typograf.js:338 | a rule that matches at every character of a set and never writes one leaves none behind |
| Dist.FlyTypograf.constructor | dist/fly-typograf.js:307-315 | `source` is the element's text, and the preference fields are `undefined` without a preference |
| Dist.FlyTypograf.MovesCaret | dist/fly-typograf.js:333 | the `if (this.#isMoveCaret)` test of lines 333 and 343: only `true` follows the caret, `undefined` and `false` do not |
| Dist.FlyTypograf.ApplyRules | dist/fly-typograf.js:332-346 | result is the rule list applied to the old result (returned as the ghost stage); the counter starts from the read caret when the caret is followed and from its old value otherwise, and moves by the summed shift; the caret is written only when followed |
| Dist.FlyTypograf.Process | dist/fly-typograf.js:325-330 | result is `#process` applied to `#prepare` applied to the text (the ghost outputs prepared and processed are the two stages); the caret is re-read before each stage when followed, and otherwise accumulates both stages' shifts |
| Legacy.LegacyRulesKeepCaret | FlyTypograf.js:42-211 | every v1.0 rule moves the caret by exactly the change in length it makes |
| Legacy.FlyTypograf.constructor | FlyTypograf.js:213-216 | the result is empty and the caret counter is 0 |
| Legacy.FlyTypograf.ApplyAll | FlyTypograf.js:227-229 | the `forEach`: result is the rule list applied to the old result, and the counter moves by the summed caret shift |
| Legacy.FlyTypograf.Process | FlyTypograf.js:222-234 | result is `#rules` applied to the text; the written caret is the read caret plus the summed shift, which equals the change in text length |
| PrepareProperties.PrepareSteps | dist/fly-typograf.js:75-104 | the prepare stage is its five rules in order |
| PrepareProperties.PrepareLeavesNoSpecial | dist/fly-typograf.js:75-104 | after `#prepare` no U+00A0, U+202F, `—`, `–` or `−` is left |
| PrepareProperties.NoBreakRunClears | dist/fly-typograf.js:87-90 | no no-break space of either width survives the run rule |
| PrepareProperties.DoubleDashKeepsClear | dist/fly-typograf.js:92-98 | the double-dash rule brings back no no-break space |
| PrepareProperties.DashVariantClears | dist/fly-typograf.js:100-103 | on a text without no-break spaces, the dash rule leaves no character of the five it exists to remove |
| PrepareProperties.DoubleDashCaret | dist/fly-typograf.js:92-98 | the double-dash rule changes the length by exactly its caret shift, which is never positive |
| PrepareProperties.SpaceRulesIdentity | dist/fly-typograf.js:77-90 | a text without no-break spaces passes the three space rules unchanged, with no caret shift |
| PrepareProperties.NoSpaceRuleMatches | dist/fly-typograf.js:77-90 | without no-break spaces, none of the three space rules matches anywhere |
| PrepareProperties.DoubleDashExample | dist/fly-typograf.js:92-98 | `a—--b` becomes `a—-b`, caret -1: the `--` after the em dash is the one taken |
| PrepareProperties.DoubleDashAgain | dist/fly-typograf.js:92-98 | `a--b` becomes `a-b`, caret -1 |
| PrepareProperties.DashVariantExample | dist/fly-typograf.js:100-103 | `a—-b` becomes `a--b` with no caret shift |
| PrepareProperties.DashVariantIdle | dist/fly-typograf.js:100-103 | `a-b` has no long dash and stays as it is |
| PrepareProperties.PrepareNotIdempotent | dist/fly-typograf.js:92-103 | `a—--b` becomes `a--b`, and a second pass makes it `a-b` |
| ProcessProperties.ThreeDotsBecomeEllipsis | dist/fly-typograf.js:185-191 | for any p and q without `.` or `…`, `p...q` becomes `p…q` with caret -2 |
| ProcessProperties.LoneEllipsisStays | dist/fly-typograf.js:193-199 | for any p and q without `.` or `…`, the extra-dot rule leaves `p…q` as it is, with no caret shift |
| ProcessProperties.LongDotRunsStay | dist/fly-typograf.js:185-199 | for any p and q without `.` or `…` and n ≥ 4, p, n dots, q passes both dot rules unchanged, with no caret shift |
| ProcessProperties.WaitExamples | dist/fly-typograf.js:185-191 | `wait....` keeps its four dots with no caret shift, and `wait...` becomes `wait…` with -2 |
| ProcessProperties.SymbolShifts | dist/fly-typograf.js:114-183 | `(C)`, `(с)`, `(R)`, `(Tm)`, `(Р)` and `+/-` give `©`, `©`, `®`, `™`, `₽` and `±` with shifts -2, -2, -2, -3, -2 and -2 |
| ProcessProperties.ThinSpaceDrift | dist/fly-typograf.js:82-85 | a thin no-break space and a space become one space with no caret shift |
| ProcessProperties.NoBreakRunDrift | dist/fly-typograf.js:87-90 | three no-break spaces become one space with no caret shift |
| ProcessProperties.DashSpacingDrift | dist/fly-typograf.js:140-146 | ` —a` grows to ` —` + no-break space + `a` with no caret shift |
| ProcessProperties.TenthDrift | dist/fly-typograf.js:206-214 | "1/10" becomes `⅒`: four characters become one with a caret shift of -2 |
| ProcessProperties.UndefinedSuperscript | dist/fly-typograf.js:232-237 | `²-` becomes `²undefined` with no caret shift |
| ProcessProperties.NonKeyFractionStays | dist/fly-typograf.js:206-214 | "2/7" matches the fraction pattern but is written back unchanged with no caret shift |
| ProcessProperties.FractionGlyphRestored | dist/fly-typograf.js:216-222 | a glyph followed by a digit becomes the token that looks up to that glyph; the caret shift equals the change in length exactly when the glyph is not ⅒ |
| ProcessProperties.SuperscriptAfterSpaceRestored | dist/fly-typograf.js:239-248 | a superscript after a space becomes a key that looks up to it, and the degree sign becomes the Latin `o` |
| LegacyProperties.LegacyThreeDotsBecomeEllipsis | FlyTypograf.js:109-116 | for any p and q without `.` or `…` and n ≥ 3, p, n dots, q becomes p, `…`, n - 3 dots, q with caret -2; for n = 3, `p...q` becomes `p…q` |
| LegacyProperties.EllipsisWithDotsReverts | FlyTypograf.js:117-124 | for any p and q without `.` or `…` and m ≥ 1, p, `…`, m dots, q becomes p, m + 3 dots, q with caret +2 |
| LegacyProperties.LongDotRunsRoundTrip | FlyTypograf.js:109-124 | for any p and q without `.` or `…` and n ≥ 4, p, n dots, q comes through both dot rules unchanged, with a net caret shift of 0 |
| LegacyProperties.LegacyWaitExample | FlyTypograf.js:109-124 | `wait....` becomes `wait….` with -2, and the extra-dot rule turns that back into `wait....` with +2 |
| LegacyProperties.LegacyFractionGlyphRestored | FlyTypograf.js:148-155 | a v1.0 glyph followed by a digit becomes its three-character token and the digit, with a caret shift of +2 equal to the change in length |
| LegacyProperties.LegacyFractionRoundTripInText | FlyTypograf.js:138-155 | the glyph a key token becomes, followed by a digit, turns back into that token and digit |

## Left out

- Reading and writing the element is not modelled. This covers
  `#getCaretPosition`/`#setCaretPosition` (dist/fly-typograf.js:348-369) and
  `_getCaretPosition`, `_setCaretPosition` and `_getSelectionText`
  (FlyTypograf.js:236-271). The text and the caret read are parameters; the
  text written back is `result`, and the caret written back is returned.
- The `contentEditable` branch of those helpers is not modelled. It can never
  run: `contentEditable` is a string, and the constructor compares it with
  `true`.
- The getters `result` and `source` are not modelled; the fields of the same
  name are read directly.
- Caret clamping is not modelled. Neither version keeps the caret within the
  text; the browser's `setSelectionRange` does.
- The `i` flag is modelled for ASCII and basic Cyrillic letters (А–я, Ё, ё)
  only. Other characters whose upper case falls in those ranges (U+1C80 to
  U+1C88, for example) are treated as non-letters.
- One Dafny `char` stands for one UTF-16 code unit. Text with characters
  outside the Basic Multilingual Plane is not modelled.
- There is no general regular-expression engine. Each regex of the three rule
  lists is written out as its own matcher.
- `leftOutQuote`/`rightOutQuote` are stored by the v1.2.7 constructor and never
  read, as in the source. The quote rules always use `«»`.
- The example pages and the webpack configuration are not part of this model.
- `isMoveCaret` is modelled as a boolean or absent. The source tests it for
  truthiness, so a preference such as `1` or `"yes"` would follow the caret
  there; the model cannot express such a value.
- ProcessProperties.LongDotRunsStay: stated for a text with one dot run and no
  `.` or `…` around it; a text with several runs is not covered.
- ProcessProperties.ThreeDotsBecomeEllipsis: stated for one dot run, as above.
- LegacyProperties.LegacyThreeDotsBecomeEllipsis: stated for one dot run, as above.
- LegacyProperties.LongDotRunsRoundTrip: stated for one dot run, as above.

## Where the code and its documentation part ways

The model follows the code in each of these cases.

- **Prepare stage not idempotent.** The `#prepare` stage is not idempotent;
  `PrepareProperties.PrepareNotIdempotent` shows a text it changes twice.
- **Caret shift vs. change in length (v1.2.7).** The shift a v1.2.7 pass
  applies equals the change in length only for the rules of
  `Rules.KeepsCaret`. The four drift lemmas (`ThinSpaceDrift`,
  `NoBreakRunDrift`, `DashSpacingDrift` and `TenthDrift`),
  `UndefinedSuperscript`, and `FractionGlyphRestored` for ⅒ before a digit
  show the others.
- **Caret shift vs. change in length (v1.0).** In v1.0 the two always agree
  (`Legacy.FlyTypograf.Process`).
- **Caret counter when not followed.** With `isMoveCaret` unset or false, the
  callbacks still shift the caret counter. Nothing is read or written, and the
  counter carries over from call to call.
- **No preference.** Without a preference, `isMoveCaret` is `undefined`, so
  the caret is not followed. The field initialiser's `true` is overwritten by
  the constructor.
- **Caret read per stage.** When the caret is followed, v1.2.7 writes it back
  after each of its two stages and reads it again before the next. `#process`
  therefore starts from whatever caret the element reports after `#prepare`,
  and the model takes that caret as a separate parameter.
