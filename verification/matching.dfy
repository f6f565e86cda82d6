/** What a rule's regular expression yields when the scan reaches a position:
    nothing, or one match with its replacement and the caret shift its replace
    callback applies. */
module Matching {

  import opened Options

  /** One match: the number of characters it consumes, the replacement text,
      and the amount the callback adds to the caret counter (0 for a rule with
      a static replacement). */
  datatype Match = Match(len: nat, repl: string, delta: int)

  /** The quote pair the quote rules are built with. */
  datatype QuoteStyle = QuoteStyle(left: char, right: char)

  /** The default pair «…», which every rule list is built with. */
  const DefaultQuotes := QuoteStyle('«', '»')

  /** A match consumes at least one character and stays inside the string. */
  predicate Fits(s: string, i: nat, r: Option<Match>)
  {
    r.Some? ==> 1 <= r.value.len && i + r.value.len <= |s|
  }

  /** The caret shift of a match equals the change in length it makes, so a
      caret after the match keeps its place relative to the text around it. */
  predicate CaretExact(m: Match)
  {
    |m.repl| == m.len + m.delta
  }

  /** A compiled regex: what it matches when anchored at a position. */
  type Matcher = (string, nat) --> Option<Match>

  /** f answers at every position of every string, with a match that fits. */
  ghost predicate Scans(f: Matcher)
  {
    forall s: string, i: nat :: i < |s| ==> f.requires(s, i) && Fits(s, i, f(s, i))
  }

  /** Every match of f moves the caret by exactly the change in length. */
  ghost predicate ScansExact(f: Matcher)
    requires Scans(f)
  {
    forall s: string, i: nat :: i < |s| && f(s, i).Some? ==> CaretExact(f(s, i).value)
  }
}
