/** `String.prototype.replace` with a global regex, and a rule list applied
    one rule after another. The scan goes left to right: where the regex
    matches, the replacement is emitted, the callback's caret shift is added
    and the scan resumes after the match; elsewhere the character is copied.
    Every match is looked for in the string the call started with, so the
    lookbehinds and lookaheads never see a replacement. */
module Replace {

  import opened Options
  import opened Matching
  import opened Rules

  /** The text a replace call returns, and the total its callbacks added to
      the caret counter. */
  datatype Rewritten = Rewritten(text: string, delta: int)

  /** The rewrite of s[i..] by one global replace with the regex f. When every
      match moves the caret by the change in length it makes, the text grows
      by exactly the caret shift. */
  function ReplaceFrom(f: Matcher, s: string, i: nat): (w: Rewritten)
    requires Scans(f) && i <= |s|
    ensures ScansExact(f) ==> |w.text| == |s| - i + w.delta
    decreases |s| - i
  {
    if i == |s| then Rewritten([], 0)
    else
      match f(s, i)
      case Some(m) =>
        var rest := ReplaceFrom(f, s, i + m.len);
        Rewritten(m.repl + rest.text, m.delta + rest.delta)
      case None =>
        var rest := ReplaceFrom(f, s, i + 1);
        Rewritten([s[i]] + rest.text, rest.delta)
  }

  /** `s.replace(pattern, replace)` for one rule. */
  function Apply(r: Rule, s: string): (w: Rewritten)
    ensures KeepsCaret(r) ==> |w.text| == |s| + w.delta
  {
    ReplaceFrom(Compile(r), s, 0)
  }

  /** The `forEach` over a rule list: each rule rewrites what the rules
      before it left, and the caret shifts add up. */
  function RunStage(rules: seq<Rule>, s: string): Rewritten
  {
    if rules == [] then Rewritten(s, 0)
    else
      var w := RunStage(rules[..|rules| - 1], s);
      var x := Apply(rules[|rules| - 1], w.text);
      Rewritten(x.text, w.delta + x.delta)
  }

  /** The first k rules of a list are the first k - 1 and then rule k - 1. */
  lemma RunStagePrefix(rules: seq<Rule>, k: nat, s: string)
    requires 0 < k <= |rules|
    ensures RunStage(rules[..k], s)
            == Rewritten(Apply(rules[k - 1], RunStage(rules[..k - 1], s).text).text,
                         RunStage(rules[..k - 1], s).delta + Apply(rules[k - 1], RunStage(rules[..k - 1], s).text).delta)
  {
    assert rules[..k][..k - 1] == rules[..k - 1];
  }

  /** When every rule of a list keeps the caret, the caret shift of the
      whole list is the change in length. */
  lemma {:induction false} StageKeepsLength(rules: seq<Rule>, s: string)
    requires forall k :: 0 <= k < |rules| ==> KeepsCaret(rules[k])
    ensures |RunStage(rules, s).text| == |s| + RunStage(rules, s).delta
  {
    if rules != [] {
      var front := rules[..|rules| - 1];
      assert forall k :: 0 <= k < |front| ==> front[k] == rules[k];
      StageKeepsLength(front, s);
    }
  }

  /** Every match of f at or after i gives back the text it consumed and
      leaves the caret alone. */
  ghost predicate Unchanging(f: Matcher, s: string, i: nat)
    requires Scans(f) && i <= |s|
  {
    forall j :: i <= j < |s| && f(s, j).Some? ==>
      f(s, j).value.repl == s[j..j + f(s, j).value.len] && f(s, j).value.delta == 0
  }

  /** A replace whose matches all give back what they consumed changes
      neither the text nor the caret. */
  lemma {:induction false} ReplaceIdentity(f: Matcher, s: string, i: nat)
    requires Scans(f) && i <= |s|
    requires Unchanging(f, s, i)
    ensures ReplaceFrom(f, s, i) == Rewritten(s[i..], 0)
    decreases |s| - i
  {
    if i < |s| {
      match f(s, i)
      case Some(m) =>
        ReplaceIdentity(f, s, i + m.len);
        assert s[i..] == s[i..i + m.len] + s[i + m.len..];
      case None =>
        ReplaceIdentity(f, s, i + 1);
        assert s[i..] == [s[i]] + s[i + 1..];
    }
  }

  /** Where f matches nowhere in s[i..k], the replace copies those
      characters and carries on at k. */
  lemma {:induction false} ReplaceCopies(f: Matcher, s: string, i: nat, k: nat)
    requires Scans(f) && i <= k <= |s|
    requires forall j :: i <= j < k ==> f(s, j).None?
    ensures ReplaceFrom(f, s, i)
            == Rewritten(s[i..k] + ReplaceFrom(f, s, k).text, ReplaceFrom(f, s, k).delta)
    decreases k - i
  {
    if i < k {
      ReplaceCopies(f, s, i + 1, k);
      assert s[i..k] == [s[i]] + s[i + 1..k];
    }
  }

  /** A replace with a single match, at k: the text around it is copied and
      the caret moves by that match's shift alone. */
  lemma OneMatch(f: Matcher, s: string, k: nat)
    requires Scans(f) && k < |s| && f(s, k).Some?
    requires forall j :: 0 <= j < |s| && j != k ==> f(s, j).None?
    ensures ReplaceFrom(f, s, 0)
            == Rewritten(s[..k] + f(s, k).value.repl + s[k + f(s, k).value.len..], f(s, k).value.delta)
  {
    var m := f(s, k).value;
    var e := k + m.len;
    ReplaceIdentity(f, s, e);
    assert ReplaceFrom(f, s, k) == Rewritten(m.repl + s[e..], m.delta);
    ReplaceCopies(f, s, 0, k);
    assert s[0..k] == s[..k];
  }

  /** No replacement f makes holds a character of bad. */
  ghost predicate ReplAvoids(f: Matcher, bad: set<char>)
    requires Scans(f)
  {
    forall s: string, i: nat, c: char ::
      i < |s| && f(s, i).Some? && c in f(s, i).value.repl ==> c !in bad
  }

  /** A regex that matches at every character of bad, and never writes one,
      leaves none of them behind. */
  lemma {:induction false} ReplaceAvoids(f: Matcher, s: string, i: nat, bad: set<char>)
    requires Scans(f) && i <= |s|
    requires ReplAvoids(f, bad)
    requires forall j :: i <= j < |s| && s[j] in bad ==> f(s, j).Some?
    ensures forall c :: c in ReplaceFrom(f, s, i).text ==> c !in bad
    decreases |s| - i
  {
    if i < |s| {
      match f(s, i)
      case Some(m) => ReplaceAvoids(f, s, i + m.len, bad);
      case None => ReplaceAvoids(f, s, i + 1, bad);
    }
  }
}
