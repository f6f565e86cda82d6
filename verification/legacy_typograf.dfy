/** The class of FlyTypograf.js (v1.0). As in v1.2.7 the element is not
    modelled: the text and the caret `process()` reads from it are
    parameters, and what it writes back is `result` and the returned caret. */
module Legacy {

  import opened GlyphTables
  import opened Matching
  import opened Rules
  import opened Replace

  /** Every v1.0 rule moves the caret by exactly the change in length its
      matches make (the fraction rules because every key of the v1.0 table is
      three characters long). */
  lemma LegacyRulesKeepCaret()
    ensures forall k :: 0 <= k < |LegacyRuleList| ==> KeepsCaret(LegacyRuleList[k])
  {
    FractionKeyLengths();
  }

  class FlyTypograf {
    var result: string
    var caretPosition: int

    constructor()
      ensures result == [] && caretPosition == 0
    {
      result := [];
      caretPosition := 0;
    }

    /** `process()`: the caret read from the element becomes the counter, the
        rules of `#rules` rewrite the text in order, and the counter is
        written back as the caret. Since every rule keeps the caret, the caret
        moves by exactly as many characters as the text gained or lost. */
    method Process(value: string, caretRead: int) returns (written: int)
      modifies this`result, this`caretPosition
      ensures result == RunStage(LegacyRuleList, value).text
      ensures caretPosition == caretRead + RunStage(LegacyRuleList, value).delta
      ensures written == caretPosition
      ensures written - caretRead == |result| - |value|
    {
      result := value;
      caretPosition := caretRead;
      ApplyAll(LegacyRuleList);
      LegacyRulesKeepCaret();
      StageKeepsLength(LegacyRuleList, value);
      written := caretPosition;
    }

    /** The `forEach` of `process()`: every rule rewrites `result` and shifts
        the counter. */
    method ApplyAll(rules: seq<Rule>)
      modifies this`result, this`caretPosition
      ensures result == RunStage(rules, old(result)).text
      ensures caretPosition == old(caretPosition) + RunStage(rules, old(result)).delta
    {
      ghost var text0 := result;
      ghost var caret0 := caretPosition;
      var i := 0;
      while i < |rules|
        invariant 0 <= i <= |rules|
        invariant result == RunStage(rules[..i], text0).text
        invariant caretPosition == caret0 + RunStage(rules[..i], text0).delta
      {
        var w := Apply(rules[i], result);
        result := w.text;
        caretPosition := caretPosition + w.delta;
        RunStagePrefix(rules, i + 1, text0);
        i := i + 1;
      }
      assert rules[..|rules|] == rules;
    }
  }
}
