/** The class of dist/fly-typograf.js (v1.2.7). The element the constructor
    is given is not modelled: the text `process()` reads from it and the caret
    positions `#getCaretPosition()` reads are parameters, and what is written
    back to it is `result` and the returned caret. */
module Dist {

  import opened Options
  import opened Rules
  import opened Replace

  /** The optional second argument of the constructor. Any member may be
      missing, which leaves the field it sets `undefined` (None). */
  datatype Preference = Preference(isMoveCaret: Option<bool>, leftOutQuote: Option<string>, rightOutQuote: Option<string>)

  class FlyTypograf {
    var result: string
    var caretPosition: int
    /** The fields only the constructor sets. */
    const source: string
    const isMoveCaret: Option<bool>
    /** Set by the constructor but never read: the rule lists were built from
        the initial «» before it ran. */
    const leftOutQuote: Option<string>
    const rightOutQuote: Option<string>

    /** Records the element's text as `source` and copies the preference
        (`preference?.name`: `undefined` when there is no preference).
        Without a preference `isMoveCaret` is `undefined`, not the `true` of
        its initialiser. */
    constructor(value: string, preference: Option<Preference>)
      ensures result == [] && source == value && caretPosition == 0
      ensures isMoveCaret == (if preference.Some? then preference.value.isMoveCaret else None)
      ensures leftOutQuote == (if preference.Some? then preference.value.leftOutQuote else None)
      ensures rightOutQuote == (if preference.Some? then preference.value.rightOutQuote else None)
    {
      result := [];
      source := value;
      caretPosition := 0;
      isMoveCaret := (if preference.Some? then preference.value.isMoveCaret else None);
      leftOutQuote := (if preference.Some? then preference.value.leftOutQuote else None);
      rightOutQuote := (if preference.Some? then preference.value.rightOutQuote else None);
    }

    /** `if (this.#isMoveCaret)`: only `true` passes, `undefined` does not. */
    predicate MovesCaret()
    {
      isMoveCaret == Some(true)
    }

    /** `#applyRules(array)`: when the caret is followed, the counter is first
        set to the caret read from the element; every rule then rewrites
        `result` and shifts the counter, which is written back as the caret
        only when the caret is followed. When it is not, the callbacks still
        shift the counter, from wherever the last call left it. stage is what
        the rule list makes of the text. */
    method ApplyRules(rules: seq<Rule>, readCaret: int) returns (written: Option<int>, ghost stage: Rewritten)
      modifies this`result, this`caretPosition
      ensures stage == RunStage(rules, old(result))
      ensures result == stage.text
      ensures caretPosition == (if MovesCaret() then readCaret else old(caretPosition)) + stage.delta
      ensures written == (if MovesCaret() then Some(caretPosition) else None)
    {
      if MovesCaret() {
        caretPosition := readCaret;
      }
      ghost var text0 := result;
      ghost var caret0 := caretPosition;
      var i := 0;
      while i < |rules|
        invariant 0 <= i <= |rules|
        invariant result == RunStage(rules[..i], text0).text
        invariant caretPosition == caret0 + RunStage(rules[..i], text0).delta
      {
        var w := Apply(rules[i], result);
        result := w.text;
        caretPosition := caretPosition + w.delta;
        RunStagePrefix(rules, i + 1, text0);
        i := i + 1;
      }
      assert rules[..|rules|] == rules;
      written := if MovesCaret() then Some(caretPosition) else None;
      stage := RunStage(rules, text0);
    }

    /** `process()`: the element's text goes through `#prepare` and then
        `#process`, each stage reading the caret afresh (caretAtPrepare and
        caretAtProcess) when the caret is followed. prepared and processed are
        what the two stages make of the text. */
    method Process(value: string, caretAtPrepare: int, caretAtProcess: int)
      returns (writtenAfterPrepare: Option<int>, writtenAfterProcess: Option<int>,
               ghost prepared: Rewritten, ghost processed: Rewritten)
      modifies this`result, this`caretPosition
      ensures prepared == RunStage(PrepareRules, value)
      ensures processed == RunStage(ProcessRules, prepared.text)
      ensures result == processed.text
      ensures caretPosition == (if MovesCaret() then caretAtProcess else old(caretPosition) + prepared.delta) + processed.delta
      ensures writtenAfterPrepare == (if MovesCaret() then Some(caretAtPrepare + prepared.delta) else None)
      ensures writtenAfterProcess == (if MovesCaret() then Some(caretPosition) else None)
    {
      result := value;
      writtenAfterPrepare, prepared := ApplyRules(PrepareRules, caretAtPrepare);
      writtenAfterProcess, processed := ApplyRules(ProcessRules, caretAtProcess);
    }
  }
}
