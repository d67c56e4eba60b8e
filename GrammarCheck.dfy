/**
 * The record mapping inside `SimpleLanguageToolChecker.check_text`: each match the
 * grammar service reports becomes one error record for the page.
 */
module GrammarCheck {
  import opened Text

  /** One already-decoded entry of the service's `matches` array; `replacements` holds the `value` fields. */
  datatype Match = Match(offset: nat, length: nat, replacements: seq<string>)

  /** The dictionary `check_text` appends per match. */
  datatype ErrorRecord = ErrorRecord(offset: nat, length: nat, replacements: seq<string>, badWord: string)

  /** At most this many suggestions are kept per match. */
  const MaxSuggestions: nat := 3

  /** What the record built from match `m` over `text` must hold. */
  predicate RecordFor(text: string, m: Match, e: ErrorRecord) {
    e.offset == m.offset && e.length == m.length &&
    |e.replacements| == (if |m.replacements| < MaxSuggestions then |m.replacements| else MaxSuggestions) &&
    e.replacements == m.replacements[..|e.replacements|] &&
    e.badWord == Slice(text, m.offset, m.offset + m.length)
  }

  /** The loop of `check_text` that turns matches into error records, in match order. */
  method MatchesToErrors(text: string, matches: seq<Match>) returns (errors: seq<ErrorRecord>)
    ensures |errors| == |matches|
    ensures forall i :: 0 <= i < |matches| ==> RecordFor(text, matches[i], errors[i])
    ensures forall i :: 0 <= i < |errors| ==> |errors[i].replacements| <= MaxSuggestions
    ensures forall i :: 0 <= i < |matches| && matches[i].offset + matches[i].length <= |text| ==>
      errors[i].badWord == text[matches[i].offset..matches[i].offset + matches[i].length]
  {
    errors := [];
    for i := 0 to |matches|
      invariant |errors| == i
      invariant forall k :: 0 <= k < i ==> RecordFor(text, matches[k], errors[k])
    {
      var m := matches[i];
      var replacements := if |m.replacements| <= MaxSuggestions then m.replacements else m.replacements[..MaxSuggestions];
      errors := errors + [ErrorRecord(m.offset, m.length, replacements, Slice(text, m.offset, m.offset + m.length))];
    }
  }
}
