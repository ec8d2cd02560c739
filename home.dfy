/**
 * The page component's run state: the text typed, whether a run is in
 * flight, and the outcomes of the last run. A run starts when the button is
 * pressed and finishes when every lookup has settled.
 */
module HomePage {
  import opened CepTypes
  import opened Tokenizer
  import opened CepCheck

  class Home {
    var input: string
    var loading: bool
    var results: seq<CepResult>
    /** The tokens of the run in flight (captured when the run starts, so
        editing the text meanwhile does not change what is checked). */
    var pending: seq<string>

    /** Outcomes are cleared for the whole of a run; an idle page has no run
        in flight. */
    ghost predicate Valid()
      reads this
    {
      && (loading ==> results == [])
      && (!loading ==> pending == [])
    }

    /** The initial state: empty text, idle, no outcomes. */
    constructor ()
      ensures Valid()
      ensures input == [] && !loading && results == [] && pending == []
    {
      input, loading, results, pending := [], false, [], [];
    }

    /** The text area's change handler. */
    method SetInput(text: string)
      requires Valid()
      modifies this
      ensures Valid()
      ensures input == text
      ensures loading == old(loading) && results == old(results) && pending == old(pending)
    {
      input := text;
    }

    /** `loading || !input.trim()`: the button is disabled while a run is in
        flight and while the text is blank. */
    function ButtonDisabled(): (disabled: bool)
      reads this
      ensures disabled <==> loading || AllWhitespace(input)
    {
      TrimEmptyIffBlank(input);
      loading || Trim(input) == []
    }

    /** The part of `validateCeps` before the lookups are awaited: mark the
        run as in flight, clear the outcomes and tokenize the text. */
    method StartValidation()
      requires Valid()
      modifies this
      ensures Valid()
      ensures loading && results == [] && pending == Tokenize(input)
      ensures input == old(input)
    {
      var tokens := Tokenize(input);
      loading, results, pending := true, [], tokens;
    }

    /** The part of `validateCeps` after every lookup has settled: replace the
        outcomes wholesale and go idle. */
    method CompleteValidation(fetch: string -> LookupResponse)
      requires Valid() && loading
      modifies this
      ensures Valid()
      ensures !loading && pending == []
      ensures results == ValidateAll(old(pending), fetch)
      ensures input == old(input)
    {
      results := ValidateAll(pending, fetch);
      loading := false;
      pending := [];
    }

    /** A whole run of `validateCeps` with no edit in between: the outcomes
        are those of the text's tokens, one per token, in order. */
    method ValidateCeps(fetch: string -> LookupResponse)
      requires Valid()
      modifies this
      ensures Valid()
      ensures !loading && input == old(input)
      ensures results == ValidateAll(Tokenize(input), fetch)
      ensures |results| == |Tokenize(input)|
      ensures forall i :: 0 <= i < |results| ==> IsToken(results[i].originalInput)
    {
      StartValidation();
      CompleteValidation(fetch);
      TokenizeYieldsTokens(input);
    }

    /** Pressing the button: a disabled button does nothing, so a run never
        starts while another is in flight; an enabled one starts a run. */
    method Click()
      requires Valid()
      modifies this
      ensures Valid()
      ensures old(ButtonDisabled()) ==>
                input == old(input) && loading == old(loading)
                && results == old(results) && pending == old(pending)
      ensures !old(ButtonDisabled()) ==>
                !old(loading) && loading && results == [] && pending == Tokenize(input)
                && input == old(input)
    {
      if !ButtonDisabled() {
        StartValidation();
      }
    }
  }
}
