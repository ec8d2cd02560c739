/**
 * Classifying each candidate token: strip it to its digits, reject it
 * unless exactly eight remain, otherwise ask the lookup service for that
 * code and classify the token by the answer. The service is a parameter
 * `fetch` from request URL to the response that request gets.
 */
module CepCheck {
  import opened CepTypes
  import opened Tokenizer

  /** A CEP has eight digits. */
  const CepLength: nat := 8

  const ServicePrefix: string := "https://viacep.com.br/ws/"
  const ServiceSuffix: string := "/json/"

  /** What `\D` does not match: the ASCII digits only. */
  predicate IsDigit(c: char) {
    '0' <= c <= '9'
  }

  predicate AllDigits(s: string) {
    forall i :: 0 <= i < |s| ==> IsDigit(s[i])
  }

  /** `token.replace(/\D/g, "")`: the digits of the token, in order. */
  function DigitsOnly(s: string): (code: string)
    ensures AllDigits(code)
    ensures |code| <= |s|
  {
    if s == [] then []
    else if IsDigit(s[0]) then [s[0]] + DigitsOnly(s[1..])
    else DigitsOnly(s[1..])
  }

  /** The lookup URL for a normalized code. */
  function RequestUrl(code: string): (url: string)
    ensures |url| == |ServicePrefix| + |code| + |ServiceSuffix|
    ensures url[..|ServicePrefix|] == ServicePrefix
    ensures url[|ServicePrefix|..|ServicePrefix| + |code|] == code
    ensures url[|ServicePrefix| + |code|..] == ServiceSuffix
  {
    ServicePrefix + code + ServiceSuffix
  }

  /** `response.ok`: a status in the range 200-299. */
  predicate IsOkStatus(status: int) {
    200 <= status <= 299
  }

  /** The record a response makes the token valid with, if any: an ok
      status, a body that decodes, and no `erro` flag. */
  function FoundRecord(response: LookupResponse): (found: Option<CepData>)
    ensures found.Some? <==> response.HttpResponse? && IsOkStatus(response.status)
                             && response.body.Some? && !response.body.value.NotFound()
    ensures found.Some? ==> found == response.body
  {
    match response
    case NetworkFailure => None
    case HttpResponse(status, body) =>
      if !IsOkStatus(status) then None
      else if body.None? then None
      else if body.value.NotFound() then None
      else body
  }

  /** The outcome for one token (the callback mapped over the tokens). */
  function Classify(token: string, fetch: string -> LookupResponse): (r: CepResult)
    ensures r.originalInput == token
    ensures |DigitsOnly(token)| != CepLength ==> !r.valid && r.data.None?
    ensures r.valid <==> |DigitsOnly(token)| == CepLength
                         && FoundRecord(fetch(RequestUrl(DigitsOnly(token)))).Some?
    ensures r.valid ==> r.data == FoundRecord(fetch(RequestUrl(DigitsOnly(token))))
    ensures !r.valid ==> r.data.None?
  {
    var code := DigitsOnly(token);
    if |code| != CepLength then
      CepResult(token, false, None)
    else
      match FoundRecord(fetch(RequestUrl(code)))
      case None => CepResult(token, false, None)
      case Some(data) => CepResult(token, true, Some(data))
  }

  /** `Promise.all(tokens.map(classify))`: one outcome per token, each at
      its token's position. */
  function ValidateAll(tokens: seq<string>, fetch: string -> LookupResponse): (results: seq<CepResult>)
    ensures |results| == |tokens|
    ensures forall i :: 0 <= i < |tokens| ==> results[i] == Classify(tokens[i], fetch)
  {
    seq(|tokens|, i requires 0 <= i < |tokens| => Classify(tokens[i], fetch))
  }

  // ---------------------------------------------------------------------
  // Properties of the digit strip

  /** Stripping works piecewise, so the digits keep their order. */
  lemma {:induction false} DigitsOnlyAppend(a: string, b: string)
    ensures DigitsOnly(a + b) == DigitsOnly(a) + DigitsOnly(b)
    decreases |a|
  {
    if a == [] {
      assert a + b == b;
    } else {
      assert (a + b)[0] == a[0];
      assert (a + b)[1..] == a[1..] + b;
      DigitsOnlyAppend(a[1..], b);
    }
  }

  /** A string is left unchanged exactly when it is all digits. */
  lemma {:induction false} DigitsOnlyFixedPoint(s: string)
    ensures DigitsOnly(s) == s <==> AllDigits(s)
    decreases |s|
  {
    if s != [] {
      DigitsOnlyFixedPoint(s[1..]);
      if !IsDigit(s[0]) {
        assert |DigitsOnly(s)| < |s|;
      }
    }
  }

  /** Stripping twice is stripping once. */
  lemma DigitsOnlyIdempotent(s: string)
    ensures DigitsOnly(DigitsOnly(s)) == DigitsOnly(s)
  {
    DigitsOnlyFixedPoint(DigitsOnly(s));
  }

  /** The strip removes every character of a string with no digits. */
  lemma {:induction false} DigitsOnlyNoDigits(s: string)
    requires forall i :: 0 <= i < |s| ==> !IsDigit(s[i])
    ensures DigitsOnly(s) == []
    decreases |s|
  {
    if s != [] {
      DigitsOnlyNoDigits(s[1..]);
    }
  }

  /** The usual written form `NNNNN-NNN` of a CEP strips to its eight digits. */
  lemma HyphenatedForm(code: string)
    requires |code| == CepLength && AllDigits(code)
    ensures DigitsOnly(code[..5] + "-" + code[5..]) == code
  {
    DigitsOnlyAppend(code[..5] + "-", code[5..]);
    DigitsOnlyAppend(code[..5], "-");
    DigitsOnlyNoDigits("-");
    DigitsOnlyFixedPoint(code[..5]);
    DigitsOnlyFixedPoint(code[5..]);
    assert code[..5] + code[5..] == code;
  }

  /** Distinct codes are asked for at distinct URLs, and the code can be
      read back from its URL. */
  lemma RequestUrlInjective(a: string, b: string)
    ensures RequestUrl(a) == RequestUrl(b) <==> a == b
  {
    if RequestUrl(a) == RequestUrl(b) {
      assert |a| == |b|;
    }
  }

  // ---------------------------------------------------------------------
  // Properties of the classifier

  /** A token without exactly eight digits is classified without asking the
      service: its outcome is the same whatever the service would answer. */
  lemma MalformedNeedsNoLookup(token: string, f: string -> LookupResponse, g: string -> LookupResponse)
    requires |DigitsOnly(token)| != CepLength
    ensures Classify(token, f) == Classify(token, g) == CepResult(token, false, None)
  {
  }

  /** The only request a token depends on is the one for its own code. */
  lemma ClassifyDependsOnOwnRequest(token: string, f: string -> LookupResponse, g: string -> LookupResponse)
    requires f(RequestUrl(DigitsOnly(token))) == g(RequestUrl(DigitsOnly(token)))
    ensures Classify(token, f) == Classify(token, g)
  {
  }

  /** Formatting does not matter: tokens with the same digits get the same
      verdict and record. */
  lemma ClassifyIgnoresFormatting(t: string, u: string, fetch: string -> LookupResponse)
    requires DigitsOnly(t) == DigitsOnly(u)
    ensures Classify(t, fetch).valid == Classify(u, fetch).valid
    ensures Classify(t, fetch).data == Classify(u, fetch).data
  {
  }

  /** Each failure kind makes an eight-digit token invalid. */
  lemma FailuresAreInvalid(token: string, fetch: string -> LookupResponse)
    requires |DigitsOnly(token)| == CepLength
    requires var response := fetch(RequestUrl(DigitsOnly(token)));
             || response.NetworkFailure?
             || (response.HttpResponse? && !IsOkStatus(response.status))
             || (response.HttpResponse? && response.body.None?)
             || (response.HttpResponse? && response.body.Some? && response.body.value.NotFound())
    ensures !Classify(token, fetch).valid && Classify(token, fetch).data.None?
  {
  }

  /** Two codes separated only by a space are one token (a space does not
      split), and that token has sixteen digits, so it is rejected without a
      lookup. */
  lemma SpacePairIsInvalid(token: string, fetch: string -> LookupResponse)
    requires token == "30672-220 01001-000"
    ensures Classify(token, fetch) == CepResult(token, false, None)
  {
    SpacePairDigits(token, "30672-220", "01001-000");
    MalformedNeedsNoLookup(token, fetch, fetch);
  }

  lemma SpacePairDigits(token: string, a: string, b: string)
    requires a == "30672-220" && b == "01001-000" && token == a + " " + b
    ensures |DigitsOnly(token)| == 2 * CepLength
  {
    DigitsOnlyAppend(a + " ", b);
    DigitsOnlyAppend(a, " ");
    DigitsOnlyNoDigits(" ");
    HyphenatedLength(a, "30672220");
    HyphenatedLength(b, "01001000");
  }

  lemma HyphenatedLength(t: string, code: string)
    requires |code| == CepLength && AllDigits(code) && t == code[..5] + "-" + code[5..]
    ensures |DigitsOnly(t)| == CepLength
  {
    HyphenatedForm(code);
  }

  // ---------------------------------------------------------------------
  // Properties of the batch

  /** Batches are positional: validating two batches one after the other
      gives the outcomes of validating them together. */
  lemma ValidateAllAppend(a: seq<string>, b: seq<string>, fetch: string -> LookupResponse)
    ensures ValidateAll(a + b, fetch) == ValidateAll(a, fetch) + ValidateAll(b, fetch)
  {
  }

  /** Failure isolation: a token's outcome depends only on the answer to its
      own request, not on what the other tokens' requests get. */
  lemma ValidateAllIsolated(tokens: seq<string>, i: nat, f: string -> LookupResponse, g: string -> LookupResponse)
    requires i < |tokens|
    requires f(RequestUrl(DigitsOnly(tokens[i]))) == g(RequestUrl(DigitsOnly(tokens[i])))
    ensures ValidateAll(tokens, f)[i] == ValidateAll(tokens, g)[i]
  {
  }

  /** The worked example: the first code is found, the service flags the
      second as unknown, and the third has too few digits to be looked up. */
  lemma ExampleBatch(text: string, fetch: string -> LookupResponse, found: CepData, unknown: CepData)
    requires text == "30672-220, 00000000\n123"
    requires fetch(RequestUrl("30672220")) == HttpResponse(200, Some(found)) && !found.NotFound()
    requires fetch(RequestUrl("00000000")) == HttpResponse(200, Some(unknown)) && unknown.NotFound()
    ensures ValidateAll(Tokenize(text), fetch)
            == [CepResult("30672-220", true, Some(found)),
                CepResult("00000000", false, None),
                CepResult("123", false, None)]
  {
    MixedDelimiters(text);
    var tokens := Tokenize(text);
    ExampleDigits(tokens[0], tokens[1], tokens[2]);
    ThreeOutcomes(tokens, fetch, found, unknown);
  }

  /** A batch of a found code, a code the service does not know and a
      malformed token gives a valid outcome followed by two invalid ones. */
  lemma ThreeOutcomes(tokens: seq<string>, fetch: string -> LookupResponse, found: CepData, unknown: CepData)
    requires |tokens| == 3
    requires |DigitsOnly(tokens[0])| == CepLength
    requires fetch(RequestUrl(DigitsOnly(tokens[0]))) == HttpResponse(200, Some(found)) && !found.NotFound()
    requires |DigitsOnly(tokens[1])| == CepLength
    requires fetch(RequestUrl(DigitsOnly(tokens[1]))) == HttpResponse(200, Some(unknown)) && unknown.NotFound()
    requires |DigitsOnly(tokens[2])| != CepLength
    ensures ValidateAll(tokens, fetch)
            == [CepResult(tokens[0], true, Some(found)),
                CepResult(tokens[1], false, None),
                CepResult(tokens[2], false, None)]
  {
    assert Classify(tokens[0], fetch) == CepResult(tokens[0], true, Some(found));
    assert Classify(tokens[1], fetch) == CepResult(tokens[1], false, None);
  }

  lemma ExampleDigits(t0: string, t1: string, t2: string)
    requires t0 == "30672-220" && t1 == "00000000" && t2 == "123"
    ensures DigitsOnly(t0) == "30672220" && DigitsOnly(t1) == t1 && |DigitsOnly(t2)| == 3
  {
    var code := "30672220";
    assert AllDigits(code);
    HyphenatedForm(code);
    assert t0 == code[..5] + "-" + code[5..];
    assert AllDigits(t1);
    DigitsOnlyFixedPoint(t1);
    assert AllDigits(t2);
    DigitsOnlyFixedPoint(t2);
  }
}
