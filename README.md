# CEP validator — a Dafny model

`cep-validador` is a one-page web application. The user pastes free text
holding Brazilian postal codes (CEPs) into a text area and presses
"Validar CEPs". The page then works in four steps:

1. It cuts the text into candidate tokens.
2. It reduces every token to its digits.
3. Tokens that do not have exactly eight digits are rejected at once. For
   each remaining one it asks the ViaCEP service (`https://viacep.com.br/ws/<code>/json/`)
   whether the code exists.
4. It shows the outcomes in two columns, found codes ("Existem") and the
   rest, each in input order.

This project models that behaviour in five modules:

- `CepTypes` (`cep_types.dfy`): the record the service returns (`CepData`),
  the outcome for one token (`CepResult`), and what one request can come
  back with (`LookupResponse`).
- `Tokenizer` (`tokenizer.dfy`): the tokenizer
  `input.split(/[\n,;]+/).map(trim).filter(nonEmpty)`, modelled exactly.
  - The split keeps the empty pieces before a leading delimiter run and
    after a trailing one.
  - Trimming removes ECMAScript's whole WhiteSpace and LineTerminator set.
  - Tokenization is characterised by two laws: a piece without delimiters
    gives its trimmed text (if any), and every delimiter cuts the text into
    two parts that are tokenized independently.
  - From these follow the round trip (tokens joined by any run of whitespace
    and delimiters that holds a delimiter, with any such run before and
    after, tokenize back to exactly those tokens) and the fact that text
    has no tokens exactly when it is made only of whitespace and delimiters.
- `CepCheck` (`cep_check.dfy`): the per-token classifier and the batch.
  - The classifier strips non-digits, checks the length (8), and reads the
    lookup outcome.
  - The batch is positional: outcome `i` belongs to token `i`.
  - The lookup service is a parameter `fetch` that maps a request URL to the
    response that request gets.
- `Partition` (`partition.dfy`): the `validCeps` / `invalidCeps` filters.
  Together they split the outcomes without loss, and each keeps the input
  order.
- `HomePage` (`home.dfy`): the component's state (`input`, `loading`,
  `results`) as a class `Home`.
  - The asynchronous handler `validateCeps` is split at its one `await`
    into `StartValidation` and `CompleteValidation`.
  - The tokens of the run in flight are kept in `pending`.
  - The button guard `loading || !input.trim()` keeps a second run from
    starting while one is in flight.

The comment at `app/page.tsx:34` says the text is split "by newlines,
commas, or spaces". The code splits on newline, comma and semicolon, and
never on a space. The model follows the code: `SpaceDoesNotSplit` proves
that two codes separated only by a space form one token, and
`SpacePairIsInvalid` proves that this token, with its sixteen digits, is
marked invalid without a lookup.

## Model

| member | source | states |
|---|---|---|
| Tokenizer.SkipDelimiters | app/page.tsx:36 | dropping the delimiter run at the front never lengthens the text, shortens it when it starts with a delimiter, and leaves text that does not start with one |
| Tokenizer.SkipDelimitersSuffix | app/page.tsx:36 | what is dropped is a run of delimiters at the front, and what is left is the rest of the text |
| Tokenizer.Split | app/page.tsx:36 | `split(/[\n,;]+/)` gives at least one piece (`""` gives `[""]`) |
| Tokenizer.SplitPieces | app/page.tsx:36 | no piece of the split contains a delimiter |
| Tokenizer.SplitNoDelimiter | app/page.tsx:36 | text without a delimiter splits into itself alone |
| Tokenizer.SplitAtDelimiter | app/page.tsx:36 | a delimiter run ends the current piece, and splitting resumes after the whole run |
| Tokenizer.LeadingWhitespace | app/page.tsx:37 | the count of leading JS whitespace characters: all of them are whitespace and the next one is not |
| Tokenizer.TrailingWhitespace | app/page.tsx:37 | the count of trailing JS whitespace characters: all of them are whitespace and the one before is not |
| Tokenizer.Trim | app/page.tsx:37 | `trim()` is no longer than its input and neither of its ends is whitespace |
| Tokenizer.TrimInfix | app/page.tsx:37 | `trim()` returns the infix of its input between the leading and trailing whitespace, which are all whitespace |
| Tokenizer.TrimParts | app/page.tsx:37 | the input is its trimmed text with whitespace on either side |
| Tokenizer.TrimUnique | app/page.tsx:37 | whitespace around a non-empty text with non-whitespace ends is exactly what `trim()` removes |
| Tokenizer.TrimPadding | app/page.tsx:37 | whitespace added at either end does not change what `trim()` returns |
| Tokenizer.TrimHead | app/page.tsx:37 | a whitespace character at the front does not change what `trim()` returns |
| Tokenizer.TrimLast | app/page.tsx:37 | a whitespace character at the end does not change what `trim()` returns |
| Tokenizer.TrimEmptyIffBlank | app/page.tsx:37 | `trim()` is empty exactly when the text is all whitespace (both directions) |
| Tokenizer.TrimIdentity | app/page.tsx:37 | trimming a string whose ends are not whitespace leaves it unchanged |
| Tokenizer.TrimBlank | app/page.tsx:37 | trimming all-whitespace text gives the empty string |
| Tokenizer.TrimNoDelimiter | app/page.tsx:36-37 | trimming a split piece cannot bring a delimiter into it |
| Tokenizer.Clean | app/page.tsx:37-38 | `map(trim).filter(nonEmpty)` keeps at most one token per piece |
| Tokenizer.CleanTrimmed | app/page.tsx:37-38 | every token kept is non-empty and trimmed |
| Tokenizer.CleanAppend | app/page.tsx:37-38 | cleaning is positional: cleaning a concatenation concatenates the cleaned parts |
| Tokenizer.CleanCons | app/page.tsx:37-38 | the first piece contributes its trimmed text, unless that is empty, ahead of the rest |
| Tokenizer.CleanNoDelimiter | app/page.tsx:36-38 | cleaned split pieces contain no delimiter |
| Tokenizer.TokenizeYieldsTokens | app/page.tsx:35-38 | every token is non-empty, trimmed and free of delimiters |
| Tokenizer.TokenizePiece | app/page.tsx:35-38 | text without a delimiter gives its trimmed text as its only token, or no token when that is empty |
| Tokenizer.DelimiterCuts | app/page.tsx:35-38 | every delimiter cuts: the tokens of `x + d + y` are those of `x` followed by those of `y` (with `TokenizePiece` this determines the tokens of every text) |
| Tokenizer.CutAt | app/page.tsx:35-38 | the delimiter at a given position cuts the text there |
| Tokenizer.DelimiterHead | app/page.tsx:35-38 | a delimiter at the front yields no token of its own |
| Tokenizer.TokenizeToken | app/page.tsx:35-38 | a token on its own tokenizes to itself |
| Tokenizer.FillerHead | app/page.tsx:35-38 | a whitespace or delimiter character at the front does not change the tokens |
| Tokenizer.FillerTail | app/page.tsx:35-38 | a whitespace or delimiter character at the end does not change the tokens |
| Tokenizer.FillerPrefix | app/page.tsx:35-38 | any whitespace and delimiters before the text do not change its tokens (leading `,`, blank lines) |
| Tokenizer.FillerSuffix | app/page.tsx:35-38 | any whitespace and delimiters after the text do not change its tokens (a final newline) |
| Tokenizer.TokenizeEmptyIffFiller | app/page.tsx:35-38 | text has no tokens exactly when it consists only of whitespace and delimiters (both directions) |
| Tokenizer.NonFillerSurvives | app/page.tsx:35-38 | a character that is neither whitespace nor a delimiter always leaves a token |
| Tokenizer.SeparatorCuts | app/page.tsx:35-38 | a token followed by a separator (whitespace and delimiters with at least one delimiter, such as `" , "`) is cut off as the first token |
| Tokenizer.TokenizeJoin | app/page.tsx:35-38 | round trip: tokens joined by separators, with any whitespace and delimiters before the first and after the last, tokenize back to exactly those tokens, in order and with duplicates |
| Tokenizer.BlankHasNoTokens | app/page.tsx:35-38 | all-whitespace text has no tokens |
| Tokenizer.TokensImplyNonBlank | app/page.tsx:116 | text that yields a token is not blank, so the button guard never hides a run that would check something |
| Tokenizer.LoneDelimiterIsNotBlank | app/page.tsx:116 | the converse fails: `","` is not blank (the button is enabled) yet has no token |
| Tokenizer.SpaceDoesNotSplit | app/page.tsx:34-36 | a space is not a delimiter: `"30672-220 01001-000"` is one token |
| Tokenizer.MixedDelimiters | app/page.tsx:35-38 | `"30672-220, 00000000\n123"` tokenizes to the three codes without their padding |
| Tokenizer.PastedList | app/page.tsx:35-38 | a pasted list with a space before a comma, a blank line and a final newline gives just its two codes |
| CepCheck.DigitsOnly | app/page.tsx:42 | `replace(/\D/g, "")` keeps only ASCII digits and never lengthens |
| CepCheck.DigitsOnlyAppend | app/page.tsx:42 | the strip works piecewise, so the digits keep their order |
| CepCheck.DigitsOnlyFixedPoint | app/page.tsx:42 | the strip leaves a string unchanged exactly when it is all digits |
| CepCheck.DigitsOnlyIdempotent | app/page.tsx:42 | stripping twice is stripping once |
| CepCheck.DigitsOnlyNoDigits | app/page.tsx:42 | a string without digits strips to the empty string |
| CepCheck.HyphenatedForm | app/page.tsx:42-44 | the written form `NNNNN-NNN` strips to its eight digits |
| CepCheck.RequestUrl | app/page.tsx:52-54 | the URL is the service prefix `https://viacep.com.br/ws/`, then the code, then the suffix `/json/` |
| CepCheck.RequestUrlInjective | app/page.tsx:52-54 | distinct codes are requested at distinct URLs |
| CepCheck.FoundRecord | app/page.tsx:51-82 | a response yields a record exactly when it is a response (no rejection), its status is 200-299, its body decodes and `erro` is not true; the record is the body |
| CepCheck.Classify | app/page.tsx:40-83 | the outcome keeps the token; it is valid exactly when the token has 8 digits and the lookup of that code yields a record, it carries that record when valid, and carries no data when invalid |
| CepCheck.MalformedNeedsNoLookup | app/page.tsx:44-49 | a token without exactly 8 digits is invalid with no data, whatever the service would answer |
| CepCheck.SpacePairIsInvalid | app/page.tsx:44-49 | the token `"30672-220 01001-000"` (two codes joined by a space) is invalid with no data, whatever the service would answer |
| CepCheck.FailuresAreInvalid | app/page.tsx:51-82 | a network error, a non-2xx status, a body that does not decode and `erro: true` each make an 8-digit token invalid with no data |
| CepCheck.ClassifyDependsOnOwnRequest | app/page.tsx:40-83 | a token's outcome depends only on the answer to its own request |
| CepCheck.ClassifyIgnoresFormatting | app/page.tsx:42-83 | tokens with the same digits get the same verdict and record |
| CepCheck.ValidateAll | app/page.tsx:85 | `Promise.all(tokens.map(...))` gives one outcome per token, outcome `i` being token `i`'s |
| CepCheck.ValidateAllAppend | app/page.tsx:85 | validating two batches one after the other gives the outcomes of validating them together |
| CepCheck.ValidateAllIsolated | app/page.tsx:77-85 | one request failing does not change the other tokens' outcomes |
| CepCheck.ThreeOutcomes | app/page.tsx:40-85 | a batch of a found code, an unknown code and a malformed token gives valid, invalid, invalid, in that order |
| CepCheck.ExampleBatch | app/page.tsx:35-85 | the text `"30672-220, 00000000\n123"` with the first code found and the second flagged `erro` gives the outcomes found, not found, malformed |
| Partition.ValidCeps | app/page.tsx:90 | `results.filter(r => r.valid)` holds only valid outcomes, and exactly the valid outcomes of the input |
| Partition.InvalidCeps | app/page.tsx:91 | `results.filter(r => !r.valid)` holds only invalid outcomes, and exactly the invalid outcomes of the input |
| Partition.PartitionCounts | app/page.tsx:90-91 | the two lists' sizes add up to the number of outcomes, and as multisets they add up to the outcomes |
| Partition.PartitionRestores | app/page.tsx:90-91 | each list keeps the input order: interleaving them back by the flags gives the outcomes exactly |
| HomePage.Home.constructor | app/page.tsx:26-28 | the page starts with empty text, idle, with no outcomes |
| HomePage.Home.SetInput | app/page.tsx:111 | the change handler replaces the text and nothing else |
| HomePage.Home.ButtonDisabled | app/page.tsx:116 | the button is disabled exactly while a run is in flight or the text is all whitespace |
| HomePage.Home.StartValidation | app/page.tsx:30-38 | a run marks the page loading, clears the outcomes and captures the text's tokens |
| HomePage.Home.CompleteValidation | app/page.tsx:85-87 | once every lookup has settled, the outcomes are those of the captured tokens and the page is idle again |
| HomePage.Home.ValidateCeps | app/page.tsx:30-88 | a whole run leaves the page idle with one outcome per token of the text, in order, each outcome's input being a token |
| HomePage.Home.Click | app/page.tsx:115-116 | a press on a disabled button changes nothing (no run starts while one is in flight); a press on an enabled one starts a run |

## Left out

- The lookup itself (`fetch`, `response.json()`) is not modelled. It becomes the parameter `fetch` from request URL to `LookupResponse`. A rejected request is `NetworkFailure`. `HttpResponse(status, None)` stands for a body that fails to decode, and also for a JSON `null` body: reading `data.erro` from `null` throws (`app/page.tsx:65`), which the `catch` turns into an invalid outcome just as a decoding failure.
- A body that decodes to JSON that is not an object (an array, a number, a string, `true` or `false`) is not modelled. For such a body `data.erro` is `undefined`, so the source makes the token valid and carries that value as `data` (`app/page.tsx:72-76`). `LookupResponse` only carries record bodies, so `CepCheck.Classify` never produces such an outcome.
- `CepData` keeps the service's fields as typed in the source. Only `erro` is inspected. A JSON `erro` that is not a boolean (for example the string `"true"`, which is also truthy) is not modelled.
- The requests run concurrently and without limit under `Promise.all`. The model has no concurrency, ordering or timing. Each request's answer is a function of its URL, so the same code always gets the same answer within one run.
- `HomePage.Home.CompleteValidation`: all lookups of a run settle in one step. The states in which some requests have answered and others have not are not represented. They are not observable on the page, because `Promise.all` only resolves once every request has settled. Edits to the text during a run are modelled: `SetInput` is allowed while loading, and `pending` keeps the tokens captured when the run started.
- React's batching of state updates and re-rendering are not modelled. `setLoading(true)` and `setResults([])` take effect together in `StartValidation`, and `setResults` and `setLoading(false)` take effect together in `CompleteValidation`.
- The JSX markup and styling (`app/page.tsx:93-192`) are not modelled. The only exception is the button's `disabled` expression.
- Strings are sequences of Unicode scalar values. Lone UTF-16 surrogates, which JavaScript strings may hold, cannot be represented.
