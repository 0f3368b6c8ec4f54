# Chirpy core: profanity filter, chirp validation, hit counter

A Dafny model of the logic in `main.go` of the Chirpy HTTP API:

- **Profanity filter** (`sanitize`): the chirp body is cut at every single
  space, every piece whose lower-cased form is exactly `kerfuffle`,
  `sharbert` or `fornax` is overwritten with `****`, and the pieces are
  joined again with single spaces. Modelled twice: as the specification
  `Profanity.Sanitize` (split, censor each piece, join) and as the loop
  `Profanity.SanitizeInPlace` that overwrites the pieces of an array one by
  one, proved equal to it.
- **Chirp validation** (`validationHandler`): a decode error answers 500
  with no body; a body longer than 140 bytes answers 400 with
  `{"error": "Chirp is too long"}`; any other body answers 200 with its
  sanitized form as `cleaned_body`. `Validation.ValidateChirp` maps the
  decoder's result to the status and the `returnVals` struct that is
  marshalled; `Validation.JsonKeys` gives the keys that the `omitempty`
  tags let through.
- **Hit counter** (`apiConfig.fileserverHits`, `middlewareMetricsInc`,
  `metricsHandler`, `resetHandler`): the class `Metrics.ApiConfig` holds the
  32-bit counter and a ghost trace of increments, resets and hand-offs to
  the wrapped handler; its invariant says the counter is the number of
  increments since the last reset, wrapped to 32 bits. The admin page text
  is modelled exactly, with a reader (`Metrics.ParseReport`) proved to
  recover the count from it.

Modules: `Wrappers` (Option), `Strings` (the parts of Go's `strings`
package and of `len` that the core uses), `Profanity`, `Validation`,
`Decimal` (the `%d` verb of `fmt.Sprintf`), `Metrics`.

Go strings are byte strings, and `len` counts bytes. The body reaching
`sanitize` has come out of the JSON decoder, which always yields valid
UTF-8, so the model keeps it as a sequence of Unicode scalar values and
computes Go's `len` as the UTF-8 length (`Strings.Utf8Len`). The 140 limit
is therefore on bytes: 70 copies of `é` pass and 71 do not.

Behaviour of the code worth noting:

- the banned words are a fixed set;
- a decode error answers 500 with no body;
- an accepted chirp answers with `cleaned_body` only;
- because of `omitempty`, an empty body (or a request without a `body`
  field, which decodes to the empty string) is accepted and answered with
  `{}` (`Validation.EmptyBodyWritesNoKeys`);
- the counter is a 32-bit integer that wraps: the 2^31-th increment after a
  reset makes it, and the admin page, negative (`Metrics.Wrap32Overflow`).

## Model

| member | source | states |
|---|---|---|
| `Strings.Split` | main.go:40 | `strings.Split(s, " ")` always gives at least one piece and no piece contains a space |
| `Strings.SplitCount` | main.go:40 | the number of pieces is the number of spaces plus one, so consecutive spaces give empty pieces |
| `Strings.JoinSplit` | main.go:40-53 | joining the pieces with single spaces gives back the input exactly |
| `Strings.SplitJoin` | main.go:40-53 | splitting a join of space-free pieces gives back the same pieces |
| `Strings.Join` | main.go:53 | `strings.Join(ts, " ")`: a join of two or more pieces contains the separator |
| `Strings.JoinCount` | main.go:53 | joining space-free pieces puts exactly one space between each two, so the result has one space fewer than pieces |
| `Strings.LowerChar` | main.go:44 | under ASCII lowering, a character changes exactly when it is `A`..`Z`, and no upper-case letter is left |
| `Strings.ToLower` | main.go:44 | under ASCII lowering, the length is kept and no upper-case letter is left |
| `Strings.ToLowerIdempotent` | main.go:44 | under ASCII lowering, lower-casing twice is lower-casing once |
| `Strings.ToLowerKeepsNonAscii` | main.go:44 | under ASCII lowering, lower-casing neither adds nor removes non-ASCII characters |
| `Strings.Utf8Len` | main.go:88 | Go's `len` is between the number of characters and four times it |
| `Strings.Utf8LenAscii` | main.go:88 | byte length equals character count exactly when the text is ASCII |
| `Strings.Utf8LenAppend` | main.go:88 | byte length is additive over concatenation |
| `Strings.Utf8LenRepeat` | main.go:88 | n copies of a character take n times its byte width |
| `Strings.JoinNoLonger` | main.go:53 | joining pieces that are each no longer gives a joined string no longer |
| `Profanity.Censor` | main.go:44-50 | one piece comes out either unchanged or as exactly `****` |
| `Profanity.Sanitize` | main.go:38-57 | `sanitize` as split, censor each piece, join: the output has exactly as many spaces as the input |
| `Profanity.SanitizeInPlace` | main.go:38-57 | the loop that overwrites banned pieces in the array returns exactly `Sanitize(input)` |
| `Profanity.CensorWholeToken` | main.go:44-50 | a piece changes if and only if its lower-cased form is a banned word, and then it becomes `****` |
| `Profanity.BannedShape` | main.go:44-46 | under ASCII lowering, only an ASCII piece of exactly 9, 8 or 6 characters can match, so no partial-word match |
| `Profanity.CensorIdempotent` | main.go:44-48 | censoring a censored piece changes nothing, since `****` is not banned |
| `Profanity.CensorAllSpaceFree` | main.go:40-50 | censoring space-free pieces leaves them space-free |
| `Profanity.SanitizeKeepsTokens` | main.go:40-53 | the output has the same number of pieces as the input and piece i of the output is piece i of the input censored, empty pieces included |
| `Profanity.SanitizeIdempotent` | main.go:38-57 | sanitizing twice is sanitizing once |
| `Profanity.SanitizeSingleToken` | main.go:40-53 | an input without a space comes back unchanged or as exactly `****` |
| `Profanity.SanitizeNoLonger` | main.go:44-53 | the output is never longer in bytes than the input |
| `Profanity.SanitizeCapitalised` | main.go:44-48 | `Kerfuffle` is masked: the match ignores case |
| `Profanity.SanitizeLongerWord` | main.go:44-50 | `kerfuffles` is left unchanged: the match is on whole pieces |
| `Profanity.SanitizeJoin` | main.go:40-53 | on any join of space-free pieces, the output is the join of the censored pieces, so `a  kerfuffle b` becomes `a  **** b` with its double space kept |
| `Validation.ValidateChirp` | main.go:66-112 | the handler answers 200, 400 or 500, and writes no body exactly when it answers 500 |
| `Validation.JsonKeys` | main.go:80-83 | the `omitempty` tags: `cleaned_body` is written exactly when non-empty, `error` exactly when non-empty, and no other key |
| `Validation.DecodeFailureOnly` | main.go:73-78 | status 500 happens if and only if decoding failed, and then nothing is written |
| `Validation.TooLongIff` | main.go:88-98 | status 400 if and only if the body is over 140 bytes, with only the error key `Chirp is too long` |
| `Validation.AcceptedIff` | main.go:88-111 | status 200 if and only if the body is at most 140 bytes, with `cleaned_body` equal to the sanitized body and no error key |
| `Validation.NeverErrorAndBody` | main.go:80-111 | no response carries both `error` and `cleaned_body` |
| `Validation.LengthBoundary` | main.go:88 | 140 ASCII letters pass and 141 fail; 70 two-byte letters pass and 71 fail |
| `Validation.ResubmitCleaned` | main.go:88-111 | the cleaned body of an accepted chirp is itself accepted with the same cleaned body |
| `Validation.EmptyBodyWritesNoKeys` | main.go:80-111 | an empty body is accepted and the JSON written has no keys |
| `Decimal.DigitChar` | main.go:118 | a digit value below ten prints as a decimal digit |
| `Decimal.FormatNat` | main.go:118 | `%d` of a natural number is a non-empty run of digits without a leading zero |
| `Decimal.DigitsValueFormat` | main.go:118 | the digits printed for n have the value n |
| `Decimal.FormatInt` | main.go:118 | `%d` starts with a minus sign exactly for negative numbers and is otherwise made of digits |
| `Decimal.FormatIntRoundTrip` | main.go:118 | reading back what `%d` prints gives the number, negative ones included |
| `Metrics.Wrap32` | main.go:19-25 | the counter's value is an int32 congruent to the true count modulo 2^32 |
| `Metrics.Wrap32Unique` | main.go:19-25 | that int32 is unique |
| `Metrics.Wrap32Identity` | main.go:19 | a count that fits in an int32 is not changed |
| `Metrics.Wrap32AddOne` | main.go:25 | `Add(1)` on the wrapped value is the wrap of the count plus one |
| `Metrics.Wrap32Overflow` | main.go:19-25 | the 2^31-th increment makes the counter negative |
| `Metrics.HitsSinceReset` | main.go:19-25 | the counter's abstract value: never more than the increments recorded, and exactly their number when no reset was recorded |
| `Metrics.HitsAfterIncrements` | main.go:23-27 | n more increments without a reset add exactly n to the count |
| `Metrics.HitsAfterReset` | main.go:127-129 | after a reset only the increments that follow it are counted |
| `Metrics.CountAfterReset` | main.go:114-129 | after a reset and n < 2^31 increments the counter reads exactly n |
| `Metrics.MetricsPage` | main.go:118 | the admin page is the fixed HTML opening, the count, then the fixed HTML closing |
| `Metrics.ReportRoundTrip` | main.go:116-118 | the admin page carries the exact count, which reads back from it |
| `Metrics.ApiConfig.Valid` | main.go:19-25 | the counter's invariant: the field equals the increments since the last reset wrapped to 32 bits, hence congruent to them modulo 2^32 |
| `Metrics.ApiConfig.constructor` | main.go:159-162 | the counter starts at zero with nothing recorded |
| `Metrics.ApiConfig.Inc` | main.go:25 | adds one (wrapping), records one increment and keeps the invariant |
| `Metrics.ApiConfig.Load` | main.go:116 | returns the counter without changing anything: the increments since the last reset, wrapped |
| `Metrics.ApiConfig.Reset` | main.go:129 | stores zero and records a reset, keeping the invariant |
| `Metrics.ApiConfig.MiddlewareMetricsInc` | main.go:23-27 | exactly one increment, then exactly one call of the wrapped handler, whose response is returned unchanged |
| `Metrics.ApiConfig.MetricsHandler` | main.go:114-125 | answers 200 with the admin page for the current count, from which the count reads back, and changes nothing |
| `Metrics.ApiConfig.ResetHandler` | main.go:127-137 | sets the counter to zero and answers 200 `Reset successful` |

## Left out

- HTTP plumbing: response headers and content types, `WriteHeader`/`Write` as I/O, route registration on the `ServeMux`, the file server behind `StripPrefix`, `healthCheck`, `ListenAndServe` and `main` (main.go:30-36, 139-182). Requests and responses are reduced to `Metrics.Request` and `Metrics.Response`; the wrapped handler is a function parameter.
- JSON decoding: the decoder's result is an input (`Validation.Decoded`), parsed body or failure. JSON encoding: only which keys `omitempty` writes is modelled, not the escaped text.
- The 500 fallbacks taken when `json.Marshal` fails (main.go:91-95, 104-108): marshalling a struct of two strings cannot fail.
- The database handle, `godotenv.Load`, `os.Getenv` and `sql.Open` (main.go:141-147): external collaborators with no decision logic here.
- The error log line on a decode failure (main.go:75).
- Atomicity: the counter's operations are modelled sequentially on a plain field; concurrent callers and the linearizability of `atomic.Int32` are not.
- Strings.LowerChar: lower-cases ASCII letters only. Go's `strings.ToLower` applies Unicode case mapping; for example the Kelvin sign U+212A lowers to `k`, so a `kerfuffle` spelt with it is masked by Go and not by the model.
