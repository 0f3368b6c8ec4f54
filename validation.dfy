/**
 * The decision made by `validationHandler` in main.go once the request body
 * has gone through the JSON decoder: a decode error ends the request with
 * status 500 and nothing written; a body of more than 140 bytes is refused
 * with status 400 and an error message; any other body is accepted with
 * status 200 and its sanitized form.
 */
module Validation {
  import opened Wrappers
  import opened Strings
  import opened Profanity

  /** The largest accepted body, in bytes. */
  const MaxChirpLength: nat := 140

  const TooLongMessage: string := "Chirp is too long"

  /** What the JSON decoder made of the request: the `body` field, or an error. */
  datatype Decoded = Parsed(body: string) | DecodeFailure

  /**
   * The `returnVals` struct. An empty string is Go's zero value, which the
   * `omitempty` tags leave out of the JSON text.
   */
  datatype ReturnVals = ReturnVals(cleanedBody: string, error: string)

  /** The status written, and the struct marshalled as the body if any. */
  datatype Outcome = Outcome(status: int, payload: Option<ReturnVals>)

  /** The branches of `validationHandler`. */
  function ValidateChirp(d: Decoded): (o: Outcome)
    ensures o.status == 200 || o.status == 400 || o.status == 500
    ensures o.payload.None? <==> o.status == 500
  {
    match d
    case DecodeFailure => Outcome(500, None)
    case Parsed(body) =>
      if Utf8Len(body) > MaxChirpLength then
        Outcome(400, Some(ReturnVals("", TooLongMessage)))
      else
        Outcome(200, Some(ReturnVals(Sanitize(body), "")))
  }

  /** The keys `json.Marshal` writes for a `returnVals`. */
  function JsonKeys(rv: ReturnVals): (keys: set<string>)
    ensures keys <= {"cleaned_body", "error"}
    ensures "cleaned_body" in keys <==> rv.cleanedBody != ""
    ensures "error" in keys <==> rv.error != ""
  {
    (if rv.cleanedBody != "" then {"cleaned_body"} else {}) +
    (if rv.error != "" then {"error"} else {})
  }

  /** A decode error, and only a decode error, gives 500 with no body. */
  lemma DecodeFailureOnly(d: Decoded)
    ensures ValidateChirp(d).status == 500 <==> d.DecodeFailure?
    ensures d.DecodeFailure? ==> ValidateChirp(d).payload == None
  {
  }

  /** More than 140 bytes, and only that, is refused with the error alone. */
  lemma TooLongIff(body: string)
    ensures ValidateChirp(Parsed(body)).status == 400 <==> Utf8Len(body) > MaxChirpLength
    ensures Utf8Len(body) > MaxChirpLength ==>
      ValidateChirp(Parsed(body)).payload == Some(ReturnVals("", TooLongMessage)) &&
      JsonKeys(ValidateChirp(Parsed(body)).payload.value) == {"error"}
  {
  }

  /**
   * At most 140 bytes, and only that, is accepted: the cleaned body is the
   * sanitized body and no error key is written.
   */
  lemma AcceptedIff(body: string)
    ensures ValidateChirp(Parsed(body)).status == 200 <==> Utf8Len(body) <= MaxChirpLength
    ensures Utf8Len(body) <= MaxChirpLength ==>
      ValidateChirp(Parsed(body)).payload == Some(ReturnVals(Sanitize(body), "")) &&
      "error" !in JsonKeys(ValidateChirp(Parsed(body)).payload.value)
  {
  }

  /** A response never carries both an error and a cleaned body. */
  lemma NeverErrorAndBody(d: Decoded)
    ensures ValidateChirp(d).payload.Some? ==>
      !("error" in JsonKeys(ValidateChirp(d).payload.value) &&
        "cleaned_body" in JsonKeys(ValidateChirp(d).payload.value))
  {
  }

  /**
   * The limit counts bytes: 140 ASCII letters pass and 141 do not, while
   * 71 two-byte letters, only 71 characters long, are already too long.
   */
  lemma LengthBoundary()
    ensures ValidateChirp(Parsed(seq(140, _ => 'a'))).status == 200
    ensures ValidateChirp(Parsed(seq(141, _ => 'a'))).status == 400
    ensures ValidateChirp(Parsed(seq(70, _ => 'é'))).status == 200
    ensures ValidateChirp(Parsed(seq(71, _ => 'é'))).status == 400
  {
    Utf8LenRepeat('a', 140);
    Utf8LenRepeat('a', 141);
    Utf8LenRepeat('é', 70);
    Utf8LenRepeat('é', 71);
  }

  /**
   * An accepted chirp's cleaned body, submitted again, is accepted again
   * with the same cleaned body.
   */
  lemma ResubmitCleaned(body: string)
    requires ValidateChirp(Parsed(body)).status == 200
    ensures ValidateChirp(Parsed(Sanitize(body))) == ValidateChirp(Parsed(body))
  {
    SanitizeNoLonger(body);
    SanitizeIdempotent(body);
  }

  /** An empty body is accepted, and the JSON written is an empty object. */
  lemma EmptyBodyWritesNoKeys()
    ensures ValidateChirp(Parsed("")) == Outcome(200, Some(ReturnVals("", "")))
    ensures JsonKeys(ValidateChirp(Parsed("")).payload.value) == {}
  {
    assert Split("") == [""];
    assert CensorAll([""]) == [""];
  }
}
