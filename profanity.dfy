/**
 * The profanity filter `sanitize` of main.go: the body is cut at every
 * single space, each piece whose lower-cased form is exactly one of the
 * three banned words is replaced by four asterisks, and the pieces are put
 * back together with single spaces.
 */
module Profanity {
  import opened Strings

  /** What a banned word is replaced with. */
  const Mask: string := "****"

  /** The fixed banned set that `sanitize` compares against. */
  predicate IsBanned(word: string) {
    word == "kerfuffle" || word == "sharbert" || word == "fornax"
  }

  /** The body of the loop in `sanitize`, for one piece. */
  function Censor(token: string): (r: string)
    ensures r == token || r == Mask
  {
    if IsBanned(ToLower(token)) then Mask else token
  }

  /** `Censor` applied to every piece, in place. */
  function CensorAll(tokens: seq<string>): seq<string> {
    seq(|tokens|, i requires 0 <= i < |tokens| => Censor(tokens[i]))
  }

  /** `sanitize(input)` as split, censor each piece, join. */
  function Sanitize(input: string): (r: string)
    ensures Count(Space, r) == Count(Space, input)
  {
    CensorAllSpaceFree(Split(input));
    JoinCount(CensorAll(Split(input)));
    SplitCount(input);
    Join(CensorAll(Split(input)))
  }

  /**
   * The imperative `sanitize`: split, overwrite the banned pieces of the
   * slice one by one, join.
   */
  method SanitizeInPlace(input: string) returns (output: string)
    ensures output == Sanitize(input)
  {
    var tokens := Split(input);
    var substrings := new string[|tokens|](i requires 0 <= i < |tokens| => tokens[i]);
    for i := 0 to substrings.Length
      invariant forall k :: 0 <= k < i ==> substrings[k] == Censor(tokens[k])
      invariant forall k :: i <= k < substrings.Length ==> substrings[k] == tokens[k]
    {
      var compareString := ToLower(substrings[i]);
      if IsBanned(compareString) {
        substrings[i] := Mask;
      }
    }
    assert substrings[..] == CensorAll(tokens);
    output := Join(substrings[..]);
  }

  /**
   * A piece is changed exactly when its lower-cased form is a banned word,
   * and then it becomes the mask; otherwise it is kept as it was.
   */
  lemma CensorWholeToken(token: string)
    ensures Censor(token) != token <==> IsBanned(ToLower(token))
    ensures Censor(token) != token ==> Censor(token) == Mask
  {
    assert ToLower(Mask) == Mask;
  }

  /** Only a piece as long as a banned word, and made of ASCII, can match. */
  lemma BannedShape(token: string)
    requires IsBanned(ToLower(token))
    ensures |token| == 9 || |token| == 8 || |token| == 6
    ensures IsAscii(token)
  {
    ToLowerKeepsNonAscii(token);
    assert IsAscii(ToLower(token));
  }

  /** The mask is not banned, so censoring twice changes nothing. */
  lemma CensorIdempotent(token: string)
    ensures Censor(Censor(token)) == Censor(token)
  {
    assert ToLower(Mask) == Mask;
  }

  /** No piece of the result contains a space. */
  lemma CensorAllSpaceFree(tokens: seq<string>)
    requires forall t :: t in tokens ==> Space !in t
    ensures forall t :: t in CensorAll(tokens) ==> Space !in t
  {
    forall t | t in CensorAll(tokens) ensures Space !in t {
      var i :| 0 <= i < |tokens| && CensorAll(tokens)[i] == t;
      assert tokens[i] in tokens;
    }
  }

  /**
   * `sanitize` keeps the number and the order of the pieces, empty ones
   * included: piece i of the result is piece i of the input, censored.
   */
  lemma SanitizeKeepsTokens(input: string)
    ensures Split(Sanitize(input)) == CensorAll(Split(input))
    ensures |Split(Sanitize(input))| == |Split(input)|
  {
    CensorAllSpaceFree(Split(input));
    SplitJoin(CensorAll(Split(input)));
  }

  /** Sanitizing a sanitized string changes nothing. */
  lemma SanitizeIdempotent(input: string)
    ensures Sanitize(Sanitize(input)) == Sanitize(input)
  {
    var once := CensorAll(Split(input));
    SanitizeKeepsTokens(input);
    forall i | 0 <= i < |once| ensures CensorAll(once)[i] == once[i] {
      CensorIdempotent(Split(input)[i]);
    }
    assert CensorAll(once) == once;
  }

  /** Without a space the input is one piece: it comes back whole or masked. */
  lemma SanitizeSingleToken(input: string)
    requires Space !in input
    ensures Sanitize(input) == Censor(input)
    ensures Sanitize(input) == input || Sanitize(input) == Mask
  {
    SplitJoin([input]);
    JoinSplit(input);
    assert Split(input) == [input];
  }

  /** Masking never lengthens a body, counted in bytes as Go's `len` does. */
  lemma SanitizeNoLonger(input: string)
    ensures Utf8Len(Sanitize(input)) <= Utf8Len(input)
  {
    var tokens := Split(input);
    forall i | 0 <= i < |tokens| ensures Utf8Len(Censor(tokens[i])) <= Utf8Len(tokens[i]) {
      if IsBanned(ToLower(tokens[i])) {
        BannedShape(tokens[i]);
        Utf8LenAscii(tokens[i]);
        Utf8LenAscii(Mask);
      }
    }
    JoinNoLonger(tokens, CensorAll(tokens));
    JoinSplit(input);
  }

  /** Case does not matter: a capitalised banned word is masked. */
  lemma SanitizeCapitalised()
    ensures Sanitize("Kerfuffle") == Mask
  {
    var t := "Kerfuffle";
    assert Space !in t;
    assert ToLower(t) == "kerfuffle";
    SanitizeSingleToken(t);
  }

  /** Matching is on whole pieces: a longer word is left alone. */
  lemma SanitizeLongerWord()
    ensures Sanitize("kerfuffles") == "kerfuffles"
  {
    var t := "kerfuffles";
    assert Space !in t;
    assert !IsBanned(ToLower(t)) by { assert |ToLower(t)| == 10; }
    SanitizeSingleToken(t);
  }

  /**
   * On any text built from space-free pieces, `sanitize` works piece by
   * piece: `a  kerfuffle b`, the pieces `a`, the empty piece, `kerfuffle`
   * and `b`, becomes the join of `a`, the empty piece, `****` and `b`.
   */
  lemma SanitizeJoin(pieces: seq<string>)
    requires |pieces| >= 1
    requires forall t :: t in pieces ==> Space !in t
    ensures Sanitize(Join(pieces)) == Join(CensorAll(pieces))
  {
    SplitJoin(pieces);
  }
}
