/**
 * The parts of Go's `strings` package and of its `len` built-in that the
 * chirp core relies on: splitting on a single space, joining with a single
 * space, ASCII lower-casing and the byte length of a UTF-8 string.
 *
 * A Go string that came out of the JSON decoder is valid UTF-8, so it is
 * modelled as the sequence of its Unicode scalar values (`string` in Dafny);
 * `Utf8Len` gives back the number of bytes Go's `len` counts.
 */
module Strings {

  /** The delimiter `sanitize` splits on and joins with. */
  const Space: char := ' '

  /** Number of bytes UTF-8 uses for one scalar value. */
  function Utf8Width(c: char): (w: nat)
    ensures 1 <= w <= 4
    ensures w == 1 <==> c as int < 0x80
  {
    var n := c as int;
    if n < 0x80 then 1
    else if n < 0x800 then 2
    else if n < 0x1_0000 then 3
    else 4
  }

  /** Go's `len(s)`: the length of `s` in bytes once encoded as UTF-8. */
  function Utf8Len(s: string): (n: nat)
    ensures |s| <= n <= 4 * |s|
  {
    if s == [] then 0 else Utf8Width(s[0]) + Utf8Len(s[1..])
  }

  predicate IsAscii(s: string) {
    forall i :: 0 <= i < |s| ==> s[i] as int < 0x80
  }

  lemma {:induction false} Utf8LenAppend(a: string, b: string)
    ensures Utf8Len(a + b) == Utf8Len(a) + Utf8Len(b)
  {
    if a == [] {
      assert a + b == b;
    } else {
      assert (a + b)[0] == a[0] && (a + b)[1..] == a[1..] + b;
      Utf8LenAppend(a[1..], b);
    }
  }

  /** On ASCII text, bytes and characters coincide. */
  lemma {:induction false} Utf8LenAscii(s: string)
    ensures Utf8Len(s) == |s| <==> IsAscii(s)
  {
    if s != [] {
      Utf8LenAscii(s[1..]);
      if !IsAscii(s[1..]) {
        var i :| 0 <= i < |s[1..]| && s[1..][i] as int >= 0x80;
        assert s[i + 1] as int >= 0x80;
      }
    }
  }

  /** A run of `n` copies of `c` takes `n` times the width of `c`. */
  lemma {:induction false} Utf8LenRepeat(c: char, n: nat)
    ensures Utf8Len(seq(n, _ => c)) == n * Utf8Width(c)
  {
    if n > 0 {
      assert seq(n, _ => c)[1..] == seq(n - 1, _ => c);
      Utf8LenRepeat(c, n - 1);
    }
  }

  /** `unicode.ToLower` restricted to ASCII: only 'A'..'Z' change. */
  function LowerChar(c: char): (r: char)
    ensures r != c <==> 'A' <= c <= 'Z'
    ensures !('A' <= r <= 'Z')
  {
    if 'A' <= c <= 'Z' then (c as int + 32) as char else c
  }

  /** `strings.ToLower`, character by character. */
  function ToLower(s: string): (r: string)
    ensures |r| == |s|
    ensures forall i :: 0 <= i < |r| ==> !('A' <= r[i] <= 'Z')
  {
    seq(|s|, i requires 0 <= i < |s| => LowerChar(s[i]))
  }

  /** Lower-casing never adds or removes a non-ASCII character. */
  lemma ToLowerKeepsNonAscii(s: string)
    ensures IsAscii(ToLower(s)) <==> IsAscii(s)
  {
    assert forall i :: 0 <= i < |s| ==> (ToLower(s)[i] as int < 0x80 <==> s[i] as int < 0x80);
  }

  /** Lower-casing twice is lower-casing once. */
  lemma ToLowerIdempotent(s: string)
    ensures ToLower(ToLower(s)) == ToLower(s)
  {
    var once := ToLower(s);
    forall i | 0 <= i < |s| ensures ToLower(once)[i] == once[i] {
      assert !('A' <= once[i] <= 'Z');
    }
  }

  /** Number of occurrences of `c` in `s`. */
  function Count(c: char, s: string): (n: nat)
    ensures n == multiset(s)[c]
  {
    if s == [] then 0
    else
      assert s == [s[0]] + s[1..];
      (if s[0] == c then 1 else 0) + Count(c, s[1..])
  }

  /**
   * `strings.Split(s, " ")`: the pieces of `s` between single spaces, in
   * order. Consecutive spaces give empty pieces, and the empty string is
   * one empty piece.
   */
  function Split(s: string): (r: seq<string>)
    ensures |r| >= 1
    ensures forall t :: t in r ==> Space !in t
  {
    if s == [] then [[]]
    else
      var rest := Split(s[1..]);
      if s[0] == Space then [[]] + rest
      else [[s[0]] + rest[0]] + rest[1..]
  }

  /** `strings.Join(ts, " ")`. */
  function Join(ts: seq<string>): (r: string)
    ensures |ts| >= 2 ==> Space in r
  {
    if |ts| == 0 then []
    else if |ts| == 1 then ts[0]
    else
      assert (ts[0] + [Space] + Join(ts[1..]))[|ts[0]|] == Space;
      ts[0] + [Space] + Join(ts[1..])
  }

  /** Joining space-free pieces puts in exactly one space between each two. */
  lemma {:induction false} JoinCount(ts: seq<string>)
    requires |ts| >= 1
    requires forall t :: t in ts ==> Space !in t
    ensures Count(Space, Join(ts)) == |ts| - 1
  {
    assert ts[0] in ts;
    if |ts| > 1 {
      assert forall t :: t in ts[1..] ==> t in ts;
      JoinCount(ts[1..]);
    }
  }

  /** One more space, one more piece. */
  lemma {:induction false} SplitCount(s: string)
    ensures |Split(s)| == Count(Space, s) + 1
  {
    if s != [] {
      SplitCount(s[1..]);
    }
  }

  /** Joining the pieces gives back the original string. */
  lemma {:induction false} JoinSplit(s: string)
    ensures Join(Split(s)) == s
  {
    if s != [] {
      var rest := Split(s[1..]);
      JoinSplit(s[1..]);
      if s[0] == Space {
        assert ([[]] + rest)[1..] == rest;
      } else {
        var ts := [[s[0]] + rest[0]] + rest[1..];
        if |rest| == 1 {
          assert ts == [[s[0]] + rest[0]];
        } else {
          assert ts[1..] == rest[1..];
          assert Join(rest) == rest[0] + [Space] + Join(rest[1..]);
        }
      }
    }
  }

  /** A space-free prefix becomes part of the first piece. */
  lemma {:induction false} SplitSpaceFreePrefix(a: string, b: string)
    requires Space !in a
    ensures Split(a + b) == [a + Split(b)[0]] + Split(b)[1..]
  {
    var sb := Split(b);
    if a == [] {
      assert a + b == b && a + sb[0] == sb[0];
      assert sb == [sb[0]] + sb[1..];
    } else {
      assert (a + b)[0] == a[0] && (a + b)[1..] == a[1..] + b;
      assert a[0] != Space by { assert a[0] in a; }
      SplitSpaceFreePrefix(a[1..], b);
      assert [a[0]] + (a[1..] + sb[0]) == a + sb[0];
    }
  }

  /** Splitting undoes joining, for pieces without spaces. */
  lemma {:induction false} SplitJoin(ts: seq<string>)
    requires |ts| >= 1
    requires forall t :: t in ts ==> Space !in t
    ensures Split(Join(ts)) == ts
  {
    if |ts| == 1 {
      SplitSpaceFreePrefix(ts[0], []);
      assert ts[0] + [] == ts[0];
    } else {
      var tail := Join(ts[1..]);
      SplitJoin(ts[1..]);
      var spaced := [Space] + tail;
      assert spaced[0] == Space && spaced[1..] == tail;
      assert Split(spaced) == [[]] + Split(tail);
      assert ts[0] + [Space] + tail == ts[0] + spaced;
      SplitSpaceFreePrefix(ts[0], spaced);
      assert ts[0] + [] == ts[0];
      assert ts == [ts[0]] + ts[1..];
    }
  }

  /** Joining pieces that are each no longer gives a string that is no longer. */
  lemma {:induction false} JoinNoLonger(ts: seq<string>, us: seq<string>)
    requires |us| == |ts|
    requires forall i :: 0 <= i < |ts| ==> Utf8Len(us[i]) <= Utf8Len(ts[i])
    ensures Utf8Len(Join(us)) <= Utf8Len(Join(ts))
  {
    if |ts| > 1 {
      JoinNoLonger(ts[1..], us[1..]);
      Utf8LenAppend(ts[0] + [Space], Join(ts[1..]));
      Utf8LenAppend(ts[0], [Space]);
      Utf8LenAppend(us[0] + [Space], Join(us[1..]));
      Utf8LenAppend(us[0], [Space]);
    }
  }
}
