/** UTF-8 well-formedness of byte sequences, following the syntax of
    section 4 of RFC 3629:

      UTF8-octets = *( UTF8-char )
      UTF8-char   = UTF8-1 / UTF8-2 / UTF8-3 / UTF8-4

    This is the representation invariant of Rust's `str`: the bytes of every
    `&str` form UTF8-octets. */
module Utf8 {

  newtype byte = b: int | 0 <= b < 0x100

  /** UTF8-tail = %x80-BF */
  predicate IsTail(b: byte) {
    0x80 <= b <= 0xBF
  }

  /** `c` is exactly one UTF8-char: one of the four alternatives UTF8-1 .. UTF8-4
      of RFC 3629 section 4, which exclude overlong forms, the surrogates
      U+D800..U+DFFF and everything above U+10FFFF. */
  predicate IsChar(c: seq<byte>)
    ensures IsChar(c) ==> 1 <= |c| <= 4 && !IsTail(c[0])
    ensures IsChar(c) ==> forall k :: 1 <= k < |c| ==> IsTail(c[k])
  {
    || (|c| == 1 && c[0] <= 0x7F)
    || (|c| == 2 && 0xC2 <= c[0] <= 0xDF && IsTail(c[1]))
    || (|c| == 3 && IsTail(c[2]) &&
        (|| (c[0] == 0xE0 && 0xA0 <= c[1] <= 0xBF)
         || (0xE1 <= c[0] <= 0xEC && IsTail(c[1]))
         || (c[0] == 0xED && 0x80 <= c[1] <= 0x9F)
         || (0xEE <= c[0] <= 0xEF && IsTail(c[1]))))
    || (|c| == 4 && IsTail(c[2]) && IsTail(c[3]) &&
        (|| (c[0] == 0xF0 && 0x90 <= c[1] <= 0xBF)
         || (0xF1 <= c[0] <= 0xF3 && IsTail(c[1]))
         || (c[0] == 0xF4 && 0x80 <= c[1] <= 0x8F)))
  }

  /** The length of the UTF8-char that `s` begins with, or 0 when no prefix
      of `s` is a UTF8-char. */
  function CharWidth(s: seq<byte>): (w: nat)
    ensures w <= 4 && w <= |s|
    ensures w > 0 ==> IsChar(s[..w])
    ensures forall k :: 0 < k <= |s| && (w == 0 || k < w) ==> !IsChar(s[..k])
  {
    if |s| >= 1 && IsChar(s[..1]) then 1
    else if |s| >= 2 && IsChar(s[..2]) then 2
    else if |s| >= 3 && IsChar(s[..3]) then 3
    else if |s| >= 4 && IsChar(s[..4]) then 4
    else 0
  }

  /** `s` is UTF8-octets: read front to back, it splits into UTF8-chars. */
  predicate WellFormed(s: seq<byte>)
    ensures |s| == 0 ==> WellFormed(s)
    ensures WellFormed(s) && |s| > 0 ==> CharWidth(s) > 0 && !IsTail(s[0])
    decreases |s|
  {
    if |s| == 0 then true
    else
      var w := CharWidth(s);
      w > 0 && WellFormed(s[w..])
  }

  /** The concatenation of a sequence of byte strings. */
  function Flatten(cs: seq<seq<byte>>): (s: seq<byte>)
    decreases |cs|
  {
    if |cs| == 0 then [] else cs[0] + Flatten(cs[1..])
  }

  predicate AllChars(cs: seq<seq<byte>>) {
    forall i :: 0 <= i < |cs| ==> IsChar(cs[i])
  }

  /** The UTF8-chars a well-formed sequence consists of, in order. */
  function Chars(s: seq<byte>): (cs: seq<seq<byte>>)
    requires WellFormed(s)
    ensures AllChars(cs) && Flatten(cs) == s
    decreases |s|
  {
    if |s| == 0 then []
    else
      var w := CharWidth(s);
      assert s == s[..w] + s[w..];
      [s[..w]] + Chars(s[w..])
  }

  /** Decoding the first character only looks at that character's bytes:
      appending bytes does not change where the first UTF8-char ends. */
  lemma CharWidthPrefix(s: seq<byte>, t: seq<byte>)
    requires CharWidth(s) > 0
    ensures CharWidth(s + t) == CharWidth(s)
  {
    var w := CharWidth(s);
    assert (s + t)[..w] == s[..w];
    forall k | 0 < k < w
      ensures !IsChar((s + t)[..k])
    {
      assert (s + t)[..k] == s[..k];
    }
  }

  /** Dropping the first `k` bytes of `a + b`, where `k <= |a|`, drops them from `a`. */
  lemma DropConcat(a: seq<byte>, b: seq<byte>, k: nat)
    requires k <= |a|
    ensures (a + b)[k..] == a[k..] + b
  {
    assert |(a + b)[k..]| == |a[k..] + b|;
    forall i | 0 <= i < |a[k..] + b|
      ensures (a + b)[k..][i] == (a[k..] + b)[i]
    {
      if i < |a| - k {
        assert (a + b)[k..][i] == a[k + i];
      } else {
        assert (a + b)[k..][i] == b[i - (|a| - k)];
      }
    }
  }

  /** No UTF8-char is a proper prefix of another (the lead byte fixes the length),
      so a single UTF8-char is read as exactly one character. */
  lemma CharWellFormed(c: seq<byte>)
    requires IsChar(c)
    ensures CharWidth(c) == |c|
    ensures WellFormed(c)
  {
    assert c[..|c|] == c;
    assert c[|c|..] == [];
  }

  /** Concatenating two UTF-8 strings gives a UTF-8 string: the join point is a
      character boundary of both, so no character is cut. */
  lemma {:induction false} ConcatWellFormed(a: seq<byte>, b: seq<byte>)
    requires WellFormed(a) && WellFormed(b)
    ensures WellFormed(a + b)
    decreases |a|
  {
    if |a| == 0 {
      assert a + b == b;
    } else {
      var w := CharWidth(a);
      CharWidthPrefix(a, b);
      DropConcat(a, b, w);
      ConcatWellFormed(a[w..], b);
    }
  }

  /** Cutting a UTF-8 string after a UTF-8 prefix leaves a UTF-8 suffix: the
      boundary a splitting producer respects is a character boundary. */
  lemma {:induction false} SuffixWellFormed(a: seq<byte>, b: seq<byte>)
    requires WellFormed(a) && WellFormed(a + b)
    ensures WellFormed(b)
    decreases |a|
  {
    if |a| == 0 {
      assert a + b == b;
    } else {
      var w := CharWidth(a);
      CharWidthPrefix(a, b);
      DropConcat(a, b, w);
      SuffixWellFormed(a[w..], b);
    }
  }

  /** Any concatenation of UTF8-chars is UTF-8 (the grammar's `*( UTF8-char )`). */
  lemma {:induction false} FlattenWellFormed(cs: seq<seq<byte>>)
    requires AllChars(cs)
    ensures WellFormed(Flatten(cs))
    decreases |cs|
  {
    if |cs| > 0 {
      CharWellFormed(cs[0]);
      FlattenWellFormed(cs[1..]);
      ConcatWellFormed(cs[0], Flatten(cs[1..]));
    }
  }

  /** The recogniser agrees with the grammar: `s` is UTF-8 exactly when it is
      the concatenation of some sequence of UTF8-chars. */
  lemma WellFormedIff(s: seq<byte>)
    ensures WellFormed(s) <==> exists cs :: AllChars(cs) && Flatten(cs) == s
  {
    if WellFormed(s) {
      var cs := Chars(s);
      assert AllChars(cs) && Flatten(cs) == s;
    }
    if exists cs :: AllChars(cs) && Flatten(cs) == s {
      var cs :| AllChars(cs) && Flatten(cs) == s;
      FlattenWellFormed(cs);
    }
  }

  /** Bytes below 0x80 are one-byte characters, so ASCII text is UTF-8. */
  lemma {:induction false} AsciiWellFormed(s: seq<byte>)
    requires forall i :: 0 <= i < |s| ==> s[i] <= 0x7F
    ensures WellFormed(s)
    decreases |s|
  {
    if |s| > 0 {
      assert IsChar(s[..1]);
      AsciiWellFormed(s[1..]);
    }
  }
}
