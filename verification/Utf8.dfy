/** Byte strings that are UTF-8, by section 4 of RFC 3629. A byte is a character below 256. */
module Utf8Text {

  predicate Tail(c: char) { 0x80 <= c as int <= 0xBF }

  /** The second byte of a three-byte character: no overlong form and no surrogate. */
  predicate SecondOfThree(first: int, c: char) {
    Tail(c) && (first == 0xE0 ==> 0xA0 <= c as int) && (first == 0xED ==> c as int <= 0x9F)
  }

  /** The second byte of a four-byte character: no overlong form and nothing beyond U+10FFFF. */
  predicate SecondOfFour(first: int, c: char) {
    Tail(c) && (first == 0xF0 ==> 0x90 <= c as int) && (first == 0xF4 ==> c as int <= 0x8F)
  }

  /** Bytes in the well-formed character a byte string starts with, 0 if it starts with none. */
  function CharLength(s: string): (n: nat)
    ensures n <= |s| && n <= 4
  {
    if s == [] then 0 else
    var first := s[0] as int;
    if first < 0x80 then 1
    else if 0xC2 <= first <= 0xDF && |s| >= 2 && Tail(s[1]) then 2
    else if 0xE0 <= first <= 0xEF && |s| >= 3 && SecondOfThree(first, s[1]) && Tail(s[2]) then 3
    else if 0xF0 <= first <= 0xF4 && |s| >= 4 && SecondOfFour(first, s[1]) && Tail(s[2]) && Tail(s[3]) then 4
    else 0
  }

  predicate Utf8(s: string)
    decreases |s|
  {
    s == [] || (CharLength(s) > 0 && Utf8(s[CharLength(s)..]))
  }

  // ----- the characters ---------------------------------------------------------------------

  /** A Unicode scalar value: a code point that is no surrogate. */
  predicate Scalar(c: nat) { c < 0x11_0000 && !(0xD800 <= c <= 0xDFFF) }

  function TailOf(c: nat): char { (0x80 + c % 64) as char }

  /** The bytes of a scalar value, by section 3 of RFC 3629: six bits to a byte behind the first. */
  function Encode(c: nat): string
    requires Scalar(c)
  {
    if c < 0x80 then [c as char]
    else if c < 0x800 then [(0xC0 + c / 64) as char, TailOf(c)]
    else if c < 0x1_0000 then [(0xE0 + c / 64 / 64) as char, TailOf(c / 64), TailOf(c)]
    else [(0xF0 + c / 64 / 64 / 64) as char, TailOf(c / 64 / 64), TailOf(c / 64), TailOf(c)]
  }

  lemma {:induction false} SixBits(q: nat, r: nat)
    requires r < 64
    ensures (64 * q + r) / 64 == q && (64 * q + r) % 64 == r
  {}

  /** Text begins with the bytes of a scalar value only as the character that CharLength finds. */
  lemma {:induction false} EncodedStarts(s: string, c: nat)
    requires Scalar(c) && Encode(c) <= s
    ensures CharLength(s) == |Encode(c)|
  {
    var q := c / 64;
    var p := q / 64;
    assert c == 64 * q + c % 64 && q == 64 * p + q % 64 && p == 64 * (p / 64) + p % 64;
    var e := Encode(c);
    assert forall k | 0 <= k < |e| :: s[k] == e[k];
  }

  function Bits(c: char): nat { (c as int - 0x80) % 64 }

  /** The scalar value of the character a text begins with. */
  function Decoded(s: string): nat
    requires CharLength(s) > 0
  {
    var first := s[0] as int;
    var n := CharLength(s);
    if n == 1 then first
    else if n == 2 then 64 * (first - 0xC0) + Bits(s[1])
    else if n == 3 then 64 * (64 * (first - 0xE0) + Bits(s[1])) + Bits(s[2])
    else 64 * (64 * (64 * (first - 0xF0) + Bits(s[1])) + Bits(s[2])) + Bits(s[3])
  }

  lemma {:induction false} TailBits(c: char)
    requires Tail(c)
    ensures c as int == 0x80 + Bits(c)
  {}

  lemma {:induction false} DecodedEncodes(s: string)
    requires CharLength(s) > 0
    ensures Scalar(Decoded(s)) && Encode(Decoded(s)) == s[..CharLength(s)]
  {
    if CharLength(s) == 2 {
      TwoBytes(s);
    } else if CharLength(s) == 3 {
      ThreeBytes(s);
    } else if CharLength(s) == 4 {
      FourBytes(s);
    }
  }

  lemma {:induction false} TwoBytes(s: string)
    requires CharLength(s) == 2
    ensures Scalar(Decoded(s)) && Encode(Decoded(s)) == s[..2]
  {
    hide Bits;
    TailBits(s[1]);
    SixBits(s[0] as int - 0xC0, Bits(s[1]));
  }

  lemma {:induction false} ThreeBytes(s: string)
    requires CharLength(s) == 3
    ensures Scalar(Decoded(s)) && Encode(Decoded(s)) == s[..3]
  {
    hide Bits;
    var (first, b1, b2) := (s[0] as int - 0xE0, Bits(s[1]), Bits(s[2]));
    TailBits(s[1]);
    TailBits(s[2]);
    SixBits(first, b1);
    SixBits(64 * first + b1, b2);
  }

  lemma {:induction false} FourBytes(s: string)
    requires CharLength(s) == 4
    ensures Scalar(Decoded(s)) && Encode(Decoded(s)) == s[..4]
  {
    hide Bits;
    var (first, b1, b2, b3) := (s[0] as int - 0xF0, Bits(s[1]), Bits(s[2]), Bits(s[3]));
    TailBits(s[1]);
    TailBits(s[2]);
    TailBits(s[3]);
    SixBits(first, b1);
    SixBits(64 * first + b1, b2);
    SixBits(64 * (64 * first + b1) + b2, b3);
  }

  /** A text begins with a well-formed character of n bytes exactly when these encode a scalar value. */
  lemma {:induction false} CharIff(s: string, n: nat)
    requires n > 0
    ensures CharLength(s) == n <==> exists c: nat :: Scalar(c) && Encode(c) <= s && |Encode(c)| == n
  {
    hide CharLength, Encode, Scalar;
    if CharLength(s) == n {
      DecodedEncodes(s);
    }
    if c: nat :| Scalar(c) && Encode(c) <= s && |Encode(c)| == n {
      EncodedStarts(s, c);
    }
  }

  /** A text is UTF-8 exactly when it is the bytes of some scalar values, one after another. */
  lemma {:induction false} Utf8Iff(s: string)
    ensures Utf8(s) <==> exists cs: seq<nat> :: AllScalar(cs) && EncodeAll(cs) == s
  {
    if Utf8(s) {
      var cs := Characters(s);
    }
    if cs: seq<nat> :| AllScalar(cs) && EncodeAll(cs) == s {
      EncodedIsUtf8(cs);
    }
  }

  predicate AllScalar(cs: seq<nat>) { forall k | 0 <= k < |cs| :: Scalar(cs[k]) }

  function EncodeAll(cs: seq<nat>): string
    requires AllScalar(cs)
  {
    if cs == [] then "" else Encode(cs[0]) + EncodeAll(cs[1..])
  }

  lemma {:induction false} Characters(s: string) returns (cs: seq<nat>)
    requires Utf8(s)
    ensures AllScalar(cs) && EncodeAll(cs) == s
    decreases |s|
  {
    hide CharLength, Encode, Scalar, Decoded;
    if s == [] {
      cs := [];
    } else {
      DecodedEncodes(s);
      var n := CharLength(s);
      var rest := Characters(s[n..]);
      cs := [Decoded(s)] + rest;
      assert cs[1..] == rest;
      assert s == s[..n] + s[n..];
    }
  }

  lemma {:induction false} EncodedIsUtf8(cs: seq<nat>)
    requires AllScalar(cs)
    ensures Utf8(EncodeAll(cs))
  {
    if cs != [] {
      hide CharLength, Encode, Scalar;
      EncodedIsUtf8(cs[1..]);
      var s := EncodeAll(cs);
      EncodedStarts(s, cs[0]);
      EncodedSome(cs[0]);
      assert s[|Encode(cs[0])|..] == EncodeAll(cs[1..]);
    }
  }

  lemma {:induction false} EncodedSome(c: nat)
    requires Scalar(c)
    ensures |Encode(c)| > 0
  {}

  predicate Ascii(s: string) { forall i | 0 <= i < |s| :: s[i] as int < 0x80 }

  // ----- where a text may be cut -----------------------------------------------------------

  lemma {:induction false} CharAppend(a: string, b: string)
    requires CharLength(a) > 0
    ensures CharLength(a + b) == CharLength(a)
  {}

  lemma {:induction false} CharCut(s: string, k: nat)
    requires 0 < k < CharLength(s)
    ensures Tail(s[k]) && CharLength(s[..k]) == 0
  {}

  lemma {:induction false} CharStarts(s: string)
    requires CharLength(s) > 0
    ensures !Tail(s[0])
  {}

  lemma {:induction false} Utf8Append(a: string, b: string)
    requires Utf8(a)
    ensures Utf8(a + b) <==> Utf8(b)
    decreases |a|
  {
    hide CharLength;
    if a == [] {
      assert a + b == b;
    } else {
      CharAppend(a, b);
      var n := CharLength(a);
      assert (a + b)[n..] == a[n..] + b;
      Utf8Append(a[n..], b);
    }
  }

  /** A prefix of UTF-8 text is UTF-8 exactly when the text ends there or goes on with a new character. */
  lemma {:induction false} PrefixIff(s: string, k: nat)
    requires Utf8(s) && k <= |s|
    ensures Utf8(s[..k]) <==> k == |s| || !Tail(s[k])
    decreases |s|
  {
    hide CharLength;
    if k == |s| {
      assert s[..k] == s;
    } else if k == 0 {
      CharStarts(s);
    } else {
      var n := CharLength(s);
      if k < n {
        CharCut(s, k);
      } else {
        PrefixIff(s[n..], k - n);
        assert s[..k] == s[..n] + s[n..][..k - n];
        FirstChar(s);
        Utf8Append(s[..n], s[n..][..k - n]);
      }
    }
  }

  lemma {:induction false} CharAlone(s: string)
    requires CharLength(s) > 0
    ensures CharLength(s[..CharLength(s)]) == CharLength(s)
  {}

  lemma {:induction false} FirstChar(s: string)
    requires CharLength(s) > 0
    ensures Utf8(s[..CharLength(s)])
  {
    var c := s[..CharLength(s)];
    assert CharLength(c) == |c|;
    assert c[|c|..] == [];
  }

  // ----- texts between ASCII separators ------------------------------------------------------

  lemma {:induction false} AsciiIsUtf8(s: string)
    requires Ascii(s)
    ensures Utf8(s)
  {
    if s != [] {
      AsciiIsUtf8(s[1..]);
    }
  }

  lemma {:induction false} BehindAscii(t: string, y: string)
    requires Ascii(t)
    ensures Utf8(t + y) <==> Utf8(y)
  {
    AsciiIsUtf8(t);
    Utf8Append(t, y);
  }

  /** An ASCII separator separates characters: both sides must be UTF-8 by themselves. */
  lemma {:induction false} Separated(x: string, t: string, y: string)
    requires Ascii(t) && t != []
    ensures Utf8(x + t + y) <==> Utf8(x) && Utf8(y)
  {
    hide Utf8, CharLength;
    var s := x + t + y;
    assert s == x + (t + y);
    BehindAscii(t, y);
    if Utf8(s) {
      PrefixIff(s, |x|);
      assert s[|x|] == t[0] && s[..|x|] == x;
    }
    if Utf8(x) {
      Utf8Append(x, t + y);
    }
  }
}
