/** The 32-bit packet fingerprint of the event log and its hexadecimal form. */
module PacketHash {
  import opened Numerals
  import Words64

  type Byte = n: nat | n < 256

  const OFFSET: nat := 0x811c9dc5
  const PRIME: nat := 0x01000193
  const PRIME_INVERSE: nat := 0x359c449b

  /** One byte folded in: exclusive or, then a multiplication that wraps at 32 bits. */
  function Fold(h: nat, b: Byte): (r: nat)
    ensures r < WORD32
  {
    Words64.Xor(h, b) * PRIME % WORD32
  }

  function Hash(data: seq<Byte>): (h: nat)
    ensures h < WORD32
  {
    if data == [] then OFFSET else Fold(Hash(data[..|data| - 1]), data[|data| - 1])
  }

  method PacketHash(data: seq<Byte>) returns (h: nat)
    ensures h == Hash(data)
  {
    h := OFFSET;
    for i := 0 to |data|
      invariant h == Hash(data[..i])
    {
      assert data[..i + 1][..i] == data[..i];
      h := Words64.Xor(h, data[i]);
      h := h * PRIME % WORD32;
    }
    assert data[..|data|] == data;
  }

  /** The published FNV-1a values of the empty text, of "a", "f" and "fo". */
  lemma {:induction false} Published()
    ensures Hash([]) == 0x811C9DC5
    ensures Hash([0x61]) == 0xE40C292C
    ensures Hash([0x66]) == 0xE30C2799
    ensures Hash([0x66, 0x6F]) == 0x6222E842
  {
    hide Words64.Xor;
    assert [0x61][..0] == [] && [0x66][..0] == [] && [0x66, 0x6F][..1] == [0x66];
    Words64.XorZero(0x811C9D);
    Words64.XorDigit(0x811C9D, 0, 0x811C9D, 0xC, 6, 0xA);
    Words64.XorDigit(0x811C9DC, 6, 0x811C9DA, 5, 1, 4);
    Words64.XorDigit(0x811C9DC, 6, 0x811C9DA, 5, 6, 3);
    Words64.XorZero(0xE30C27);
    Words64.XorDigit(0xE30C27, 0, 0xE30C27, 9, 6, 15);
    Words64.XorDigit(0xE30C279, 6, 0xE30C27F, 9, 15, 6);
  }

  // ----- what the fingerprint tells apart -------------------------------------------------------

  /** Multiplying by the prime loses nothing: it has an inverse. */
  lemma {:induction false} PrimeInverse(x: nat)
    requires x < WORD32
    ensures (x * PRIME % WORD32) * PRIME_INVERSE % WORD32 == x
  {
    var q, m := x * PRIME / WORD32, PRIME * PRIME_INVERSE / WORD32;
    assert PRIME * PRIME_INVERSE == m * WORD32 + 1;
    assert x * PRIME % WORD32 == x * PRIME - q * WORD32;
    assert (x * PRIME % WORD32) * PRIME_INVERSE == x + (x * m - q * PRIME_INVERSE) * WORD32;
    Modulo(x, x * m - q * PRIME_INVERSE);
  }

  lemma {:induction false} Modulo(x: nat, k: int)
    requires x < WORD32
    ensures (x + k * WORD32) % WORD32 == x
  {}

  lemma {:induction false} XorInWord(h: nat, b: Byte)
    requires h < WORD32
    ensures Words64.Xor(h, b) < WORD32
  {
    Words64.WordBits();
    Words64.XorBound(h, b, 32);
  }

  /** Folding keeps apart different states with the same byte, and different bytes in the same state. */
  lemma {:induction false} FoldKeepsApart(h: nat, b: Byte, h': nat, b': Byte)
    requires h < WORD32 && h' < WORD32 && (h == h' <==> b != b')
    ensures Fold(h, b) != Fold(h', b')
  {
    hide Words64.Xor;
    XorInWord(h, b);
    XorInWord(h', b');
    PrimeInverse(Words64.Xor(h, b));
    PrimeInverse(Words64.Xor(h', b'));
    Words64.XorCancel(h, b);
    Words64.XorCancel(h', b');
  }

  /**
   * A packet that differs from another of the same length in exactly one byte never has the same
   * fingerprint.
   */
  lemma {:induction false} OneByteTells(p: seq<Byte>, q: seq<Byte>, k: nat)
    requires |p| == |q| && k < |p| && p[k] != q[k]
    requires forall i | 0 <= i < |p| && i != k :: p[i] == q[i]
    ensures Hash(p) != Hash(q)
    decreases |p|
  {
    hide Fold;
    var n := |p| - 1;
    if k < n {
      OneByteTells(p[..n], q[..n], k);
    } else {
      assert p[..n] == q[..n];
    }
    FoldKeepsApart(Hash(p[..n]), p[n], Hash(q[..n]), q[n]);
  }

  /** The eight digits, most significant first, and the terminator. */
  method PacketHashHex(out: array<char>, data: seq<Byte>)
    requires out.Length == 9
    modifies out
    ensures out[..] == HexText(Hash(data), 8) + ['\0']
  {
    var h := PacketHash(data);
    ghost var full := h;
    var i := 7;
    while i >= 0
      invariant -1 <= i <= 7
      invariant HexText(full, 8) == HexText(h, i + 1) + out[i + 1..8]
    {
      out[i] := HexDigitOf(h % 16);
      assert HexText(h, i + 1) == HexText(h / 16, i) + [out[i]];
      assert out[i..8] == [out[i]] + out[i + 1..8];
      h, i := h / 16, i - 1;
    }
    out[8] := '\0';
    assert out[..] == out[0..8] + ['\0'];
  }

  /** A logged fingerprint reads back as the hash. */
  lemma {:induction false} FingerprintReadsBack(data: seq<Byte>)
    ensures HexNatural(HexText(Hash(data), 8)) == Hash(data)
  {
    EightDigits();
    HexReadsBack(Hash(data), 8);
  }
}
