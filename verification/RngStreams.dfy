/**
 * Unsigned 64-bit words as naturals below 2^64, with the bit operations the stream derivation uses:
 * exclusive or, shift right, and wrap-around multiplication.
 */
module Words64 {

  const WORD64: nat := 0x1_0000_0000_0000_0000

  type Word = n: nat | n < WORD64

  /** Bitwise exclusive or, lowest bit first. */
  function Xor(a: nat, b: nat): nat
    decreases a + b
  {
    if a == 0 && b == 0 then 0
    else (if a % 2 == b % 2 then 0 else 1) + 2 * Xor(a / 2, b / 2)
  }

  function Shr(a: nat, k: nat): nat
    decreases k
  {
    if k == 0 then a else Shr(a / 2, k - 1)
  }

  function Pow2(k: nat): nat {
    if k == 0 then 1 else 2 * Pow2(k - 1)
  }

  function Wrap(n: nat): Word { n % WORD64 }

  // ----- exclusive or -----------------------------------------------------

  lemma {:induction false} XorSelf(a: nat)
    ensures Xor(a, a) == 0
  {
    if a != 0 { XorSelf(a / 2); }
  }

  lemma {:induction false} XorZero(a: nat)
    ensures Xor(a, 0) == a && Xor(0, a) == a
  {
    if a != 0 { XorZero(a / 2); }
  }

  lemma {:induction false} XorStep(a: nat, b: nat)
    ensures Xor(a, b) / 2 == Xor(a / 2, b / 2)
    ensures Xor(a, b) % 2 == if a % 2 == b % 2 then 0 else 1
  {}

  lemma {:induction false} XorAssoc(a: nat, b: nat, c: nat)
    ensures Xor(Xor(a, b), c) == Xor(a, Xor(b, c))
    decreases a + b + c
  {
    if a + b + c != 0 {
      XorAssoc(a / 2, b / 2, c / 2);
      XorStep(a, b);
      XorStep(b, c);
      XorStep(Xor(a, b), c);
      XorStep(a, Xor(b, c));
      HalvesDetermine(Xor(Xor(a, b), c), Xor(a, Xor(b, c)));
    }
  }

  lemma {:induction false} HalvesDetermine(x: nat, y: nat)
    requires x / 2 == y / 2 && x % 2 == y % 2
    ensures x == y
  {}

  lemma {:induction false} XorComm(a: nat, b: nat)
    ensures Xor(a, b) == Xor(b, a)
    decreases a + b
  {
    if a + b != 0 { XorComm(a / 2, b / 2); }
  }

  lemma {:induction false} XorBound(a: nat, b: nat, k: nat)
    requires a < Pow2(k) && b < Pow2(k)
    ensures Xor(a, b) < Pow2(k)
    decreases k
  {
    if k != 0 { XorBound(a / 2, b / 2, k - 1); }
  }

  /** Exclusive or is its own inverse, on either side. */
  lemma {:induction false} XorCancel(a: nat, b: nat)
    ensures Xor(Xor(a, b), b) == a && Xor(Xor(a, b), a) == b
  {
    XorAssoc(a, b, b);
    XorSelf(b);
    XorZero(a);
    XorComm(a, b);
    XorAssoc(b, a, a);
    XorSelf(a);
    XorZero(b);
  }

  lemma {:induction false} Pow2Add(j: nat, k: nat)
    ensures Pow2(j + k) == Pow2(j) * Pow2(k)
  {
    if j != 0 { Pow2Add(j - 1, k); }
  }

  lemma {:induction false} SixteenIsPow2()
    ensures Pow2(4) == 16
  {}

  lemma {:induction false} WordBits()
    ensures Pow2(64) == WORD64 && Pow2(32) == 0x1_0000_0000
  {
    hide Pow2;
    SixteenIsPow2();
    Pow2Add(4, 4);
    Pow2Add(8, 8);
    Pow2Add(16, 16);
    Pow2Add(32, 32);
  }

  function XorWords(a: Word, b: Word): Word {
    WordBits();
    XorBound(a, b, 64);
    Xor(a, b)
  }

  // ----- exclusive or of given numbers, digit by digit ------------------------

  type Bit = x: nat | x < 2

  datatype Nibble = Nibble(b3: Bit, b2: Bit, b1: Bit, b0: Bit)

  function Flip(x: Bit, y: Bit): Bit { if x == y then 0 else 1 }

  function FlipAll(x: Nibble, y: Nibble): Nibble {
    Nibble(Flip(x.b3, y.b3), Flip(x.b2, y.b2), Flip(x.b1, y.b1), Flip(x.b0, y.b0))
  }

  function NibbleOf(d: nat): Nibble
    requires d < 16
  {
    Nibble(d / 8, d / 4 % 2, d / 2 % 2, d % 2)
  }

  function Append(a: nat, x: Nibble): nat { 16 * a + 8 * x.b3 + 4 * x.b2 + 2 * x.b1 + x.b0 }

  lemma {:induction false} XorBit(a: nat, b: nat, x: Bit, y: Bit)
    ensures Xor(2 * a + x, 2 * b + y) == 2 * Xor(a, b) + Flip(x, y)
  {}

  lemma {:induction false} XorNibble(a: nat, b: nat, x: Nibble, y: Nibble)
    ensures Xor(Append(a, x), Append(b, y)) == Append(Xor(a, b), FlipAll(x, y))
  {
    hide Xor, Flip;
    XorBit(a, b, x.b3, y.b3);
    XorBit(2 * a + x.b3, 2 * b + y.b3, x.b2, y.b2);
    XorBit(4 * a + 2 * x.b3 + x.b2, 4 * b + 2 * y.b3 + y.b2, x.b1, y.b1);
    XorBit(8 * a + 4 * x.b3 + 2 * x.b2 + x.b1, 8 * b + 4 * y.b3 + 2 * y.b2 + y.b1, x.b0, y.b0);
  }

  lemma {:induction false} AppendDigit(a: nat, d: nat)
    requires d < 16
    ensures Append(a, NibbleOf(d)) == 16 * a + d
  {}

  /** z is the exclusive or of the hexadecimal digits x and y. */
  predicate XorDigits(x: nat, y: nat, z: nat) {
    x < 16 && y < 16 && z < 16 && FlipAll(NibbleOf(x), NibbleOf(y)) == NibbleOf(z)
  }

  lemma {:induction false} XorDigit(a: nat, b: nat, c: nat, x: nat, y: nat, z: nat)
    requires Xor(a, b) == c && XorDigits(x, y, z)
    ensures Xor(16 * a + x, 16 * b + y) == 16 * c + z
  {
    hide Xor, NibbleOf, FlipAll, Append;
    XorNibble(a, b, NibbleOf(x), NibbleOf(y));
    AppendDigit(a, x);
    AppendDigit(b, y);
    AppendDigit(c, z);
  }

  lemma {:induction false} XorFour(a: nat, b: nat, c: nat, x3: nat, x2: nat, x1: nat, x0: nat,
                                   y3: nat, y2: nat, y1: nat, y0: nat, z3: nat, z2: nat, z1: nat, z0: nat)
    requires Xor(a, b) == c
    requires XorDigits(x3, y3, z3) && XorDigits(x2, y2, z2) && XorDigits(x1, y1, z1) && XorDigits(x0, y0, z0)
    ensures Xor(0x1_0000 * a + 4096 * x3 + 256 * x2 + 16 * x1 + x0, 0x1_0000 * b + 4096 * y3 + 256 * y2 + 16 * y1 + y0)
         == 0x1_0000 * c + 4096 * z3 + 256 * z2 + 16 * z1 + z0
  {
    hide Xor, NibbleOf, FlipAll;
    XorDigit(a, b, c, x3, y3, z3);
    XorDigit(16 * a + x3, 16 * b + y3, 16 * c + z3, x2, y2, z2);
    XorDigit(256 * a + 16 * x3 + x2, 256 * b + 16 * y3 + y2, 256 * c + 16 * z3 + z2, x1, y1, z1);
    XorDigit(4096 * a + 256 * x3 + 16 * x2 + x1, 4096 * b + 256 * y3 + 16 * y2 + y1,
             4096 * c + 256 * z3 + 16 * z2 + z1, x0, y0, z0);
  }

  // ----- shift right ------------------------------------------------------

  lemma {:induction false} ShrXor(a: nat, b: nat, k: nat)
    ensures Shr(Xor(a, b), k) == Xor(Shr(a, k), Shr(b, k))
    decreases k
  {
    if k != 0 { ShrXor(a / 2, b / 2, k - 1); }
  }

  lemma {:induction false} ShrShr(a: nat, j: nat, k: nat)
    ensures Shr(Shr(a, j), k) == Shr(a, j + k)
    decreases j
  {
    if j != 0 { ShrShr(a / 2, j - 1, k); }
  }

  lemma {:induction false} ShrVanishes(a: nat, n: nat, k: nat)
    requires a < Pow2(n) && n <= k
    ensures Shr(a, k) == 0
    decreases k
  {
    if k != 0 { ShrVanishes(a / 2, if n == 0 then 0 else n - 1, k - 1); }
  }

  lemma {:induction false} ShrOfHigh(a: nat, r: nat, k: nat)
    requires r < Pow2(k)
    ensures Shr(a * Pow2(k) + r, k) == a
    decreases k
  {
    if k != 0 {
      assert a * Pow2(k) == 2 * (a * Pow2(k - 1));
      assert (a * Pow2(k) + r) / 2 == a * Pow2(k - 1) + r / 2;
      ShrOfHigh(a, r / 2, k - 1);
    }
  }

  lemma {:induction false} ShrBound(a: nat, k: nat)
    ensures Shr(a, k) <= a
    decreases k
  {
    if k != 0 { ShrBound(a / 2, k - 1); }
  }

  function ShrWord(a: Word, k: nat): Word {
    ShrBound(a, k);
    Shr(a, k)
  }

  // ----- the two kinds of mixing stage and their inverses -------------------

  function XorShift(z: Word, k: nat): Word {
    XorWords(z, ShrWord(z, k))
  }

  function UnXorShift(y: Word, k: nat): Word {
    XorWords(XorWords(y, ShrWord(y, k)), ShrWord(y, 2 * k))
  }

  /** When three shifts clear the word, folding in one and two shifts undoes an xor-shift. */
  lemma {:induction false} XorShiftInverse(z: Word, k: nat)
    requires 64 <= 3 * k
    ensures UnXorShift(XorShift(z, k), k) == z
    ensures XorShift(UnXorShift(z, k), k) == z
  {
    hide Xor, Shr;
    var (z1, z2, z3) := (Shr(z, k), Shr(z, 2 * k), Shr(z, 3 * k));
    WordBits();
    ShrVanishes(z, 64, 3 * k);
    ShrShr(z, k, k);
    ShrShr(z, k, 2 * k);
    ShrShr(z, 2 * k, k);
    XorZero(z2);
    // y = z ^ z1, y >> k = z1 ^ z2, y >> 2k = z2
    var y := XorShift(z, k);
    ShrXor(z, z1, k);
    ShrXor(z, z1, 2 * k);
    Telescope(z, z1, z2);
    // u = (z ^ z1) ^ z2, u >> k = (z1 ^ z2) ^ z3
    var u := UnXorShift(z, k);
    ShrXor(Xor(z, z1), z2, k);
    XorZero(Xor(z1, z2));
    TelescopeBack(z, z1, z2);
  }

  lemma {:induction false} Telescope(a: nat, b: nat, c: nat)
    ensures Xor(Xor(Xor(a, b), Xor(b, c)), c) == a
  {
    XorAssoc(Xor(a, b), b, c);
    XorCancel(a, b);
    XorCancel(a, c);
  }

  lemma {:induction false} TelescopeBack(a: nat, b: nat, c: nat)
    ensures Xor(Xor(Xor(a, b), c), Xor(b, c)) == a
  {
    XorAssoc(a, b, c);
    XorCancel(a, Xor(b, c));
  }

  function Mul(x: Word, c: Word): Word { Wrap(x * c) }

  lemma {:induction false} MulInverse(x: Word, c: Word, inv: Word)
    requires (c * inv) % WORD64 == 1
    ensures Mul(Mul(x, c), inv) == x
  {
    var q, m := (x * c) / WORD64, (c * inv) / WORD64;
    calc {
      Mul(x, c) * inv;
      (x * c - q * WORD64) * inv;
      x * (c * inv) - q * WORD64 * inv;
      x * (m * WORD64 + 1) - q * WORD64 * inv;
      x + (x * m - q * inv) * WORD64;
    }
    ModUnique(x, x * m - q * inv);
  }

  lemma {:induction false} ModUnique(x: Word, m: int)
    ensures (x + m * WORD64) % WORD64 == x
  {}
}

/**
 * Per-stream RNG derivation. For a fixed scenario seed and domain, the 64-bit stream seed is a
 * bijection of the stream index; the 32-bit fold that feeds mt19937 is not injective.
 */
module RngStreams {
  import opened Words64

  datatype RngDomain = Node | Link | PathLoss | TxFail

  function Tag(d: RngDomain): Word {
    match d
    case Node => 0x4E4F4445
    case Link => 0x4C494E4B
    case PathLoss => 0x50415448
    case TxFail => 0x5458464C
  }

  const GOLDEN: Word := 0x9E3779B97F4A7C15
  const MIX1: Word := 0xBF58476D1CE4E5B9
  const MIX2: Word := 0x94D049BB133111EB
  /** Inverses of the two odd multipliers modulo 2^64. */
  const UNMIX1: Word := 0x96DE1B173F119089
  const UNMIX2: Word := 0x319642B2D24D8EC3

  // ----- the derivation ---------------------------------------------------

  /** What a hash-combine step adds to the folded value: it depends on the accumulator only. */
  function Offset(s: Word): nat { GOLDEN + Wrap(s * 64) + ShrWord(s, 2) }

  function AddXor(s: Word, k: nat, v: Word): Word { XorWords(s, Wrap(v + k)) }

  /** One hash-combine step: the accumulator after folding `v` into `s`. */
  function Combine(s: Word, v: Word): Word {
    AddXor(s, Offset(s), v)
  }

  /** One splitmix64 round: an xor-shift, then an odd multiplication. */
  function Mix(z: Word, k: nat, c: Word): Word { Mul(XorShift(z, k), c) }

  /** The splitmix64 finalizer. */
  function Finalize(s: Word): Word {
    XorShift(Mix(Mix(Wrap(s + GOLDEN), 30, MIX1), 27, MIX2), 31)
  }

  function DeriveSeed(seed: Word, domain: RngDomain, index: Word): Word {
    Finalize(Combine(Combine(seed, Tag(domain)), index))
  }

  function Fold32(z: Word): nat { Xor(Shr(z, 32), z % 0x1_0000_0000) }

  /** The 32-bit word, high half xor low half, that seeds a stream's mt19937. */
  function StreamWord(seed: Word, domain: RngDomain, index: Word): nat {
    Fold32(DeriveSeed(seed, domain, index))
  }

  // ----- the explicit inverse ---------------------------------------------

  function XorSub(s: Word, k: nat, t: Word): Word { (XorWords(t, s) - k) % WORD64 }

  function Uncombine(s: Word, t: Word): Word {
    XorSub(s, Offset(s), t)
  }

  function Unmix(y: Word, k: nat, inv: Word): Word { UnXorShift(Mul(y, inv), k) }

  function Unfinalize(y: Word): Word {
    (Unmix(Unmix(UnXorShift(y, 31), 27, UNMIX2), 30, UNMIX1) - GOLDEN) % WORD64
  }

  /** The index whose stream seed is `z`. */
  function RecoverIndex(seed: Word, domain: RngDomain, z: Word): Word {
    Uncombine(Combine(seed, Tag(domain)), Unfinalize(z))
  }

  lemma {:induction false} ShiftRoundTrip(v: Word, k: nat)
    ensures (Wrap(v + k) - k) % WORD64 == v
    ensures Wrap((v - k) % WORD64 + k) == v
  {
    ModUnique(v, -((v + k) / WORD64));
    ModUnique(v, -((v - k) / WORD64));
  }

  lemma {:induction false} AddXorInverse(s: Word, k: nat, v: Word)
    ensures XorSub(s, k, AddXor(s, k, v)) == v
    ensures AddXor(s, k, XorSub(s, k, v)) == v
  {
    hide Xor;
    ShiftRoundTrip(v, k);
    XorCancel(s, Wrap(v + k));
    ShiftRoundTrip(XorWords(v, s), k);
    XorComm(v, s);
    XorCancel(s, v);
    XorComm(s, XorWords(v, s));
  }

  lemma {:induction false} CombineInverse(s: Word, v: Word)
    ensures Uncombine(s, Combine(s, v)) == v
    ensures Combine(s, Uncombine(s, v)) == v
  {
    AddXorInverse(s, Offset(s), v);
  }

  lemma {:induction false} MixInverse(z: Word, k: nat, c: Word, inv: Word)
    requires 64 <= 3 * k && (c * inv) % WORD64 == 1
    ensures Unmix(Mix(z, k, c), k, inv) == z
    ensures Mix(Unmix(z, k, inv), k, c) == z
  {
    XorShiftInverse(z, k);
    MulInverse(XorShift(z, k), c, inv);
    XorShiftInverse(Mul(z, inv), k);
    MulInverse(z, inv, c);
  }

  lemma {:induction false} InverseMultipliers()
    ensures (MIX1 * UNMIX1) % WORD64 == 1 && (MIX2 * UNMIX2) % WORD64 == 1
  {}

  lemma {:induction false} UnfinalizeFinalize(w: Word)
    ensures Unfinalize(Finalize(w)) == w
  {
    hide Mix, Unmix, XorShift, UnXorShift;
    InverseMultipliers();
    var z0 := Wrap(w + GOLDEN);
    MixInverse(z0, 30, MIX1, UNMIX1);
    MixInverse(Mix(z0, 30, MIX1), 27, MIX2, UNMIX2);
    XorShiftInverse(Mix(Mix(z0, 30, MIX1), 27, MIX2), 31);
    ShiftRoundTrip(w, GOLDEN);
  }

  lemma {:induction false} FinalizeUnfinalize(w: Word)
    ensures Finalize(Unfinalize(w)) == w
  {
    hide Mix, Unmix, XorShift, UnXorShift;
    InverseMultipliers();
    var y2 := UnXorShift(w, 31);
    var y1 := Unmix(y2, 27, UNMIX2);
    ShiftRoundTrip(Unmix(y1, 30, UNMIX1), GOLDEN);
    MixInverse(y1, 30, MIX1, UNMIX1);
    MixInverse(y2, 27, MIX2, UNMIX2);
    XorShiftInverse(w, 31);
  }

  // ----- a reference value ------------------------------------------------

  /** No two domains share a tag. */
  lemma {:induction false} TagsDiffer(d: RngDomain, e: RngDomain)
    ensures Tag(d) == Tag(e) <==> d == e
  {}

  /** The first node's stream of seed 0. */
  lemma {:induction false} ReferenceSeed()
    ensures DeriveSeed(0, Node, 0) == 0x16E22B664D77EAC5
  {
    hide Finalize, Combine;
    ReferenceTag();
    ReferenceIndex();
    ReferenceFinal();
  }

  lemma {:induction false} ReferenceTag()
    ensures Combine(0, Tag(Node)) == 0x9E3779B9CD99C05A
  {
    hide Xor, Shr;
    ShrBound(0, 2);
    XorZero(0x9E3779B9CD99C05A);
  }

  lemma {:induction false} ReferenceIndex()
    ensures Combine(0x9E3779B9CD99C05A, 0) == 0xCD94BF2294B8C2F1
  {
    hide Xor, Shr;
    ShiftTag();
    XorTag();
  }

  lemma {:induction false} ReferenceFinal()
    ensures Finalize(0xCD94BF2294B8C2F1) == 0x16E22B664D77EAC5
  {
    hide Mix, XorShift;
    FirstRound();
    SecondRound();
    LastShift();
  }

  lemma {:induction false} FirstRound()
    ensures Mix(0x6BCC38DC14033F06, 30, MIX1) == 0x65316F3CEDC7DF46
  {
    hide Xor, Shr;
    ShiftFirst();
    XorFirst();
  }

  lemma {:induction false} SecondRound()
    ensures Mix(0x65316F3CEDC7DF46, 27, MIX2) == 0x16E22B6660B3BC09
  {
    hide Xor, Shr;
    ShiftSecond();
    XorSecond();
  }

  lemma {:induction false} LastShift()
    ensures XorShift(0x16E22B6660B3BC09, 31) == 0x16E22B664D77EAC5
  {
    hide Xor, Shr;
    ShiftThird();
    XorThird();
  }

  lemma {:induction false} ShiftPowers()
    ensures Pow2(2) == 4 && Pow2(27) == 0x800_0000 && Pow2(30) == 0x4000_0000 && Pow2(31) == 0x8000_0000
  {
    hide Pow2;
    SmallPowers();
    Pow2Add(9, 9);
    Pow2Add(18, 9);
    Pow2Add(27, 2);
    Pow2Add(29, 1);
    Pow2Add(30, 1);
  }

  lemma {:induction false} SmallPowers()
    ensures Pow2(1) == 2 && Pow2(2) == 4 && Pow2(9) == 512
  {
    assert Pow2(4) == 16;
    assert Pow2(7) == 8 * Pow2(4);
  }

  lemma {:induction false} ShiftTag()
    ensures Shr(0x9E3779B9CD99C05A, 2) == 0x278DDE6E73667016
  {
    hide Shr, Pow2;
    ShiftPowers();
    ShrOfHigh(0x278DDE6E73667016, 2, 2);
  }

  lemma {:induction false} XorTag()
    ensures Xor(0x9E3779B9CD99C05A, 0x53A3C69B592102AB) == 0xCD94BF2294B8C2F1
  {
    hide Xor;
    XorZero(0);
    XorFour(0, 0, 0, 9, 14, 3, 7,
            5, 3, 10, 3, 12, 13, 9, 4);
    XorFour(0x9E37, 0x53A3, 0xCD94, 7, 9, 11, 9,
            12, 6, 9, 11, 11, 15, 2, 2);
    XorFour(0x9E3779B9, 0x53A3C69B, 0xCD94BF22, 12, 13, 9, 9,
            5, 9, 2, 1, 9, 4, 11, 8);
    XorFour(0x9E3779B9CD99, 0x53A3C69B5921, 0xCD94BF2294B8, 12, 0, 5, 10,
            0, 2, 10, 11, 12, 2, 15, 1);
  }

  lemma {:induction false} ShiftFirst()
    ensures Shr(0x6BCC38DC14033F06, 30) == 0x1AF30E370
  {
    hide Shr, Pow2;
    ShiftPowers();
    ShrOfHigh(0x1AF30E370, 0x14033F06, 30);
  }

  lemma {:induction false} XorFirst()
    ensures Xor(0x6BCC38DC14033F06, 0x1AF30E370) == 0x6BCC38DDBB33DC76
  {
    hide Xor;
    XorZero(0);
    XorFour(0, 0, 0, 6, 11, 12, 12,
            0, 0, 0, 0, 6, 11, 12, 12);
    XorFour(0x6BCC, 0, 0x6BCC, 3, 8, 13, 12,
            0, 0, 0, 1, 3, 8, 13, 13);
    XorFour(0x6BCC38DC, 1, 0x6BCC38DD, 1, 4, 0, 3,
            10, 15, 3, 0, 11, 11, 3, 3);
    XorFour(0x6BCC38DC1403, 0x1AF30, 0x6BCC38DDBB33, 3, 15, 0, 6,
            14, 3, 7, 0, 13, 12, 7, 6);
  }

  lemma {:induction false} ShiftSecond()
    ensures Shr(0x65316F3CEDC7DF46, 27) == 0xCA62DE79D
  {
    hide Shr, Pow2;
    ShiftPowers();
    ShrOfHigh(0xCA62DE79D, 0x5C7DF46, 27);
  }

  lemma {:induction false} XorSecond()
    ensures Xor(0x65316F3CEDC7DF46, 0xCA62DE79D) == 0x65316F304BEA38DB
  {
    hide Xor;
    XorZero(0);
    XorFour(0, 0, 0, 6, 5, 3, 1,
            0, 0, 0, 0, 6, 5, 3, 1);
    XorFour(0x6531, 0, 0x6531, 6, 15, 3, 12,
            0, 0, 0, 12, 6, 15, 3, 0);
    XorFour(0x65316F3C, 0xC, 0x65316F30, 14, 13, 12, 7,
            10, 6, 2, 13, 4, 11, 14, 10);
    XorFour(0x65316F3CEDC7, 0xCA62D, 0x65316F304BEA, 13, 15, 4, 6,
            14, 7, 9, 13, 3, 8, 13, 11);
  }

  lemma {:induction false} ShiftThird()
    ensures Shr(0x16E22B6660B3BC09, 31) == 0x2DC456CC
  {
    hide Shr, Pow2;
    ShiftPowers();
    ShrOfHigh(0x2DC456CC, 0x60B3BC09, 31);
  }

  lemma {:induction false} XorThird()
    ensures Xor(0x16E22B6660B3BC09, 0x2DC456CC) == 0x16E22B664D77EAC5
  {
    hide Xor;
    XorZero(0);
    XorFour(0, 0, 0, 1, 6, 14, 2,
            0, 0, 0, 0, 1, 6, 14, 2);
    XorFour(0x16E2, 0, 0x16E2, 2, 11, 6, 6,
            0, 0, 0, 0, 2, 11, 6, 6);
    XorFour(0x16E22B66, 0, 0x16E22B66, 6, 0, 11, 3,
            2, 13, 12, 4, 4, 13, 7, 7);
    XorFour(0x16E22B6660B3, 0x2DC4, 0x16E22B664D77, 11, 12, 0, 9,
            5, 6, 12, 12, 14, 10, 12, 5);
  }

  // ----- main results -----------------------------------------------------

  /** `RecoverIndex` is a two-sided inverse: index -> stream seed is a bijection of 64-bit words. */
  lemma {:induction false} DeriveSeedBijective(seed: Word, domain: RngDomain, w: Word)
    ensures RecoverIndex(seed, domain, DeriveSeed(seed, domain, w)) == w
    ensures DeriveSeed(seed, domain, RecoverIndex(seed, domain, w)) == w
  {
    var s := Combine(seed, Tag(domain));
    UnfinalizeFinalize(Combine(s, w));
    CombineInverse(s, w);
    FinalizeUnfinalize(w);
    CombineInverse(s, Unfinalize(w));
  }

  lemma {:induction false} DeriveSeedInjective(seed: Word, domain: RngDomain, i: Word, j: Word)
    ensures DeriveSeed(seed, domain, i) == DeriveSeed(seed, domain, j) <==> i == j
  {
    DeriveSeedBijective(seed, domain, i);
    DeriveSeedBijective(seed, domain, j);
  }

  /** The row-major index of the directed link from `sender` to `rcv` in an n-node grid. */
  function LinkIndex(n: nat, sender: nat, rcv: nat): nat { sender * n + rcv }

  lemma {:induction false} LinkIndexInjective(n: nat, s1: nat, r1: nat, s2: nat, r2: nat)
    requires r1 < n && r2 < n
    requires LinkIndex(n, s1, r1) == LinkIndex(n, s2, r2)
    ensures s1 == s2 && r1 == r2
  {
    if s1 < s2 {
      RowsApart(n, s1, s2);
      assert false;
    } else if s2 < s1 {
      RowsApart(n, s2, s1);
      assert false;
    }
  }

  lemma {:induction false} RowsApart(n: nat, s1: nat, s2: nat)
    requires s1 < s2
    ensures s1 * n + n <= s2 * n
  {
    calc {
      s2 * n;
      (s1 + 1) * n + (s2 - s1 - 1) * n;
    >=
      (s1 + 1) * n;
    }
  }

  /** Distinct directed links never share a 64-bit stream seed. */
  lemma {:induction false} DistinctLinksDistinctSeeds(seed: Word, n: nat, s1: nat, r1: nat, s2: nat, r2: nat)
    requires r1 < n && r2 < n
    requires LinkIndex(n, s1, r1) < WORD64 && LinkIndex(n, s2, r2) < WORD64
    ensures DeriveSeed(seed, Link, LinkIndex(n, s1, r1)) == DeriveSeed(seed, Link, LinkIndex(n, s2, r2))
       <==> s1 == s2 && r1 == r2
  {
    DeriveSeedInjective(seed, Link, LinkIndex(n, s1, r1), LinkIndex(n, s2, r2));
    if LinkIndex(n, s1, r1) == LinkIndex(n, s2, r2) {
      LinkIndexInjective(n, s1, r1, s2, r2);
    }
  }

  // ----- the 32-bit word ----------------------------------------------------

  const HALF: nat := 0x1_0000_0000

  /** The 64-bit seed with high half h that folds to the word w. */
  function Unfold(h: nat, w: nat): Word
    requires h < HALF && w < HALF
  {
    HalvesJoin(h, w);
    h * HALF + Xor(h, w)
  }

  lemma {:induction false} HalvesJoin(h: nat, w: nat)
    requires h < HALF && w < HALF
    ensures Xor(h, w) < HALF && h * HALF + Xor(h, w) < WORD64
  {
    WordBits();
    XorBound(h, w, 32);
  }

  lemma {:induction false} HalvesSplit(z: Word)
    ensures Shr(z, 32) == z / HALF < HALF && Fold32(z) == Xor(z / HALF, z % HALF) < HALF
  {
    hide Xor, Shr;
    WordBits();
    assert z == (z / HALF) * HALF + z % HALF;
    ShrOfHigh(z / HALF, z % HALF, 32);
    XorBound(z / HALF, z % HALF, 32);
  }

  /** The seeds that fold to w are exactly one for every high half. */
  lemma {:induction false} FoldsTo(z: Word, w: nat)
    requires w < HALF
    ensures Fold32(z) == w <==> z == Unfold(z / HALF, w)
    ensures forall h: nat | h < HALF :: Unfold(h, w) / HALF == h
  {
    hide Xor, Shr, Fold32;
    HalvesSplit(z);
    HalvesJoin(z / HALF, w);
    XorCancel(w, z / HALF);
    XorCancel(z % HALF, z / HALF);
    XorComm(z / HALF, w);
    XorComm(z / HALF, z % HALF);
    assert z == (z / HALF) * HALF + z % HALF;
    forall h: nat | h < HALF
      ensures Unfold(h, w) / HALF == h
    {
      HalvesJoin(h, w);
    }
  }

  /**
   * Exactly when two indices seed mt19937 with the same word: the second is one of the 2^32 indices, one
   * for every high half h, whose 64-bit seed folds to the first one's word.
   */
  lemma {:induction false} SameWordIff(seed: Word, domain: RngDomain, i: Word, j: Word)
    ensures StreamWord(seed, domain, i) < HALF
    ensures StreamWord(seed, domain, i) == StreamWord(seed, domain, j)
       <==> exists h: nat :: h < HALF && j == RecoverIndex(seed, domain, Unfold(h, StreamWord(seed, domain, i)))
  {
    hide DeriveSeed, RecoverIndex, Fold32, Unfold;
    var w, z := StreamWord(seed, domain, i), DeriveSeed(seed, domain, j);
    HalvesSplit(DeriveSeed(seed, domain, i));
    HalvesSplit(z);
    FoldsTo(z, w);
    DeriveSeedBijective(seed, domain, j);
    if StreamWord(seed, domain, j) == w {
      assert j == RecoverIndex(seed, domain, Unfold(z / HALF, w));
    }
    if exists h: nat :: h < HALF && j == RecoverIndex(seed, domain, Unfold(h, w)) {
      var h: nat :| h < HALF && j == RecoverIndex(seed, domain, Unfold(h, w));
      DeriveSeedBijective(seed, domain, Unfold(h, w));
      FoldsTo(Unfold(h, w), w);
    }
  }

  /** Different high halves give different indices, so each word belongs to exactly 2^32 of them. */
  lemma {:induction false} WordSharedBy(seed: Word, domain: RngDomain, w: nat, h: nat, h': nat)
    requires w < HALF && h < HALF && h' < HALF
    ensures StreamWord(seed, domain, RecoverIndex(seed, domain, Unfold(h, w))) == w
    ensures RecoverIndex(seed, domain, Unfold(h, w)) == RecoverIndex(seed, domain, Unfold(h', w)) <==> h == h'
  {
    hide DeriveSeed, RecoverIndex, Fold32, Unfold;
    DeriveSeedBijective(seed, domain, Unfold(h, w));
    DeriveSeedBijective(seed, domain, Unfold(h', w));
    FoldsTo(Unfold(h, w), w);
    FoldsTo(Unfold(h', w), w);
  }

  /** Among m + 1 numbers below m two are equal. */
  lemma {:induction false} Pigeonhole(f: nat -> nat, m: nat) returns (i: nat, j: nat)
    requires forall k: nat | k <= m :: f(k) < m
    ensures i < j <= m && f(i) == f(j)
    decreases m
  {
    assert f(m) < m;
    if k: nat :| k < m && f(k) == f(m) {
      i, j := k, m;
    } else {
      // send whatever goes to the last hole to the one f(m) leaves free
      var g := (k: nat) => if f(k) == m - 1 then f(m) else f(k);
      forall k: nat | k <= m - 1
        ensures g(k) < m - 1
      {
        assert f(k) < m && f(k) != f(m);
      }
      i, j := Pigeonhole(g, m - 1);
    }
  }

  /** The k-th directed link between two different nodes of an n-node grid. */
  function LinkNo(n: nat, k: nat): (nat, nat)
    requires n > 1
  {
    var (s, r) := (k / (n - 1), k % (n - 1));
    (s, if r < s then r else r + 1)
  }

  lemma {:induction false} LinkNoRanges(n: nat, k: nat)
    requires n > 1 && k < n * (n - 1)
    ensures var (s, r) := LinkNo(n, k); s < n && r < n && s != r
  {
    var q, m := k / (n - 1), n - 1;
    assert k == q * m + k % m;
    if q >= n {
      RowsApart(m, n - 1, q);
      assert false;
    }
  }

  lemma {:induction false} LinkNoInjective(n: nat, k: nat, l: nat)
    requires n > 1 && LinkNo(n, k) == LinkNo(n, l)
    ensures k == l
  {
    var m := n - 1;
    assert k == (k / m) * m + k % m;
    assert l == (l / m) * m + l % m;
  }

  lemma {:induction false} LinkIndexFits(n: nat, s: nat, r: nat)
    requires s < n && r < n && n < 0x8000_0000
    ensures LinkIndex(n, s, r) < WORD64
  {
    RowsApart(n, s, n);
    ProductFits(n);
  }

  lemma {:induction false} NonNegative(a: nat, b: nat)
    ensures a * b >= 0
  {}

  lemma {:induction false} ProductFits(n: nat)
    requires n < 0x8000_0000
    ensures n * n < WORD64
  {
    NonNegative(0x8000_0000 - n, n);
  }

  /** The word of the k-th link; numbers beyond the grid's links stand for the first. */
  function LinkWord(seed: Word, n: nat, k: nat): nat
    requires 1 < n < 0x8000_0000
  {
    var l := LinkNo(n, if k < n * (n - 1) then k else 0);
    LinkNoRanges(n, if k < n * (n - 1) then k else 0);
    LinkIndexFits(n, l.0, l.1);
    StreamWord(seed, Link, LinkIndex(n, l.0, l.1))
  }

  /**
   * The promise that distinct links have distinct streams stops at the 32-bit fold: with 65537 nodes or
   * more, for every scenario seed, two different directed links seed mt19937 with the same word.
   */
  lemma {:induction false} StreamWordCollides(seed: Word, n: nat) returns (s1: nat, r1: nat, s2: nat, r2: nat)
    requires 65537 <= n < 0x8000_0000
    ensures s1 < n && r1 < n && s1 != r1 && s2 < n && r2 < n && s2 != r2 && (s1, r1) != (s2, r2)
    ensures LinkIndex(n, s1, r1) < WORD64 && LinkIndex(n, s2, r2) < WORD64
    ensures StreamWord(seed, Link, LinkIndex(n, s1, r1)) == StreamWord(seed, Link, LinkIndex(n, s2, r2))
  {
    hide StreamWord, LinkIndex, LinkNo;
    var f := (k: nat) => LinkWord(seed, n, k);
    forall k: nat | k <= HALF
      ensures f(k) < HALF
    {
      LinkWordBound(seed, n, k);
    }
    var i, j := Pigeonhole(f, HALF);
    EnoughLinks(n);
    LinkNoRanges(n, i);
    LinkNoRanges(n, j);
    s1, r1 := LinkNo(n, i).0, LinkNo(n, i).1;
    s2, r2 := LinkNo(n, j).0, LinkNo(n, j).1;
    LinkIndexFits(n, s1, r1);
    LinkIndexFits(n, s2, r2);
    if (s1, r1) == (s2, r2) {
      LinkNoInjective(n, i, j);
      assert false;
    }
  }

  lemma {:induction false} LinkWordBound(seed: Word, n: nat, k: nat)
    requires 1 < n < 0x8000_0000
    ensures LinkWord(seed, n, k) < HALF
  {
    hide DeriveSeed, Fold32, LinkIndex, LinkNo;
    var l := LinkNo(n, if k < n * (n - 1) then k else 0);
    LinkNoRanges(n, if k < n * (n - 1) then k else 0);
    LinkIndexFits(n, l.0, l.1);
    HalvesSplit(DeriveSeed(seed, Link, LinkIndex(n, l.0, l.1)));
  }

  lemma {:induction false} EnoughLinks(n: nat)
    requires 65537 <= n
    ensures HALF < n * (n - 1)
  {
    assert 65537 * 65536 <= n * 65536 <= n * (n - 1);
  }
}
