/** LoRa time on air: the radio's formula, the analyzer's mirror of it, and how they relate. */
module LoraAirtime {
  import Words64

  /** `cr` is the multiplier form of the coding rate, 5..8 for 4/5..4/8. */
  datatype Phy = Phy(sf: nat, bwHz: nat, cr: nat, preamble: nat)

  /** What the radio's setters leave behind: a spreading factor of 5..12 and a positive bandwidth. */
  predicate Settable(p: Phy) {
    5 <= p.sf <= 12 && 0 < p.bwHz && p.cr <= 8
  }

  function Ceil(x: real): int { -((-x).Floor) }

  function Max(x: int, y: int): int { if x >= y then x else y }

  /** Duration of one symbol in milliseconds: it doubles with every spreading factor. */
  function SymbolTime(sf: nat, bwHz: nat): real
    requires 0 < bwHz
  {
    if sf == 0 then 1.0 / (bwHz as real / 1000.0) else 2.0 * SymbolTime(sf - 1, bwHz)
  }

  /** As the radio computes it: 2^sf chips at bwHz / 1000 chips per millisecond. */
  lemma {:induction false} SymbolTimeClosedForm(sf: nat, bwHz: nat)
    requires 0 < bwHz
    ensures SymbolTime(sf, bwHz) == Words64.Pow2(sf) as real / (bwHz as real / 1000.0)
  {
    if sf != 0 {
      SymbolTimeClosedForm(sf - 1, bwHz);
      QuotientScale(Words64.Pow2(sf - 1) as real, bwHz as real / 1000.0);
    }
  }

  function SymbolMs(p: Phy): real
    requires Settable(p)
  {
    SymbolTime(p.sf, p.bwHz)
  }

  /** Low-data-rate optimisation is on from 16 ms per symbol. */
  function LowDataRate(p: Phy): (de: nat)
    requires Settable(p)
    ensures de <= 1
  {
    if SymbolMs(p) >= 16.0 then 1 else 0
  }

  /** SF5 and SF6 have a longer sync word and no header constant (section 6.1.4 of the SX126x datasheet). */
  predicate LowSf(p: Phy) { p.sf == 5 || p.sf == 6 }

  function SyncSymbols(p: Phy): real { if LowSf(p) then 6.25 else 4.25 }

  /** Coded payload symbols of the radio: the quotient is rounded up in floating point. */
  function RadioCoded(num: real, den: real, cr: nat): int
    requires den > 0.0
  {
    Max(Ceil(num / den) * cr, 0)
  }

  /** Coded payload symbols of the analyzer: Python's // rounds down, and so does / here. */
  function AnalyzerCoded(num: int, den: int, cr: nat): int {
    if den > 0 then Max(-(-num / den) * cr, 0) else -8
  }

  /** Preamble and sync, then the eight fixed and the coded payload symbols, at `t` ms each. */
  function Duration(preamble: real, coded: int, t: real): real {
    preamble * t + (8 + coded) as real * t
  }

  function RadioMs(p: Phy, len: nat): real
    requires Settable(p)
  {
    var num := 8.0 * len as real - 4.0 * p.sf as real + if LowSf(p) then 36.0 else 44.0;
    var den := 4.0 * (p.sf - 2 * LowDataRate(p)) as real;
    Duration(p.preamble as real + SyncSymbols(p), RadioCoded(num, den, p.cr), SymbolMs(p))
  }

  /** The radio's estimate of the time on air of `len` bytes, in whole milliseconds. */
  function EstAirtime(p: Phy, len: nat): int
    requires Settable(p)
  {
    RadioMs(p, len).Floor
  }

  /** The analyzer's time on air, in fractional milliseconds. */
  function AnalyzerMs(p: Phy, len: nat): real
    requires Settable(p)
  {
    var num: int := 8 * len - 4 * p.sf + 44;
    var den := 4 * (p.sf - 2 * LowDataRate(p));
    Duration(p.preamble as real + 4.25, AnalyzerCoded(num, den, p.cr), SymbolMs(p))
  }

  // ----- both formulas as a number of symbols -----------------------------------------

  function CeilDiv(a: int, b: int): int
    requires b > 0
  {
    -(-a / b)
  }

  /** The rounded quotient is the least multiple that reaches the dividend. */
  lemma {:induction false} CeilDivBound(a: int, b: int, m: int)
    requires b > 0
    ensures CeilDiv(a, b) <= m <==> a <= m * b
  {
    var q, r := -a / b, -a % b;
    assert -a == b * q + r;
    if -q <= m {
      MulMonotone(-q, m, b);
    } else {
      MulMonotone(m, -q - 1, b);
    }
  }

  lemma {:induction false} MulMonotone(x: int, y: int, b: int)
    requires x <= y && b >= 0
    ensures x * b <= y * b
  {}

  lemma {:induction false} CeilOfQuotient(a: int, b: int)
    requires b > 0
    ensures Ceil(a as real / b as real) == CeilDiv(a, b)
  {
    var q, r := -a / b, -a % b;
    assert -a == b * q + r;
    var x := (-a) as real / b as real;
    assert x * b as real == (-a) as real;
    assert (b * q) as real == b as real * q as real;
    QuotientFloor(x, b as real, q, r as real);
    assert -(a as real / b as real) == x;
  }

  lemma {:induction false} QuotientFloor(x: real, b: real, q: int, r: real)
    requires b > 0.0 && 0.0 <= r < b && x * b == b * q as real + r
    ensures x.Floor == q
  {
    var d := x - q as real;
    Distribute(x, -(q as real), b);
    assert d * b == r;
    if d < 0.0 {
      NegativeProduct(d, b);
      assert false;
    }
    if d >= 1.0 {
      RealMonotone(1.0, d, b);
      assert false;
    }
  }

  lemma {:induction false} NegativeProduct(d: real, b: real)
    requires d < 0.0 && b > 0.0
    ensures d * b < 0.0
  {}

  lemma {:induction false} Distribute(x: real, y: real, b: real)
    ensures (x + y) * b == x * b + y * b
  {}

  lemma {:induction false} RealMonotone(x: real, y: real, b: real)
    requires x <= y && b >= 0.0
    ensures x * b <= y * b
  {}

  /** Effective spreading factor in the payload formula. */
  function Effective(p: Phy): nat
    requires Settable(p)
  {
    p.sf - 2 * LowDataRate(p)
  }

  /** Coded payload blocks beyond the eight fixed symbols; `k` is a quarter of the formula's constant. */
  function Blocks(p: Phy, len: nat, k: nat): nat
    requires Settable(p)
  {
    Max(CeilDiv(2 * len - p.sf + k, Effective(p)), 0)
  }

  function HeaderConstant(p: Phy): nat { if LowSf(p) then 9 else 11 }

  /** Symbols on the air. */
  function Symbols(p: Phy, len: nat): real
    requires Settable(p)
  {
    p.preamble as real + SyncSymbols(p) + 8.0 + (Blocks(p, len, HeaderConstant(p)) * p.cr) as real
  }

  lemma {:induction false} CeilDivScale(a: int, b: int)
    requires b > 0
    ensures CeilDiv(4 * a, 4 * b) == CeilDiv(a, b)
  {
    var m, n := CeilDiv(4 * a, 4 * b), CeilDiv(a, b);
    CeilDivBound(4 * a, 4 * b, m);
    CeilDivBound(a, b, m);
    CeilDivBound(4 * a, 4 * b, n);
    CeilDivBound(a, b, n);
    assert m * (4 * b) == 4 * (m * b) && n * (4 * b) == 4 * (n * b);
  }

  lemma {:induction false} MaxScale(c: int, cr: nat)
    ensures Max(c * cr, 0) == Max(c, 0) * cr
  {
    if c >= 0 {
      MulMonotone(0, c, cr);
    } else {
      MulMonotone(c, 0, cr);
    }
  }

  lemma {:induction false} RadioCodedExact(a: int, b: int, cr: nat)
    requires b > 0
    ensures RadioCoded((4 * a) as real, (4 * b) as real, cr) == Max(CeilDiv(a, b), 0) * cr
  {
    CeilOfQuotient(4 * a, 4 * b);
    CeilDivScale(a, b);
    MaxScale(CeilDiv(a, b), cr);
  }

  lemma {:induction false} AnalyzerCodedExact(a: int, b: int, cr: nat)
    requires b > 0
    ensures AnalyzerCoded(4 * a, 4 * b, cr) == Max(CeilDiv(a, b), 0) * cr
  {
    CeilDivScale(a, b);
    MaxScale(CeilDiv(a, b), cr);
  }

  lemma {:induction false} DurationInSymbols(preamble: real, coded: int, t: real)
    ensures Duration(preamble, coded, t) == (preamble + 8.0 + coded as real) * t
  {
    Distribute(preamble, (8 + coded) as real, t);
  }

  lemma {:induction false} RadioInSymbols(p: Phy, len: nat)
    requires Settable(p)
    ensures RadioMs(p, len) == Symbols(p, len) * SymbolMs(p)
  {
    hide RadioCoded, CeilDiv, Duration, SymbolTime, LowDataRate;
    var a, b := 2 * len - p.sf + HeaderConstant(p), Effective(p);
    RadioCodedExact(a, b, p.cr);
    DurationInSymbols(p.preamble as real + SyncSymbols(p), Max(CeilDiv(a, b), 0) * p.cr, SymbolMs(p));
  }

  lemma {:induction false} AnalyzerInSymbols(p: Phy, len: nat)
    requires Settable(p)
    ensures AnalyzerMs(p, len)
         == (p.preamble as real + 12.25 + (Blocks(p, len, 11) * p.cr) as real) * SymbolMs(p)
  {
    hide AnalyzerCoded, CeilDiv, Duration, SymbolTime, LowDataRate;
    var a, b := 2 * len - p.sf + 11, Effective(p);
    AnalyzerCodedExact(a, b, p.cr);
    DurationInSymbols(p.preamble as real + 4.25, Max(CeilDiv(a, b), 0) * p.cr, SymbolMs(p));
  }

  /**
   * The time on air by the fields alone: `k` groups of `cr` payload symbols are the fewest that carry
   * what the eight fixed symbols do not, at four bits per effective spreading factor each, which is
   * two less from 16 ms per symbol on.
   */
  lemma {:induction false} RadioClosedForm(p: Phy, len: nat) returns (k: nat)
    requires Settable(p)
    ensures var slow := Words64.Pow2(p.sf) * 1000 >= 16 * p.bwHz;
            var bits := 8 * len - 4 * p.sf + if p.sf <= 6 then 36 else 44;
            var each := 4 * (p.sf - if slow then 2 else 0);
            && bits <= k * each && (k > 0 ==> (k - 1) * each < bits)
    ensures RadioMs(p, len)
         == (p.preamble as real + (if p.sf <= 6 then 14.25 else 12.25) + (k * p.cr) as real)
            * (Words64.Pow2(p.sf) as real / (p.bwHz as real / 1000.0))
  {
    hide *;
    k := FewestGroups(p, len);
    InChips(p, len, p.preamble as real + (if p.sf <= 6 then 14.25 else 12.25) + (k * p.cr) as real);
  }

  lemma {:induction false} InChips(p: Phy, len: nat, symbols: real)
    requires Settable(p) && Symbols(p, len) == symbols
    ensures RadioMs(p, len) == symbols * (Words64.Pow2(p.sf) as real / (p.bwHz as real / 1000.0))
  {
    hide RadioMs, Symbols, SymbolTime, Words64.Pow2;
    RadioInSymbols(p, len);
    SymbolTimeClosedForm(p.sf, p.bwHz);
  }

  lemma {:induction false} SlowSymbols(p: Phy)
    requires Settable(p)
    ensures SymbolMs(p) >= 16.0 <==> Words64.Pow2(p.sf) * 1000 >= 16 * p.bwHz
  {
    hide SymbolTime, Words64.Pow2;
    var chips: int := Words64.Pow2(p.sf);
    SymbolTimeClosedForm(p.sf, p.bwHz);
    assert SymbolMs(p) == chips as real / (p.bwHz as real / 1000.0);
    QuotientAtLeast(chips as real, p.bwHz as real / 1000.0, 16.0);
    assert 16.0 * (p.bwHz as real / 1000.0) == (16 * p.bwHz) as real / 1000.0;
    assert chips as real == (chips * 1000) as real / 1000.0;
  }

  lemma {:induction false} StrictlyLess(x: real, y: real, b: real)
    requires x < y && b > 0.0
    ensures x * b < y * b
  {}

  lemma {:induction false} QuotientAtLeast(x: real, y: real, c: real)
    requires y > 0.0
    ensures x / y >= c <==> x >= c * y
  {
    FactorAtLeast(x / y, x, y, c);
  }

  lemma {:induction false} FactorAtLeast(q: real, x: real, y: real, c: real)
    requires y > 0.0 && q * y == x
    ensures q >= c <==> x >= c * y
  {
    if q >= c {
      RealMonotone(c, q, y);
    } else {
      StrictlyLess(q, c, y);
    }
  }

  lemma {:induction false} FewestGroups(p: Phy, len: nat) returns (k: nat)
    requires Settable(p)
    ensures var slow := Words64.Pow2(p.sf) * 1000 >= 16 * p.bwHz;
            var bits := 8 * len - 4 * p.sf + if p.sf <= 6 then 36 else 44;
            var each := 4 * (p.sf - if slow then 2 else 0);
            && bits <= k * each && (k > 0 ==> (k - 1) * each < bits)
    ensures Symbols(p, len) == p.preamble as real + (if p.sf <= 6 then 14.25 else 12.25) + (k * p.cr) as real
  {
    hide SymbolTime, Words64.Pow2, CeilDiv;
    k := Blocks(p, len, HeaderConstant(p));
    SlowSymbols(p);
    LeastBlocks(2 * len - p.sf + HeaderConstant(p), Effective(p), k);
  }

  lemma {:induction false} LeastBlocks(a: int, b: int, k: int)
    requires b > 0 && k == Max(CeilDiv(a, b), 0)
    ensures 4 * a <= k * (4 * b) && (k > 0 ==> (k - 1) * (4 * b) < 4 * a)
  {
    CeilDivBound(a, b, k);
    CeilDivBound(a, b, k - 1);
    MulRegroup(4, k, b);
    MulRegroup(4, k - 1, b);
  }

  lemma {:induction false} MulRegroup(c: int, k: int, b: int)
    ensures k * (c * b) == c * (k * b)
  {}

  // ----- symbol duration ------------------------------------------------------------------

  lemma {:induction false} SymbolTimePositive(sf: nat, bwHz: nat)
    requires 0 < bwHz
    ensures SymbolTime(sf, bwHz) > 0.0
  {
    if sf == 0 {
      QuotientPositive(1.0, bwHz as real / 1000.0);
    } else {
      SymbolTimePositive(sf - 1, bwHz);
    }
  }

  lemma {:induction false} QuotientPositive(x: real, y: real)
    requires x > 0.0 && y > 0.0
    ensures x / y > 0.0
  {}

  lemma {:induction false} QuotientScale(x: real, y: real)
    requires y > 0.0
    ensures (2.0 * x) / y == 2.0 * (x / y)
  {}

  lemma {:induction false} SymbolTimeShrinks(sf: nat, bwHz: nat, wider: nat)
    requires 0 < bwHz <= wider
    ensures SymbolTime(sf, wider) <= SymbolTime(sf, bwHz)
  {
    if sf == 0 {
      QuotientAntitone(1.0, bwHz as real / 1000.0, wider as real / 1000.0);
    } else {
      SymbolTimeShrinks(sf - 1, bwHz, wider);
    }
  }

  lemma {:induction false} QuotientAntitone(x: real, y1: real, y2: real)
    requires x > 0.0 && 0.0 < y1 <= y2
    ensures x / y2 <= x / y1
  {
    var q1, q2 := x / y1, x / y2;
    assert q1 * y1 == x && q2 * y2 == x;
    QuotientPositive(x, y2);
    RealMonotone(y1, y2, q2);
    assert q2 * y1 <= q1 * y1;
    if q1 < q2 {
      NegativeProduct(q1 - q2, y1);
      Distribute(q1, -q2, y1);
    }
  }

  /** More symbols, or longer ones, never take fewer milliseconds. */
  lemma {:induction false} ProductBound(n1: real, t1: real, n2: real, t2: real)
    requires 0.0 <= n1 <= n2 && 0.0 <= t1 <= t2
    ensures n1 * t1 <= n2 * t2
  {
    RealMonotone(n1, n2, t1);
    RealMonotone(t1, t2, n2);
  }

  // ----- monotonicity -----------------------------------------------------------------------

  /** A longer payload, a sparser code or a longer preamble never shortens the time on air. */
  lemma {:induction false} AirtimeMonotone(p: Phy, len: nat, q: Phy, len': nat)
    requires Settable(p) && Settable(q) && q.sf == p.sf && q.bwHz == p.bwHz
    requires p.cr <= q.cr && p.preamble <= q.preamble && len <= len'
    ensures EstAirtime(p, len) <= EstAirtime(q, len')
  {
    hide CeilDiv, SymbolTime, EstAirtime;
    assert SymbolMs(p) == SymbolMs(q);
    var k := HeaderConstant(p);
    BlocksGrow(p, len, q, len', k);
    hide Blocks;
    CountGrows(Blocks(p, len, k), p.cr, Blocks(q, len', k), q.cr);
    Longer(p, len, q, len');
  }

  lemma {:induction false} BlocksGrow(p: Phy, len: nat, q: Phy, len': nat, k: nat)
    requires Settable(p) && Settable(q) && q.sf == p.sf && q.bwHz == p.bwHz && len <= len'
    ensures Blocks(p, len, k) <= Blocks(q, len', k)
  {
    hide CeilDiv, SymbolTime;
    assert Effective(p) == Effective(q);
    BlocksMonotone(2 * len - p.sf + k, Effective(p), 2 * len' - p.sf + k, Effective(p));
  }

  lemma {:induction false} CountGrows(m: nat, cr: nat, n: nat, cr': nat)
    requires m <= n && cr <= cr'
    ensures m * cr <= n * cr'
  {
    MulMonotone(m, n, cr);
    MulMonotone(cr, cr', n);
  }

  lemma {:induction false} Longer(p: Phy, len: nat, q: Phy, len': nat)
    requires Settable(p) && Settable(q)
    requires Symbols(p, len) <= Symbols(q, len') && SymbolMs(p) <= SymbolMs(q)
    ensures EstAirtime(p, len) <= EstAirtime(q, len')
  {
    hide RadioMs, Symbols, SymbolTime;
    RadioInSymbols(p, len);
    RadioInSymbols(q, len');
    SymbolTimePositive(p.sf, p.bwHz);
    SymbolsPositive(p, len);
    ProductBound(Symbols(p, len), SymbolMs(p), Symbols(q, len'), SymbolMs(q));
  }

  lemma {:induction false} SymbolsPositive(p: Phy, len: nat)
    requires Settable(p)
    ensures Symbols(p, len) >= 0.0
  {
    MulMonotone(0, Blocks(p, len, HeaderConstant(p)), p.cr);
  }

  lemma {:induction false} BlocksMonotone(a1: int, b1: int, a2: int, b2: int)
    requires a1 <= a2 && 0 < b2 <= b1
    ensures Max(CeilDiv(a1, b1), 0) <= Max(CeilDiv(a2, b2), 0)
  {
    var m := Max(CeilDiv(a2, b2), 0);
    CeilDivBound(a2, b2, m);
    MulMonotone(b2, b1, m);
    CeilDivBound(a1, b1, m);
  }

  /** A wider channel never lengthens it, also where it switches low-data-rate optimisation off. */
  lemma {:induction false} AirtimeShrinksWithBandwidth(p: Phy, wider: Phy, len: nat)
    requires Settable(p) && Settable(wider)
    requires wider == p.(bwHz := wider.bwHz) && p.bwHz <= wider.bwHz
    ensures EstAirtime(wider, len) <= EstAirtime(p, len)
  {
    SymbolTimeShrinks(p.sf, p.bwHz, wider.bwHz);
    var k := HeaderConstant(p);
    var a := 2 * len - p.sf + k;
    BlocksMonotone(a, Effective(wider), a, Effective(p));
    MulMonotone(Blocks(wider, len, k), Blocks(p, len, k), p.cr);
    Longer(wider, len, p, len);
  }

  /** Going up one spreading factor can at most halve the blocks, less one. */
  lemma {:induction false} BlocksHalve(a: int, b: nat, a': int, b': nat)
    requires 0 < b && 0 < b' <= b + 1 && a - 1 <= a'
    ensures Max(CeilDiv(a, b), 0) <= 2 * Max(CeilDiv(a', b'), 0) + 1
  {
    var m := Max(CeilDiv(a', b'), 0);
    CeilDivBound(a', b', m);
    MulMonotone(b', b + 1, m);
    assert m * (b + 1) == m * b + m;
    MulMonotone(1, b, m);
    assert (2 * m + 1) * b == m * b + m * b + b;
    CeilDivBound(a, b, 2 * m + 1);
  }

  /** The next spreading factor never shortens the time on air, across both switches of the formula. */
  lemma {:induction false} NextSfNotShorter(p: Phy, next: Phy, len: nat)
    requires Settable(p) && Settable(next) && next == p.(sf := p.sf + 1)
    ensures EstAirtime(p, len) <= EstAirtime(next, len)
  {
    hide CeilDiv, RadioMs;
    SymbolTimePositive(p.sf, p.bwHz);
    var n, n' := Blocks(p, len, HeaderConstant(p)), Blocks(next, len, HeaderConstant(next));
    BlocksHalve(2 * len - p.sf + HeaderConstant(p), Effective(p),
                2 * len - next.sf + HeaderConstant(next), Effective(next));
    MulMonotone(n, 2 * n' + 1, p.cr);
    assert (2 * n' + 1) * p.cr == 2 * (n' * p.cr) + p.cr;
    assert Symbols(p, len) <= 2.0 * Symbols(next, len);
    TwiceAsLong(p, next, len);
  }

  lemma {:induction false} TwiceAsLong(p: Phy, next: Phy, len: nat)
    requires Settable(p) && Settable(next)
    requires Symbols(p, len) <= 2.0 * Symbols(next, len) && SymbolMs(next) == 2.0 * SymbolMs(p)
    ensures EstAirtime(p, len) <= EstAirtime(next, len)
  {
    hide RadioMs, Symbols, SymbolTime;
    SymbolTimePositive(p.sf, p.bwHz);
    RadioInSymbols(p, len);
    RadioInSymbols(next, len);
    RealMonotone(Symbols(p, len), 2.0 * Symbols(next, len), SymbolMs(p));
    Regroup(Symbols(next, len), SymbolMs(p));
  }

  lemma {:induction false} Regroup(n: real, t: real)
    ensures (2.0 * n) * t == n * (2.0 * t)
  {}

  lemma {:induction false} AirtimeGrowsWithSf(p: Phy, higher: Phy, len: nat)
    requires Settable(p) && Settable(higher)
    requires higher == p.(sf := higher.sf) && p.sf <= higher.sf
    ensures EstAirtime(p, len) <= EstAirtime(higher, len)
    decreases higher.sf - p.sf
  {
    if p.sf < higher.sf {
      var next := p.(sf := p.sf + 1);
      NextSfNotShorter(p, next, len);
      AirtimeGrowsWithSf(next, higher, len);
    }
  }

  // ----- the analyzer -----------------------------------------------------------------------

  /** From SF7 on the radio's estimate is the analyzer's value rounded down to whole milliseconds. */
  lemma {:induction false} RadioIsFloorOfAnalyzer(p: Phy, len: nat)
    requires Settable(p) && 7 <= p.sf
    ensures RadioMs(p, len) == AnalyzerMs(p, len)
    ensures EstAirtime(p, len) == AnalyzerMs(p, len).Floor
  {
    hide RadioMs, AnalyzerMs, SymbolTime, CeilDiv;
    RadioInSymbols(p, len);
    AnalyzerInSymbols(p, len);
  }

  /** What the analyzer adds to the radio's unrounded time at SF5 and SF6, in milliseconds. */
  function LowSfGap(p: Phy, len: nat): real
    requires Settable(p)
  {
    (if Blocks(p, len, 11) == Blocks(p, len, 9) then -2.0 else (p.cr - 2) as real) * SymbolMs(p)
  }

  /**
   * At SF5 and SF6 the analyzer's unrounded time is two symbols short, or one coded block less two
   * symbols long: the two never agree before rounding.
   */
  lemma {:induction false} AnalyzerDiffersAtLowSf(p: Phy, len: nat)
    requires Settable(p) && LowSf(p) && 5 <= p.cr
    ensures AnalyzerMs(p, len) - RadioMs(p, len) == LowSfGap(p, len)
    ensures LowSfGap(p, len) <= -2.0 * SymbolMs(p) || LowSfGap(p, len) >= 3.0 * SymbolMs(p)
    ensures AnalyzerMs(p, len) != RadioMs(p, len)
  {
    hide RadioMs, AnalyzerMs, SymbolTime, CeilDiv;
    RadioInSymbols(p, len);
    AnalyzerInSymbols(p, len);
    SymbolTimePositive(p.sf, p.bwHz);
    BlocksGap(p, len);
    var n, t := Blocks(p, len, 9), SymbolMs(p);
    var base := p.preamble as real + 12.25 + (n * p.cr) as real;
    assert Symbols(p, len) == base + 2.0;
    MulSplit(n, p.cr);
    Distribute(base, 2.0, t);
    Distribute(base, p.cr as real, t);
    Distribute(p.cr as real, -2.0, t);
    RealMonotone(3.0, (p.cr - 2) as real, t);
    PositiveProduct(3.0, t);
    var gap := AnalyzerMs(p, len) - RadioMs(p, len);
    assert gap == -2.0 * t || gap == (p.cr - 2) as real * t;
  }

  /** Before rounding, the two formulas agree exactly from SF7 on. */
  lemma {:induction false} UnroundedAgreeIff(p: Phy, len: nat)
    requires Settable(p) && 5 <= p.cr
    ensures RadioMs(p, len) == AnalyzerMs(p, len) <==> 7 <= p.sf
  {
    hide RadioMs, AnalyzerMs, SymbolTime, Blocks;
    if 7 <= p.sf {
      RadioIsFloorOfAnalyzer(p, len);
    } else {
      AnalyzerDiffersAtLowSf(p, len);
    }
  }

  function Fraction(x: real): real { x - x.Floor as real }

  lemma {:induction false} FloorShift(x: real, gap: real)
    ensures x.Floor == (x + gap).Floor <==> 0.0 <= Fraction(x) + gap < 1.0
  {}

  /**
   * Rounded down to whole milliseconds, the two can still agree at SF5 and SF6: exactly when the gap
   * keeps the fraction of the radio's time within its millisecond. They never do where a symbol
   * takes half a millisecond or more.
   */
  lemma {:induction false} RoundedAgreeIff(p: Phy, len: nat)
    requires Settable(p) && 5 <= p.cr
    ensures EstAirtime(p, len) == AnalyzerMs(p, len).Floor
       <==> 7 <= p.sf || 0.0 <= Fraction(Symbols(p, len) * SymbolMs(p)) + LowSfGap(p, len) < 1.0
    ensures p.sf < 7 && SymbolMs(p) >= 0.5 ==> EstAirtime(p, len) != AnalyzerMs(p, len).Floor
  {
    hide RadioMs, AnalyzerMs, SymbolTime, Blocks, Symbols, LowSfGap;
    RadioInSymbols(p, len);
    if 7 <= p.sf {
      RadioIsFloorOfAnalyzer(p, len);
    } else {
      AnalyzerDiffersAtLowSf(p, len);
      FloorShift(RadioMs(p, len), LowSfGap(p, len));
    }
  }

  lemma {:induction false} FastestSf5()
    ensures SymbolTime(5, 500000) == 0.064
  {
    SymbolTimeClosedForm(5, 500000);
    assert Words64.Pow2(5) == 32;
  }

  /** One byte at SF5 and 500 kHz takes 2 ms by both. */
  lemma {:induction false} RoundedAgreeOnce()
    ensures EstAirtime(Phy(5, 500000, 5, 16), 1) == 2 == AnalyzerMs(Phy(5, 500000, 5, 16), 1).Floor
  {
    hide RadioMs, AnalyzerMs, SymbolTime, CeilDiv;
    var p := Phy(5, 500000, 5, 16);
    RadioInSymbols(p, 1);
    AnalyzerInSymbols(p, 1);
    FastestSf5();
    assert SymbolMs(p) == 0.064;
    CeilDivBound(6, 5, 2);
    CeilDivBound(6, 5, 1);
    CeilDivBound(8, 5, 2);
    CeilDivBound(8, 5, 1);
    assert Symbols(p, 1) == 40.25;
  }

  lemma {:induction false} PositiveProduct(x: real, t: real)
    requires x > 0.0 && t > 0.0
    ensures x * t > 0.0
  {}

  lemma {:induction false} MulSplit(n: nat, cr: nat)
    ensures (n + 1) * cr == n * cr + cr
  {}

  /** Two more quarter-constants add at most one block. */
  lemma {:induction false} BlocksGap(p: Phy, len: nat)
    requires Settable(p)
    ensures Blocks(p, len, 11) == Blocks(p, len, 9) || Blocks(p, len, 11) == Blocks(p, len, 9) + 1
  {
    var a, b, n := 2 * len - p.sf + 9, Effective(p), Blocks(p, len, 9);
    BlocksMonotone(a, b, a + 2, b);
    CeilDivBound(a, b, n);
    CeilDivBound(a + 2, b, n + 1);
    MulSplit(n, b);
  }

  /** The reference point quoted beside the formula: 50 bytes at SF6, 125 kHz, 4/5, 16 preamble symbols take 61 ms. */
  lemma {:induction false} ReferencePoint()
    ensures EstAirtime(Phy(6, 125000, 5, 16), 50) == 61
  {
    var p := Phy(6, 125000, 5, 16);
    RadioInSymbols(p, 50);
    SymbolTimeClosedForm(6, 125000);
    assert Words64.Pow2(6) == 64;
    CeilDivBound(103, 6, 18);
    CeilDivBound(103, 6, 17);
    assert Symbols(p, 50) == 120.25;
    assert SymbolMs(p) == 0.512;
  }

  /** On either side of the 16 ms switch, by both formulas: 50 bytes at SF10 and SF11, 125 kHz, 4/5. */
  lemma {:induction false} AcrossTheSwitch()
    ensures RadioMs(Phy(10, 125000, 5, 16), 50) == 681.984 == AnalyzerMs(Phy(10, 125000, 5, 16), 50)
    ensures RadioMs(Phy(11, 125000, 5, 16), 50) == 1445.888 == AnalyzerMs(Phy(11, 125000, 5, 16), 50)
  {
    hide RadioMs, AnalyzerMs, CeilDiv, SymbolTime, Words64.Pow2;
    PowersUsed();
    SymbolTimeClosedForm(10, 125000);
    SymbolTimeClosedForm(11, 125000);
    var p, q := Phy(10, 125000, 5, 16), Phy(11, 125000, 5, 16);
    SymbolsFromBlocks(p, 50, 101, 10, 11);
    SymbolsFromBlocks(q, 50, 100, 9, 12);
    BothInSymbols(p, 50, 83.25, 8.192);
    BothInSymbols(q, 50, 88.25, 16.384);
  }

  lemma {:induction false} SymbolsFromBlocks(p: Phy, len: nat, a: int, b: nat, m: nat)
    requires Settable(p) && p.sf >= 7
    requires a == 2 * len - p.sf + 11 && b == Effective(p) > 0 && (m - 1) * b < a <= m * b
    ensures Symbols(p, len) == p.preamble as real + 12.25 + (m * p.cr) as real
  {
    hide CeilDiv, SymbolTime;
    CeilDivBound(a, b, m);
    CeilDivBound(a, b, m - 1);
  }

  lemma {:induction false} BothInSymbols(p: Phy, len: nat, symbols: real, t: real)
    requires Settable(p) && p.sf >= 7 && Symbols(p, len) == symbols && SymbolMs(p) == t
    ensures RadioMs(p, len) == symbols * t == AnalyzerMs(p, len)
  {
    hide RadioMs, AnalyzerMs, Symbols, SymbolMs;
    RadioInSymbols(p, len);
    RadioIsFloorOfAnalyzer(p, len);
  }

  lemma {:induction false} PowersUsed()
    ensures Words64.Pow2(10) == 1024 && Words64.Pow2(11) == 2048
  {
    assert Words64.Pow2(5) == 32;
    assert Words64.Pow2(8) == 8 * Words64.Pow2(5);
  }
}
