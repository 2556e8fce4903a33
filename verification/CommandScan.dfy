/** The scanners of the simulator's command grammar and the `team <id>` command that relies on them. */
module CommandScan {
  import opened Numerals

  predicate IsSpace(c: char) { c == ' ' }

  predicate SpacesIn(s: string, i: nat, j: nat) { forall k | i <= k < j <= |s| :: IsSpace(s[k]) }

  /**
   * The overflow guard. Comparing the stripped digits with the reprinted 32-bit accumulator detects
   * every overflow and rejects nothing else.
   */
  lemma {:induction false} GuardDetectsOverflow(s: string)
    requires AllDigits(s)
    ensures Stripped(s) == Decimal(Natural(s) % WORD32) <==> Natural(s) < WORD32
  {
    hide Natural, Decimal, Stripped;
    var n := Natural(s);
    PrintedIsStripped(s);
    ReadsBack(n);
    ReadsBack(n % WORD32);
    assert n < WORD32 <==> n % WORD32 == n;
  }

  /** For any number c below 2^32 there are numerals of any larger size whose value is c modulo 2^32. */
  lemma {:induction false} WrapIsInvisible(c: nat, turns: nat)
    requires c < WORD32
    ensures Natural(Decimal(turns * WORD32 + c)) % WORD32 == c
  {
    hide Natural, Decimal;
    ReadsBack(turns * WORD32 + c);
  }

  // ----- the scanners ------------------------------------------------------------------------

  /** Where a run of characters of one kind that begins at i ends. */
  ghost predicate RunEnds(s: string, i: nat, j: nat, kind: char -> bool) {
    i <= j <= |s| && (forall k | i <= k < j :: kind(s[k])) && (j < |s| ==> !kind(s[j]))
  }

  lemma {:induction false} RunEndUnique(s: string, i: nat, j: nat, j': nat, kind: char -> bool)
    requires RunEnds(s, i, j, kind) && RunEnds(s, i, j', kind)
    ensures j == j'
  {}

  method ScanSpaces(s: string, i: nat) returns (j: nat)
    requires i <= |s|
    ensures RunEnds(s, i, j, IsSpace)
  {
    j := i;
    while j < |s| && s[j] == ' '
      invariant i <= j <= |s| && forall k | i <= k < j :: s[k] == ' '
    {
      j := j + 1;
    }
  }

  /** Is there a radix prefix at i? */
  predicate At0xPrefix(s: string, i: nat) {
    i + 1 < |s| && s[i] == '0' && (s[i + 1] == 'x' || s[i + 1] == 'X')
  }

  /** The accumulator is 32 bits wide and wraps: it holds the value of the run modulo 2^32. */
  method ScanDec(s: string, i: nat) returns (got: bool, out: nat, j: nat)
    requires i <= |s|
    ensures RunEnds(s, i, j, IsDigit) && out == Natural(s[i..j]) % WORD32
    ensures got <==> i < j
  {
    var v := 0;
    got, j := false, i;
    while j < |s| && '0' <= s[j] <= '9'
      invariant i <= j <= |s| && forall k | i <= k < j :: IsDigit(s[k])
      invariant AllDigits(s[i..j])
      invariant v == Natural(s[i..j]) % WORD32
      invariant got <==> i < j
    {
      assert s[i..j + 1][..j - i] == s[i..j];
      WrapStep(Natural(s[i..j]), 10, DigitValue(s[j]));
      v := (v * 10 % WORD32 + DigitValue(s[j])) % WORD32;
      j, got := j + 1, true;
    }
    out := v;
    assert forall k | i <= k < j :: s[k] == s[i..j][k - i];
  }

  lemma {:induction false} WrapStep(n: nat, base: nat, d: nat)
    ensures (n % WORD32 * base % WORD32 + d) % WORD32 == (base * n + d) % WORD32
  {
    var q, r := n / WORD32, n % WORD32;
    assert n == q * WORD32 + r;
    assert base * n == (base * q) * WORD32 + base * r by {
      Distribute(base, q, r);
    }
    Drop(base * q, base * r);
    assert n % WORD32 * base == base * r;
    var q', r' := base * r / WORD32, base * r % WORD32;
    assert base * n + d == (base * q + q') * WORD32 + (r' + d);
    Drop(base * q + q', r' + d);
  }

  lemma {:induction false} Distribute(b: nat, q: nat, r: nat)
    ensures b * (q * WORD32 + r) == (b * q) * WORD32 + b * r
  {}

  lemma {:induction false} Drop(q: nat, r: nat)
    ensures (q * WORD32 + r) % WORD32 == r % WORD32
  {}

  /** Shifting in a nibble: the low four bits are free, so the or is a sum. */
  method ScanHex32(s: string, i: nat) returns (got: bool, out: nat, j: nat)
    requires i <= |s|
    ensures RunEnds(s, i, j, IsHex) && out == HexNatural(s[i..j]) % WORD32
    ensures got <==> 1 <= j - i <= 8
    ensures got ==> out == HexNatural(s[i..j])
  {
    var v, ndig := 0, 0;
    j := i;
    while j < |s| && IsHex(s[j])
      invariant i <= j <= |s| && forall k | i <= k < j :: IsHex(s[k])
      invariant AllHex(s[i..j])
      invariant v == HexNatural(s[i..j]) % WORD32
      invariant ndig == j - i
    {
      assert s[i..j + 1][..j - i] == s[i..j];
      NibbleStep(HexNatural(s[i..j]), HexValue(s[j]));
      v := v * 16 % WORD32 + HexValue(s[j]);
      ndig, j := ndig + 1, j + 1;
    }
    out := v;
    got := ndig > 0 && ndig <= 8;
    assert forall k | i <= k < j :: s[k] == s[i..j][k - i];
    if got {
      EightHexDigits(s[i..j]);
    }
  }

  lemma {:induction false} NibbleStep(n: nat, d: nat)
    requires d < 16
    ensures n % WORD32 * 16 % WORD32 + d == (16 * n + d) % WORD32
  {}

  // ----- the team command --------------------------------------------------------------------

  datatype TeamOutcome = NotTeam | Refused | Join(id: nat)

  /** What a token names: 0x and one to eight hex digits, or a decimal number below 2^32. */
  predicate Names(token: string, id: nat) {
    if At0xPrefix(token, 0) then 1 <= |token| - 2 <= 8 && AllHex(token[2..]) && id == HexNatural(token[2..])
    else token != [] && AllDigits(token) && id == Natural(token) < WORD32
  }

  /** The command asks for team id: spaces, one token in cmd[a..b] that names the id, spaces. */
  ghost predicate Asks(cmd: string, a: nat, b: nat, id: nat) {
    && "team " <= cmd && 5 <= a <= b <= |cmd|
    && SpacesIn(cmd, 5, a) && Names(cmd[a..b], id) && SpacesIn(cmd, b, |cmd|)
  }

  ghost predicate AsksFor(cmd: string, id: nat) { exists a: nat, b: nat :: Asks(cmd, a, b, id) }

  /** Where the token starts in a command that asks for an id. */
  lemma {:induction false} TokenStarts(cmd: string, a: nat, b: nat, id: nat, p: nat)
    requires Asks(cmd, a, b, id) && RunEnds(cmd, 5, p, IsSpace)
    ensures p == a < b && cmd[a..b][0] == cmd[a] && At0xPrefix(cmd[a..b], 0) == At0xPrefix(cmd, a)
  {
    assert a < b;
    assert cmd[a] == cmd[a..b][0];
    assert RunEnds(cmd, 5, a, IsSpace);
    RunEndUnique(cmd, 5, p, a, IsSpace);
    if At0xPrefix(cmd, a) {
      assert a + 1 < b;
      assert cmd[a..b][1] == cmd[a + 1];
    }
  }

  /** The digits of the token run up to its end. */
  lemma {:induction false} TokenEnds(cmd: string, d: nat, b: nat, kind: char -> bool)
    requires d <= b <= |cmd| && SpacesIn(cmd, b, |cmd|) && !kind(' ')
    requires forall k | 0 <= k < |cmd[d..b]| :: kind(cmd[d..b][k])
    ensures RunEnds(cmd, d, b, kind)
  {
    assert forall k | d <= k < b :: cmd[k] == cmd[d..b][k - d];
  }

  lemma {:induction false} SpacesToEnd(cmd: string, b: nat, q: nat)
    requires b <= |cmd| && RunEnds(cmd, b, q, IsSpace)
    ensures q == |cmd| <==> SpacesIn(cmd, b, |cmd|)
  {}

  /** What a command with a radix prefix asks for, in terms of where the scans stop. */
  lemma {:induction false} HexToken(cmd: string, p: nat, q: nat, e: nat, id: nat)
    requires "team " <= cmd && 5 <= p && RunEnds(cmd, 5, p, IsSpace) && At0xPrefix(cmd, p)
    requires RunEnds(cmd, p + 2, q, IsHex) && RunEnds(cmd, q, e, IsSpace)
    ensures AsksFor(cmd, id) <==> 1 <= q - (p + 2) <= 8 && e == |cmd| && id == HexNatural(cmd[p + 2..q])
  {
    hide HexNatural, Natural;
    SpacesToEnd(cmd, q, e);
    if 1 <= q - (p + 2) <= 8 && e == |cmd| && id == HexNatural(cmd[p + 2..q]) {
      var token := cmd[p..q];
      assert token[0] == '0' && token[1] == cmd[p + 1];
      assert token[2..] == cmd[p + 2..q];
      assert Asks(cmd, p, q, id);
    }
    if AsksFor(cmd, id) {
      var a: nat, b: nat :| Asks(cmd, a, b, id);
      TokenStarts(cmd, a, b, id, p);
      assert cmd[a..b][2..] == cmd[a + 2..b];
      TokenEnds(cmd, a + 2, b, IsHex);
      RunEndUnique(cmd, p + 2, q, b, IsHex);
    }
  }

  lemma {:induction false} DecToken(cmd: string, p: nat, q: nat, e: nat, id: nat)
    requires "team " <= cmd && 5 <= p && RunEnds(cmd, 5, p, IsSpace) && !At0xPrefix(cmd, p)
    requires RunEnds(cmd, p, q, IsDigit) && RunEnds(cmd, q, e, IsSpace)
    ensures AllDigits(cmd[p..q])
    ensures AsksFor(cmd, id) <==> p < q && Natural(cmd[p..q]) < WORD32 && e == |cmd| && id == Natural(cmd[p..q])
  {
    hide HexNatural, Natural;
    SpacesToEnd(cmd, q, e);
    if p < q && Natural(cmd[p..q]) < WORD32 && e == |cmd| && id == Natural(cmd[p..q]) {
      assert At0xPrefix(cmd[p..q], 0) ==> At0xPrefix(cmd, p);
      assert Asks(cmd, p, q, id);
    }
    if AsksFor(cmd, id) {
      var a: nat, b: nat :| Asks(cmd, a, b, id);
      TokenStarts(cmd, a, b, id, p);
      TokenEnds(cmd, a, b, IsDigit);
      RunEndUnique(cmd, p, q, b, IsDigit);
    }
  }

  method StripZeros(s: string) returns (t: string)
    ensures t == Stripped(s)
  {
    var nz := 0;
    while nz < |s| && s[nz] == '0'
      invariant 0 <= nz <= |s| && Stripped(s[nz..]) == Stripped(s)
    {
      nz := nz + 1;
    }
    t := if nz == |s| then "0" else s[nz..];
  }

  /**
   * The team command joins exactly the id it asks for, and refuses everything else: numbers of 2^32
   * or more in either radix, no digits, more than eight hex digits, and any trailing token.
   */
  method Team(cmd: string) returns (r: TeamOutcome)
    ensures r == NotTeam <==> !("team " <= cmd)
    ensures forall id :: r == Join(id) <==> AsksFor(cmd, id)
  {
    hide AsksFor, Natural, HexNatural, Stripped, Decimal;
    if !("team " <= cmd) {
      NotAsked(cmd);
      return NotTeam;
    }
    var p := ScanSpaces(cmd, 5);
    var d0 := p;
    var id, got;
    if At0xPrefix(cmd, p) {
      got, id, p := ScanHex32(cmd, p + 2);
      var q := ScanSpaces(cmd, p);
      forall id' { HexToken(cmd, d0, p, q, id'); }
      r := if got && q == |cmd| then Join(id) else Refused;
    } else {
      got, id, p := ScanDec(cmd, p);
      var digits := StripZeros(cmd[d0..p]);
      GuardDetectsOverflow(cmd[d0..p]);
      if got && digits != Decimal(id) {
        got := false;
      }
      var q := ScanSpaces(cmd, p);
      forall id' { DecToken(cmd, d0, p, q, id'); }
      r := if got && q == |cmd| then Join(id) else Refused;
    }
  }

  lemma {:induction false} NotAsked(cmd: string)
    requires !("team " <= cmd)
    ensures forall id :: !AsksFor(cmd, id)
  {}

  /** No command asks for two different ids. */
  lemma {:induction false} AsksForOne(cmd: string, id: nat, id': nat)
    requires AsksFor(cmd, id) && AsksFor(cmd, id')
    ensures id == id'
  {
    var a: nat, b: nat :| Asks(cmd, a, b, id);
    var a': nat, b': nat :| Asks(cmd, a', b', id');
    assert RunEnds(cmd, 5, a, IsSpace) by {
      assert cmd[a] == cmd[a..b][0];
    }
    TokenStarts(cmd, a', b', id', a);
    TokenStarts(cmd, a, b, id, a);
    if At0xPrefix(cmd, a) {
      assert cmd[a..b][2..] == cmd[a + 2..b] && cmd[a..b'][2..] == cmd[a + 2..b'];
      TokenEnds(cmd, a + 2, b, IsHex);
      TokenEnds(cmd, a + 2, b', IsHex);
      RunEndUnique(cmd, a + 2, b, b', IsHex);
    } else {
      TokenEnds(cmd, a, b, IsDigit);
      TokenEnds(cmd, a, b', IsDigit);
      RunEndUnique(cmd, a, b, b', IsDigit);
    }
  }

  /** Every id below 2^32 can be asked for, in decimal and with any number of leading zeros. */
  lemma {:induction false} EveryIdCanBeAsked(id: nat, zeros: string)
    requires id < WORD32 && forall k | 0 <= k < |zeros| :: zeros[k] == '0'
    ensures AsksFor("team " + zeros + Decimal(id), id)
    decreases |zeros|
  {
    var token := zeros + Decimal(id);
    var cmd := "team " + zeros + Decimal(id);
    assert cmd[5..] == token && cmd[5..|cmd|] == token;
    assert AllDigits(token);
    LeadingZeros(zeros, Decimal(id));
    ReadsBack(id);
    assert Asks(cmd, 5, |cmd|, id);
  }

  /** And in hexadecimal, after either prefix, in either case and with as many digits as fit in eight. */
  lemma {:induction false} EveryIdCanBeAskedInHex(id: nat, n: nat, prefix: string, digits: string)
    requires 1 <= n <= 8 && id < Pow16(n)
    requires prefix == "0x" || prefix == "0X"
    requires digits == LOWER || digits == UPPER
    ensures AsksFor("team " + prefix + HexWith(digits, id, n), id)
    ensures n == 8 ==> Pow16(n) == WORD32
  {
    hide HexNatural;
    EightDigits();
    EitherCaseReads(digits, id, n);
    var token := prefix + HexWith(digits, id, n);
    var cmd := "team " + prefix + HexWith(digits, id, n);
    assert token[2..] == HexWith(digits, id, n);
    assert cmd[5..|cmd|] == token;
    assert Asks(cmd, 5, |cmd|, id);
  }

  lemma {:induction false} LeadingZeros(zeros: string, s: string)
    requires AllDigits(s) && forall k | 0 <= k < |zeros| :: zeros[k] == '0'
    ensures AllDigits(zeros + s) && Natural(zeros + s) == Natural(s)
    decreases |zeros|
  {
    if zeros == [] {
      assert zeros + s == s;
    } else {
      LeadingZeros(zeros[1..], s);
      assert (zeros + s)[1..] == zeros[1..] + s;
      assert AllDigits(zeros + s);
      ZeroHead(zeros + s);
    }
  }

  // ----- the cross-layer send command ----------------------------------------------------------

  datatype LayerOutcome = NotLayer | Usage | Send(sealed: bool, ack: bool, layer: nat, hash: nat, body: string)

  predicate IsVerb(s: string) {
    s == "send_layer " || s == "send_layer_e2e " || s == "send_layerx " || s == "send_layerx_e2e "
  }

  /** Length of the verb with its space, 0 for another command. */
  function LayerPrefix(cmd: string): (x: nat)
    ensures x <= |cmd|
  {
    if "send_layerx_e2e " <= cmd then 16
    else if "send_layerx " <= cmd then 12
    else if "send_layer_e2e " <= cmd then 15
    else if "send_layer " <= cmd then 11
    else 0
  }

  predicate Sealed(cmd: string) { "send_layerx_e2e " <= cmd || "send_layerx " <= cmd }

  predicate Acked(cmd: string) { "send_layerx_e2e " <= cmd || "send_layer_e2e " <= cmd }

  predicate HashToken(s: string) {
    if At0xPrefix(s, 0) then 1 <= |s| - 2 <= 8 && AllHex(s[2..]) else s != [] && AllDigits(s)
  }

  /** The number a hash token is written for. */
  function TokenValue(s: string): nat
    requires HashToken(s)
  {
    if At0xPrefix(s, 0) then HexNatural(s[2..]) else Natural(s)
  }

  /** The command is laid out as verb, layer digits in a..b, hash token in c..d, a space and the text. */
  ghost predicate LayerAt(cmd: string, a: nat, b: nat, c: nat, d: nat) {
    && 0 < LayerPrefix(cmd) <= a < b < c < d < |cmd|
    && SpacesIn(cmd, LayerPrefix(cmd), a) && AllDigits(cmd[a..b])
    && SpacesIn(cmd, b, c) && HashToken(cmd[c..d]) && cmd[d] == ' '
  }

  /** The command names these numbers, however large, and this text. */
  ghost predicate TypedAt(cmd: string, a: nat, b: nat, c: nat, d: nat, layer: nat, hash: nat, body: string) {
    && LayerAt(cmd, a, b, c, d)
    && layer == Natural(cmd[a..b]) && hash == TokenValue(cmd[c..d]) && body == cmd[d + 1..]
  }

  ghost predicate Typed(cmd: string, layer: nat, hash: nat, body: string) {
    exists a: nat, b: nat, c: nat, d: nat :: TypedAt(cmd, a, b, c, d, layer, hash, body)
  }

  /** What is sent: both numbers as the 32-bit accumulators hold them, the layer capped. */
  ghost predicate Sends(cmd: string, layer: nat, hash: nat, body: string) {
    exists typedLayer: nat, typedHash: nat ::
      && Typed(cmd, typedLayer, typedHash, body)
      && layer == typedLayer % WORD32 && hash == typedHash % WORD32 && 1 <= layer <= 255
  }

  predicate IsTokenChar(hex: bool, c: char) { if hex then IsHex(c) else IsDigit(c) }

  /** Where the four scans stop. */
  ghost predicate LayerScans(cmd: string, a: nat, b: nat, c: nat, d: nat) {
    var hex := At0xPrefix(cmd, c);
    && RunEnds(cmd, LayerPrefix(cmd), a, IsSpace) && RunEnds(cmd, a, b, IsDigit) && RunEnds(cmd, b, c, IsSpace)
    && RunEnds(cmd, if hex then c + 2 else c, d, ch => IsTokenChar(hex, ch))
  }

  lemma {:induction false} ScansUnique(cmd: string, a: nat, b: nat, c: nat, d: nat, a': nat, b': nat, c': nat, d': nat)
    requires LayerScans(cmd, a, b, c, d) && LayerScans(cmd, a', b', c', d')
    ensures a == a' && b == b' && c == c' && d == d'
  {
    RunEndUnique(cmd, LayerPrefix(cmd), a, a', IsSpace);
    RunEndUnique(cmd, a, b, b', IsDigit);
    RunEndUnique(cmd, b, c, c', IsSpace);
  }

  /** A command that is laid out as it should be is scanned that way. */
  lemma {:induction false} LayoutScans(cmd: string, a: nat, b: nat, c: nat, d: nat)
    requires LayerAt(cmd, a, b, c, d)
    ensures LayerScans(cmd, a, b, c, d) && At0xPrefix(cmd[c..d], 0) == At0xPrefix(cmd, c)
  {
    var token := cmd[c..d];
    assert forall k | a <= k < b :: cmd[k] == cmd[a..b][k - a];
    assert forall k | c <= k < d :: cmd[k] == token[k - c];
    assert IsSpace(cmd[b]);
    if At0xPrefix(token, 0) {
      assert forall k | c + 2 <= k < d :: cmd[k] == token[2..][k - c - 2];
    } else {
      assert cmd[d] != 'x' && cmd[d] != 'X';
      assert !At0xPrefix(cmd, c);
    }
  }

  /** And what the scans find is laid out so, if both numbers are there and a space follows. */
  lemma {:induction false} ScansLayout(cmd: string, a: nat, b: nat, c: nat, d: nat)
    requires LayerPrefix(cmd) > 0 && LayerScans(cmd, a, b, c, d)
    requires a < b && d < |cmd| && cmd[d] == ' '
    requires if At0xPrefix(cmd, c) then 1 <= d - (c + 2) <= 8 else c < d
    ensures LayerAt(cmd, a, b, c, d)
    ensures TokenValue(cmd[c..d]) == if At0xPrefix(cmd, c) then HexNatural(cmd[c + 2..d]) else Natural(cmd[c..d])
  {
    hide HexNatural, Natural;
    var token := cmd[c..d];
    assert IsDigit(cmd[c]);
    assert b < c;
    assert forall k | 0 <= k < |token| :: token[k] == cmd[c + k];
    if At0xPrefix(cmd, c) {
      assert token[2..] == cmd[c + 2..d];
    }
  }

  lemma {:induction false} TypedOnce(cmd: string, layer: nat, hash: nat, body: string,
                                     layer': nat, hash': nat, body': string)
    requires Typed(cmd, layer, hash, body) && Typed(cmd, layer', hash', body')
    ensures layer == layer' && hash == hash' && body == body'
  {
    hide Natural, TokenValue, LayerScans;
    var a: nat, b: nat, c: nat, d: nat :| TypedAt(cmd, a, b, c, d, layer, hash, body);
    var a': nat, b': nat, c': nat, d': nat :| TypedAt(cmd, a', b', c', d', layer', hash', body');
    LayoutScans(cmd, a, b, c, d);
    LayoutScans(cmd, a', b', c', d');
    ScansUnique(cmd, a, b, c, d, a', b', c', d');
  }

  /** The hash token: hexadecimal after a radix prefix, else decimal. */
  method ScanHash(cmd: string, c: nat) returns (got: bool, hash: nat, d: nat)
    requires c <= |cmd|
    ensures var hex := At0xPrefix(cmd, c);
            RunEnds(cmd, if hex then c + 2 else c, d, ch => IsTokenChar(hex, ch))
    ensures At0xPrefix(cmd, c) ==> AllHex(cmd[c + 2..d]) && hash == HexNatural(cmd[c + 2..d]) % WORD32
    ensures !At0xPrefix(cmd, c) ==> AllDigits(cmd[c..d]) && hash == Natural(cmd[c..d]) % WORD32
    ensures got <==> if At0xPrefix(cmd, c) then 1 <= d - (c + 2) <= 8 else c < d
  {
    hide HexNatural, Natural;
    if At0xPrefix(cmd, c) {
      got, hash, d := ScanHex32(cmd, c + 2);
    } else {
      got, hash, d := ScanDec(cmd, c);
    }
  }

  /**
   * The cross-layer send: over all command strings it sends exactly what Sends says. Unlike the team
   * command it has no overflow guard; the cap is applied to the wrapped value.
   */
  method SendLayer(cmd: string) returns (r: LayerOutcome)
    ensures r == NotLayer <==> LayerPrefix(cmd) == 0
    ensures forall layer, hash, body ::
              r == Send(Sealed(cmd), Acked(cmd), layer, hash, body) <==> Sends(cmd, layer, hash, body)
    ensures r.Send? && "send_layer " <= cmd ==> !r.sealed && !r.ack
    ensures r.Send? && "send_layer_e2e " <= cmd ==> !r.sealed && r.ack
    ensures r.Send? && "send_layerx " <= cmd ==> r.sealed && !r.ack
    ensures r.Send? && "send_layerx_e2e " <= cmd ==> r.sealed && r.ack
    ensures r == NotLayer <==> (forall verb | IsVerb(verb) :: !(verb <= cmd))
  {
    hide HexNatural, Natural, Sends, LayerPrefix, Sealed, Acked, IsVerb;
    VerbsDecide(cmd);
    var x := LayerPrefix(cmd);
    if x == 0 {
      NothingTyped(cmd);
      return NotLayer;
    }
    var a := ScanSpaces(cmd, x);
    var gl, layer, b := ScanDec(cmd, a);
    var c := ScanSpaces(cmd, b);
    var gh, hash, d := ScanHash(cmd, c);
    assert LayerScans(cmd, a, b, c, d);
    forall layer', hash', body {
      LayerVerdict(cmd, a, b, c, d, layer', hash', body);
    }
    if gl && gh && layer >= 1 && layer <= 255 && d < |cmd| && cmd[d] == ' ' {
      r := Send(Sealed(cmd), Acked(cmd), layer, hash, cmd[d + 1..]);
    } else {
      r := Usage;
    }
  }

  /** What the four verbs ask for: no command begins with two of them. */
  lemma {:induction false} VerbDecides(cmd: string, verb: string)
    requires IsVerb(verb) && verb <= cmd
    ensures LayerPrefix(cmd) == |verb| >= 11
    ensures Sealed(cmd) <==> verb == "send_layerx " || verb == "send_layerx_e2e "
    ensures Acked(cmd) <==> verb == "send_layer_e2e " || verb == "send_layerx_e2e "
  {
    assert verb[10] == cmd[10];
    if verb[10] == 'x' {
      assert verb[11] == cmd[11];
    }
  }

  lemma {:induction false} VerbsDecide(cmd: string)
    ensures LayerPrefix(cmd) == 0 <==> (forall verb | IsVerb(verb) :: !(verb <= cmd))
    ensures "send_layer " <= cmd ==> !Sealed(cmd) && !Acked(cmd)
    ensures "send_layer_e2e " <= cmd ==> !Sealed(cmd) && Acked(cmd)
    ensures "send_layerx " <= cmd ==> Sealed(cmd) && !Acked(cmd)
    ensures "send_layerx_e2e " <= cmd ==> Sealed(cmd) && Acked(cmd)
  {
    forall verb | IsVerb(verb) && verb <= cmd
      ensures LayerPrefix(cmd) > 0
    {
      VerbDecides(cmd, verb);
    }
    if LayerPrefix(cmd) > 0 {
      var verb := cmd[..LayerPrefix(cmd)];
      assert IsVerb(verb) && verb <= cmd;
    }
    if "send_layer " <= cmd { VerbDecides(cmd, "send_layer "); }
    if "send_layer_e2e " <= cmd { VerbDecides(cmd, "send_layer_e2e "); }
    if "send_layerx " <= cmd { VerbDecides(cmd, "send_layerx "); }
    if "send_layerx_e2e " <= cmd { VerbDecides(cmd, "send_layerx_e2e "); }
  }

  lemma {:induction false} NothingTyped(cmd: string)
    requires LayerPrefix(cmd) == 0
    ensures forall layer, hash, body :: !Sends(cmd, layer, hash, body)
  {}

  /** What is sent, in terms of where the scans stop. */
  ghost predicate Accepted(cmd: string, a: nat, b: nat, c: nat, d: nat, layer: nat, hash: nat, body: string)
    requires LayerScans(cmd, a, b, c, d)
  {
    ScannedRuns(cmd, a, b, c, d);
    && a < b && d < |cmd| && cmd[d] == ' ' && 1 <= layer <= 255
    && (if At0xPrefix(cmd, c) then 1 <= d - (c + 2) <= 8 else c < d)
    && layer == Natural(cmd[a..b]) % WORD32 && body == cmd[d + 1..]
    && hash == (if At0xPrefix(cmd, c) then HexNatural(cmd[c + 2..d]) else Natural(cmd[c..d])) % WORD32
  }

  lemma {:induction false} ScannedRuns(cmd: string, a: nat, b: nat, c: nat, d: nat)
    requires LayerScans(cmd, a, b, c, d)
    ensures a <= b <= c <= d <= |cmd| && AllDigits(cmd[a..b])
    ensures if At0xPrefix(cmd, c) then c + 2 <= d && AllHex(cmd[c + 2..d]) else AllDigits(cmd[c..d])
  {}

  lemma {:induction false} LayerVerdict(cmd: string, a: nat, b: nat, c: nat, d: nat,
                                        layer: nat, hash: nat, body: string)
    requires LayerPrefix(cmd) > 0 && LayerScans(cmd, a, b, c, d)
    ensures Sends(cmd, layer, hash, body) <==> Accepted(cmd, a, b, c, d, layer, hash, body)
  {
    if Sends(cmd, layer, hash, body) {
      SentAccepted(cmd, a, b, c, d, layer, hash, body);
    }
    if Accepted(cmd, a, b, c, d, layer, hash, body) {
      AcceptedSent(cmd, a, b, c, d, layer, hash, body);
    }
  }

  lemma {:induction false} SentAccepted(cmd: string, a: nat, b: nat, c: nat, d: nat,
                                        layer: nat, hash: nat, body: string)
    requires LayerScans(cmd, a, b, c, d) && Sends(cmd, layer, hash, body)
    ensures Accepted(cmd, a, b, c, d, layer, hash, body)
  {
    hide HexNatural, Natural, LayerPrefix, At0xPrefix, SpacesIn;
    var l: nat, h: nat :| Typed(cmd, l, h, body) && layer == l % WORD32 && hash == h % WORD32 && 1 <= layer <= 255;
    var a': nat, b': nat, c': nat, d': nat :| TypedAt(cmd, a', b', c', d', l, h, body);
    LayoutScans(cmd, a', b', c', d');
    ScansUnique(cmd, a, b, c, d, a', b', c', d');
    hide LayerScans;
    var token := cmd[c..d];
    if At0xPrefix(cmd, c) {
      assert token[2..] == cmd[c + 2..d];
    }
  }

  lemma {:induction false} AcceptedSent(cmd: string, a: nat, b: nat, c: nat, d: nat,
                                        layer: nat, hash: nat, body: string)
    requires LayerPrefix(cmd) > 0 && LayerScans(cmd, a, b, c, d)
    requires Accepted(cmd, a, b, c, d, layer, hash, body)
    ensures Sends(cmd, layer, hash, body)
  {
    hide HexNatural, Natural, LayerPrefix;
    ScansLayout(cmd, a, b, c, d);
    var (l, h) := (Natural(cmd[a..b]), TokenValue(cmd[c..d]));
    assert TypedAt(cmd, a, b, c, d, l, h, body);
    assert Typed(cmd, l, h, body) && layer == l % WORD32 && hash == h % WORD32;
  }

  /**
   * Where the cap fails: a layer other than the one typed is accepted exactly when the typed number is
   * 2^32 or more and wraps into 1..255.
   */
  lemma {:induction false} LayerMisreadIff(cmd: string, typedLayer: nat, typedHash: nat, body: string)
    requires Typed(cmd, typedLayer, typedHash, body)
    ensures (exists layer, hash, text :: Sends(cmd, layer, hash, text) && layer != typedLayer)
       <==> typedLayer >= WORD32 && 1 <= typedLayer % WORD32 <= 255
  {
    hide Typed;
    if exists layer, hash, text :: Sends(cmd, layer, hash, text) && layer != typedLayer {
      var layer, hash, text :| Sends(cmd, layer, hash, text) && layer != typedLayer;
      var l: nat, h: nat :| Typed(cmd, l, h, text) && layer == l % WORD32 && hash == h % WORD32 && 1 <= layer <= 255;
      TypedOnce(cmd, typedLayer, typedHash, body, l, h, text);
    }
    if typedLayer >= WORD32 && 1 <= typedLayer % WORD32 <= 255 {
      assert Sends(cmd, typedLayer % WORD32, typedHash % WORD32, body);
    }
  }

  /** The hash has no cap at all: it is used as typed exactly when it is below 2^32, which in hex it always is. */
  lemma {:induction false} HashExactIff(cmd: string, typedLayer: nat, typedHash: nat, body: string)
    requires Typed(cmd, typedLayer, typedHash, body) && 1 <= typedLayer % WORD32 <= 255
    ensures Sends(cmd, typedLayer % WORD32, typedHash % WORD32, body)
    ensures (forall layer, hash, text | Sends(cmd, layer, hash, text) :: hash == typedHash) <==> typedHash < WORD32
  {
    hide Typed;
    assert Sends(cmd, typedLayer % WORD32, typedHash % WORD32, body);
    forall layer, hash, text | Sends(cmd, layer, hash, text)
      ensures hash == typedHash % WORD32
    {
      var l: nat, h: nat :| Typed(cmd, l, h, text) && layer == l % WORD32 && hash == h % WORD32;
      TypedOnce(cmd, typedLayer, typedHash, body, l, h, text);
    }
  }

  /** Any two numbers, however large, can be typed, with each of the verbs. */
  lemma {:induction false} AnyNumbersTyped(verb: string, layerDigits: string, hashDigits: string, text: string)
    requires IsVerb(verb)
    requires layerDigits != [] && AllDigits(layerDigits) && hashDigits != [] && AllDigits(hashDigits)
    ensures Typed(verb + layerDigits + " " + hashDigits + " " + text,
                  Natural(layerDigits), Natural(hashDigits), text)
  {
    var cmd := verb + layerDigits + " " + hashDigits + " " + text;
    assert verb <= cmd;
    VerbDecides(cmd, verb);
    LaidOut(cmd, verb, layerDigits, hashDigits, text);
  }

  lemma {:induction false} LaidOut(cmd: string, verb: string, layerDigits: string, hashDigits: string, text: string)
    requires cmd == verb + layerDigits + " " + hashDigits + " " + text && LayerPrefix(cmd) == |verb| > 0
    requires layerDigits != [] && AllDigits(layerDigits) && hashDigits != [] && AllDigits(hashDigits)
    ensures Typed(cmd, Natural(layerDigits), Natural(hashDigits), text)
  {
    hide Natural, LayerPrefix;
    var a := |verb|;
    var b := a + |layerDigits|;
    var d := b + 1 + |hashDigits|;
    assert cmd[a..b] == layerDigits && cmd[b] == ' ';
    assert cmd[b + 1..d] == hashDigits && cmd[d] == ' ' && cmd[d + 1..] == text;
    assert TypedAt(cmd, a, b, b + 1, d, Natural(layerDigits), Natural(hashDigits), text);
  }

  /** Whatever the number of turns, a layer that many times 2^32 too large is sent to layer c. */
  lemma {:induction false} WrappedLayers(verb: string, c: nat, turns: nat, hashDigits: string, text: string)
    requires IsVerb(verb) && 1 <= c <= 255 && hashDigits != [] && AllDigits(hashDigits)
    ensures Sends(verb + Decimal(turns * WORD32 + c) + " " + hashDigits + " " + text,
                  c, Natural(hashDigits) % WORD32, text)
  {
    hide Natural, Decimal, Typed, LayerPrefix;
    WrapIsInvisible(c, turns);
    AnyNumbersTyped(verb, Decimal(turns * WORD32 + c), hashDigits, text);
  }

  /** Layer 4294967297 is sent to layer 1. */
  lemma {:induction false} WrappedLayer()
    ensures Typed("send_layer 4294967297 5 hi", 4294967297, 5, "hi")
    ensures Sends("send_layer 4294967297 5 hi", 1, 5, "hi")
  {
    hide Natural, Typed, AllDigits;
    BigNumeral('7');
    SmallNumeral('5');
    assert "429496729" + ['7'] == "4294967297" && ['5'] == "5";
    AnyNumbersTyped("send_layer ", "4294967297", "5", "hi");
    assert "send_layer " + "4294967297" + " " + "5" + " " + "hi" == "send_layer 4294967297 5 hi";
  }

  /** Hash 4294967296 addresses hash 0. */
  lemma {:induction false} WrappedHash()
    ensures Typed("send_layer 1 4294967296 hi", 1, 4294967296, "hi")
    ensures Sends("send_layer 1 4294967296 hi", 1, 0, "hi")
  {
    hide Natural, Typed, AllDigits;
    BigNumeral('6');
    SmallNumeral('1');
    assert "429496729" + ['6'] == "4294967296" && ['1'] == "1";
    AnyNumbersTyped("send_layer ", "1", "4294967296", "hi");
    assert "send_layer " + "1" + " " + "4294967296" + " " + "hi" == "send_layer 1 4294967296 hi";
  }

  lemma {:induction false} SmallNumeral(c: char)
    requires IsDigit(c)
    ensures AllDigits([c]) && Natural([c]) == DigitValue(c)
  {
    assert [c][..0] == [];
  }

  lemma {:induction false} BigNumeral(c: char)
    requires IsDigit(c)
    ensures AllDigits("429496729" + [c]) && Natural("429496729" + [c]) == 4294967290 + DigitValue(c)
  {
    hide Natural, AllDigits;
    SmallNumeral('4');
    Grow("4", '2', 4);
    Grow("42", '9', 42);
    Grow("429", '4', 429);
    Grow("4294", '9', 4294);
    Grow("42949", '6', 42949);
    Grow("429496", '7', 429496);
    Grow("4294967", '2', 4294967);
    Grow("42949672", '9', 42949672);
    Grow("429496729", c, 429496729);
    assert "4" + ['2'] == "42" && "42" + ['9'] == "429" && "429" + ['4'] == "4294";
    assert "4294" + ['9'] == "42949" && "42949" + ['6'] == "429496" && "429496" + ['7'] == "4294967";
    assert "4294967" + ['2'] == "42949672" && "42949672" + ['9'] == "429496729";
  }

  lemma {:induction false} Grow(s: string, c: char, n: nat)
    requires IsDigit(c)
    ensures AllDigits(s) ==> AllDigits(s + [c])
    ensures AllDigits(s) && Natural(s) == n ==> Natural(s + [c]) == 10 * n + DigitValue(c)
  {
    assert (s + [c])[..|s|] == s;
  }
}
