/** Pieces of text laid one after another into bounded room. */
module BoundedText {

  function Concat(pieces: seq<string>): string {
    if pieces == [] then [] else pieces[0] + Concat(pieces[1..])
  }

  /** How many leading pieces go in when writing stops at the first that does not fit whole. */
  function Fitting(pieces: seq<string>, room: nat): (k: nat)
    ensures k <= |pieces|
  {
    if pieces == [] || |pieces[0]| > room then 0 else 1 + Fitting(pieces[1..], room - |pieces[0]|)
  }

  /** The pieces kept are the longest run of leading pieces that fits. */
  lemma {:induction false} FittingIsLongest(pieces: seq<string>, room: nat, j: nat)
    requires j <= |pieces|
    ensures j <= Fitting(pieces, room) <==> |Concat(pieces[..j])| <= room
    decreases |pieces|
  {
    if j > 0 {
      assert pieces[..j][1..] == pieces[1..][..j - 1];
      if |pieces[0]| <= room {
        FittingIsLongest(pieces[1..], room - |pieces[0]|, j - 1);
      }
    }
  }

  lemma {:induction false} ConcatAppend(p: seq<string>, q: seq<string>)
    ensures Concat(p + q) == Concat(p) + Concat(q)
  {
    if p == [] {
      assert p + q == q;
    } else {
      assert (p + q)[1..] == p[1..] + q;
      ConcatAppend(p[1..], q);
    }
  }

  lemma {:induction false} ConcatOne(x: string)
    ensures Concat([x]) == x
  {
    assert [x][1..] == [];
  }

  /** What one more piece does. */
  lemma {:induction false} OneMorePiece(p: seq<string>, x: string, room: nat)
    ensures Fitting(p, room) == |p| <==> |Concat(p)| <= room
    ensures Fitting(p + [x], room) == if |Concat(p)| + |x| <= room then |p| + 1 else Fitting(p, room)
    ensures Concat(p + [x]) == Concat(p) + x
  {
    ConcatAppend(p, [x]);
    ConcatOne(x);
    FittingIsLongest(p, room, |p|);
    assert p[..|p|] == p;
    var k := Fitting(p + [x], room);
    FittingIsLongest(p + [x], room, |p| + 1);
    assert (p + [x])[..|p| + 1] == p + [x];
    if k <= |p| {
      FittingIsLongest(p + [x], room, k);
      FittingIsLongest(p, room, k);
      assert (p + [x])[..k] == p[..k];
      var k' := Fitting(p, room);
      FittingIsLongest(p + [x], room, k');
      FittingIsLongest(p, room, k');
      assert (p + [x])[..k'] == p[..k'];
    }
  }

  /** What stands in the room once all pieces have been tried. */
  function Laid(pieces: seq<string>, room: nat): string { Concat(pieces[..Fitting(pieces, room)]) }

  predicate AllFit(pieces: seq<string>, room: nat) { Fitting(pieces, room) == |pieces| }

  /** One more piece is laid if all before it were and it fits; otherwise it leaves no trace. */
  lemma {:induction false} OneMoreLaid(p: seq<string>, x: string, room: nat)
    ensures |Laid(p, room)| <= room
    ensures AllFit(p + [x], room) <==> AllFit(p, room) && |Laid(p, room)| + |x| <= room
    ensures Laid(p + [x], room) == if AllFit(p + [x], room) then Laid(p, room) + x else Laid(p, room)
  {
    hide Concat, Fitting;
    OneMorePiece(p, x, room);
    FittingIsLongest(p, room, Fitting(p, room));
    assert p[..|p|] == p && (p + [x])[..|p| + 1] == p + [x];
    assert (p + [x])[..Fitting(p, room)] == p[..Fitting(p, room)];
  }
}

/** The number grammar of section 6 of RFC 8259. */
module JsonNumber {
  import opened Numerals

  /** How many digits a text starts with. */
  function DigitRun(s: string): (n: nat)
    ensures n <= |s| && AllDigits(s[..n])
  {
    if s == [] || !IsDigit(s[0]) then 0
    else
      var n := DigitRun(s[1..]);
      assert s[..n + 1] == [s[0]] + s[1..][..n];
      n + 1
  }

  predicate Exponent(s: string) {
    s == []
    || ((s[0] == 'e' || s[0] == 'E')
        && var digits := if |s| > 1 && (s[1] == '+' || s[1] == '-') then s[2..] else s[1..];
           digits != [] && AllDigits(digits))
  }

  predicate FractionAndExponent(s: string) {
    if s != [] && s[0] == '.' then
      var n := DigitRun(s[1..]);
      n > 0 && Exponent(s[1 + n..])
    else Exponent(s)
  }

  predicate Unsigned(s: string) {
    var n := DigitRun(s);
    n > 0 && (n == 1 || s[0] != '0') && FractionAndExponent(s[n..])
  }

  predicate Number(s: string) { Unsigned(if s != [] && s[0] == '-' then s[1..] else s) }

  ghost predicate WholePart(s: string) { AllDigits(s) && (|s| == 1 || (|s| > 1 && s[0] != '0')) }

  ghost predicate FractionPart(s: string) { s == "" || (|s| > 1 && s[0] == '.' && AllDigits(s[1..])) }

  ghost predicate ExponentPart(s: string) {
    || s == ""
    || (|s| > 1 && (s[0] == 'e' || s[0] == 'E') && AllDigits(s[1..]))
    || (|s| > 2 && (s[0] == 'e' || s[0] == 'E') && (s[1] == '+' || s[1] == '-') && AllDigits(s[2..]))
  }

  /** A minus or nothing, digits without a leading zero, a fraction or none, and an exponent or none. */
  ghost predicate Parts(s: string, minus: string, whole: string, frac: string, exp: string) {
    && s == minus + (whole + (frac + exp)) && (minus == "" || minus == "-")
    && WholePart(whole) && FractionPart(frac) && ExponentPart(exp)
  }

  /** The digits that a text starts with end where something else begins. */
  lemma {:induction false} DigitRunEnds(a: string, b: string)
    requires AllDigits(a) && (b == [] || !IsDigit(b[0]))
    ensures DigitRun(a + b) == |a|
  {
    if a == [] {
      assert a + b == b;
    } else {
      assert (a + b)[1..] == a[1..] + b;
      DigitRunEnds(a[1..], b);
    }
  }

  lemma {:induction false} DigitRunMaximal(s: string)
    ensures DigitRun(s) < |s| ==> !IsDigit(s[DigitRun(s)])
  {
    if s != [] && IsDigit(s[0]) {
      DigitRunMaximal(s[1..]);
    }
  }

  /** The grammar by its parts: a text is a number exactly when it is put together from these four. */
  lemma {:induction false} NumberIff(s: string)
    ensures Number(s) <==> exists minus, whole, frac, exp :: Parts(s, minus, whole, frac, exp)
  {
    if Number(s) {
      var minus, whole, frac, exp := PartsOf(s);
    }
    if minus, whole, frac, exp :| Parts(s, minus, whole, frac, exp) {
      PartsMakeNumber(s, minus, whole, frac, exp);
    }
  }

  lemma {:induction false} PartsOf(s: string) returns (minus: string, whole: string, frac: string, exp: string)
    requires Number(s)
    ensures Parts(s, minus, whole, frac, exp)
  {
    hide Unsigned, WholePart, FractionPart, ExponentPart;
    minus := if s != [] && s[0] == '-' then "-" else "";
    var u := s[|minus|..];
    assert s == minus + u;
    whole, frac, exp := UnsignedParts(u);
  }

  lemma {:induction false} UnsignedParts(u: string) returns (whole: string, frac: string, exp: string)
    requires Unsigned(u)
    ensures u == whole + (frac + exp) && WholePart(whole) && FractionPart(frac) && ExponentPart(exp)
  {
    hide DigitRun, FractionAndExponent, FractionPart, ExponentPart;
    whole := u[..DigitRun(u)];
    frac, exp := FractionOf(u[|whole|..]);
    assert u == whole + u[|whole|..];
  }

  lemma {:induction false} FractionOf(s: string) returns (frac: string, exp: string)
    requires FractionAndExponent(s)
    ensures s == frac + exp && FractionPart(frac) && ExponentPart(exp)
  {
    hide DigitRun;
    frac := if s != [] && s[0] == '.' then s[..1 + DigitRun(s[1..])] else "";
    exp := s[|frac|..];
    if frac != "" {
      assert frac[1..] == s[1..][..DigitRun(s[1..])];
    } else {
      assert exp == s;
    }
  }

  lemma {:induction false} PartsMakeNumber(s: string, minus: string, whole: string, frac: string, exp: string)
    requires Parts(s, minus, whole, frac, exp)
    ensures Number(s)
  {
    hide DigitRun, FractionAndExponent, FractionPart, ExponentPart;
    var tail := frac + exp;
    var u := whole + tail;
    PartsMakeFraction(frac, exp);
    DigitRunEnds(whole, tail);
    assert u[|whole|..] == tail && u[0] == whole[0];
    assert Unsigned(u);
    assert minus == "-" ==> s[0] == '-' && s[1..] == u;
    assert minus == "" ==> s == u;
  }

  lemma {:induction false} PartsMakeFraction(frac: string, exp: string)
    requires FractionPart(frac) && ExponentPart(exp)
    ensures FractionAndExponent(frac + exp)
    ensures frac + exp == "" || !IsDigit((frac + exp)[0])
  {
    hide DigitRun;
    var s := frac + exp;
    PartMakesExponent(exp);
    if frac == "" {
      assert s == exp;
    } else {
      DigitRunEnds(frac[1..], exp);
      assert s[1..] == frac[1..] + exp && s[|frac|..] == exp;
    }
  }

  lemma {:induction false} PartMakesExponent(exp: string)
    requires ExponentPart(exp)
    ensures Exponent(exp) && (exp == "" || !IsDigit(exp[0]))
  {
    if |exp| > 1 && AllDigits(exp[1..]) {
      assert exp[1] == exp[1..][0];
    }
  }

  predicate NumberChar(c: char) { IsDigit(c) || c == '-' || c == '+' || c == '.' || c == 'e' || c == 'E' }

  predicate NumberChars(s: string) { forall i | 0 <= i < |s| :: NumberChar(s[i]) }

  lemma {:induction false} Joined(s: string, n: nat)
    requires n <= |s| && NumberChars(s[..n]) && NumberChars(s[n..])
    ensures NumberChars(s)
  {
    assert s == s[..n] + s[n..];
  }

  lemma {:induction false} DigitsAreChars(s: string)
    requires AllDigits(s)
    ensures NumberChars(s)
  {}

  lemma {:induction false} ExponentChars(s: string)
    requires Exponent(s)
    ensures NumberChars(s)
  {
    if s != [] {
      Joined(s, if |s| > 1 && (s[1] == '+' || s[1] == '-') then 2 else 1);
    }
  }

  lemma {:induction false} FractionChars(s: string)
    requires FractionAndExponent(s)
    ensures NumberChars(s)
  {
    hide Exponent, DigitRun;
    if s != [] && s[0] == '.' {
      var m := DigitRun(s[1..]);
      ExponentChars(s[1 + m..]);
      assert s[1..][..m] == s[1..1 + m];
      DigitsAreChars(s[1..1 + m]);
      assert s[..1 + m] == ['.'] + s[1..1 + m];
      Joined(s, 1 + m);
    } else {
      ExponentChars(s);
    }
  }

  /** A number is written with digits, signs, the point and the exponent's letter only. */
  lemma {:induction false} NumberIsChars(s: string)
    requires Number(s)
    ensures s != [] && NumberChars(s)
  {
    var u := if s[0] == '-' then s[1..] else s;
    var n := DigitRun(u);
    var rest := u[n..];
    FractionChars(rest);
    hide FractionAndExponent, DigitRun;
    DigitsAreChars(u[..n]);
    Joined(u, n);
    Joined(s, |s| - |u|);
  }

  lemma {:induction false} AllDigitsRun(s: string)
    requires AllDigits(s)
    ensures DigitRun(s) == |s|
  {
    if s != [] {
      AllDigitsRun(s[1..]);
    }
  }

  /** Printed integers are numbers. */
  lemma {:induction false} IntegerIsNumber(n: nat)
    ensures Number(Decimal(n)) && Number("-" + Decimal(n))
  {
    hide Decimal;
    var s := Decimal(n);
    NoLeadingZero(n);
    AllDigitsRun(s);
    assert s[|s|..] == [];
    assert ("-" + s)[1..] == s;
    assert IsDigit(s[0]);
  }
}

/** Escaping text for a JSON string and reading it back. */
module JsonText {
  import opened BoundedText
  import opened Utf8Text

  /** A terminated string's characters, one per byte. */
  type CString = s: string | '\0' !in s

  function EscChar(c: char): (e: string)
    ensures 1 <= |e| <= 2
  {
    if c == '"' || c == '\\' then ['\\', c]
    else if c == '\n' then ['\\', 'n']
    else if c == '\t' then ['\\', 't']
    else [c]
  }

  function Pieces(s: string): (p: seq<string>)
    ensures |p| == |s| && forall i | 0 <= i < |s| :: p[i] == EscChar(s[i])
  {
    seq(|s|, i requires 0 <= i < |s| => EscChar(s[i]))
  }

  function Esc(s: string): string { Concat(Pieces(s)) }

  lemma {:induction false} EscStep(s: string)
    requires s != []
    ensures Esc(s) == EscChar(s[0]) + Esc(s[1..])
  {
    assert Pieces(s)[1..] == Pieces(s[1..]);
  }

  lemma {:induction false} EscPrefix(s: string, k: nat)
    requires k < |s|
    ensures Esc(s[..k + 1]) == Esc(s[..k]) + EscChar(s[k])
  {
    assert Pieces(s[..k + 1]) == Pieces(s[..k]) + [EscChar(s[k])];
    OneMorePiece(Pieces(s[..k]), EscChar(s[k]), 0);
  }

  /** The part of a text that goes, escaped and whole, into `room` characters. */
  function Kept(s: string, room: nat): string { s[..Fitting(Pieces(s), room)] }

  /** It is the longest prefix whose escaped form fits. */
  lemma {:induction false} KeptIsLongest(s: string, room: nat, j: nat)
    requires j <= |s|
    ensures s[..j] <= Kept(s, room) <==> |Esc(s[..j])| <= room
  {
    FittingIsLongest(Pieces(s), room, j);
    assert Pieces(s)[..j] == Pieces(s[..j]);
  }

  // ----- reading a string back ----------------------------------------------------------------

  function EscapeMeans(c: char): (r: string)
    ensures |r| <= 1
  {
    if c == '"' || c == '\\' || c == '/' then [c]
    else if c == 'n' then "\n" else if c == 't' then "\t" else if c == 'r' then "\r"
    else if c == 'b' then [8 as char] else if c == 'f' then [12 as char]
    else []
  }

  const ESCAPED := "\"\\/bfnrt"
  const MEANT := [34, 92, 47, 8, 12, 10, 13, 9]

  /** The eight two-character escapes of section 7 of RFC 8259, and no others. */
  lemma {:induction false} EscapesMean(c: char)
    ensures EscapeMeans(c) != [] <==> c in ESCAPED
    ensures forall k | 0 <= k < 8 :: EscapeMeans(ESCAPED[k]) == [MEANT[k] as char]
  {
    assert ESCAPED[0] == '"' && ESCAPED[1] == '\\' && ESCAPED[2] == '/' && ESCAPED[3] == 'b';
    assert ESCAPED[4] == 'f' && ESCAPED[5] == 'n' && ESCAPED[6] == 'r' && ESCAPED[7] == 't';
  }

  datatype Reading = Bad | Read(value: string, rest: string)

  function Prepend(c: char, r: Reading): Reading {
    if r.Bad? then Bad else Read([c] + r.value, r.rest)
  }

  /**
   * Reads what follows an opening quote up to and past the closing one. A strict reader refuses raw
   * control characters, as section 7 of RFC 8259 does. Escapes are the two-character ones.
   */
  function ReadString(s: string, strict: bool): Reading {
    if s == [] then Bad
    else if s[0] == '"' then Read([], s[1..])
    else if s[0] == '\\' then
      if |s| < 2 || EscapeMeans(s[1]) == [] then Bad else Prepend(EscapeMeans(s[1])[0], ReadString(s[2..], strict))
    else if strict && s[0] < ' ' then Bad
    else Prepend(s[0], ReadString(s[1..], strict))
  }

  predicate Printable(s: string) {
    forall i | 0 <= i < |s| :: PrintableChar(s[i])
  }

  predicate PrintableChar(c: char) { c >= ' ' || c == '\n' || c == '\t' }

  lemma {:induction false} ReadsChar(c: char, tail: string, strict: bool)
    ensures ReadString(EscChar(c) + tail, strict)
         == if strict && !PrintableChar(c) then Bad else Prepend(c, ReadString(tail, strict))
  {
    var e := EscChar(c);
    assert (e + tail)[|e|..] == tail;
  }

  lemma {:induction false} ReadsEnd(rest: string, strict: bool)
    ensures ReadString("\"" + rest, strict) == Read([], rest)
  {
    assert ("\"" + rest)[1..] == rest;
  }

  lemma {:induction false} PrintableStep(s: string)
    requires s != []
    ensures Printable(s) <==> PrintableChar(s[0]) && Printable(s[1..])
  {
    hide PrintableChar;
    assert s == [s[0]] + s[1..];
  }

  /**
   * Escaped text, with its closing quote, reads back as the text itself, and a strict reader takes it
   * exactly when its only control characters are newline and tab.
   */
  lemma {:induction false} ReadsEscaped(s: string, rest: string, strict: bool)
    ensures ReadString(Esc(s) + "\"" + rest, strict)
         == if strict && !Printable(s) then Bad else Read(s, rest)
    decreases |s|
  {
    hide Esc, EscChar, ReadString, PrintableChar;
    if s == [] {
      EscOfNothing(s);
      assert s == s[..0] && Esc(s) + "\"" + rest == "\"" + rest;
      ReadsEnd(rest, strict);
    } else {
      EscStep(s);
      var tail := Esc(s[1..]) + "\"" + rest;
      assert Esc(s) + "\"" + rest == EscChar(s[0]) + tail;
      ReadsChar(s[0], tail, strict);
      ReadsEscaped(s[1..], rest, strict);
      assert s == [s[0]] + s[1..];
      PrintableStep(s);
    }
  }

  /** Different texts have different escaped forms. */
  lemma {:induction false} EscInjective(s: string, t: string)
    requires Esc(s) == Esc(t)
    ensures s == t
  {
    ReadsEscaped(s, [], false);
    ReadsEscaped(t, [], false);
  }

  /** Text that needs no escaping. */
  predicate Clean(s: string) {
    forall i | 0 <= i < |s| :: s[i] >= ' ' && s[i] != '"' && s[i] != '\\'
  }

  lemma {:induction false} CleanIsItself(s: string)
    requires Clean(s)
    ensures Esc(s) == s && Printable(s)
  {
    if s != [] {
      EscStep(s);
      CleanIsItself(s[1..]);
    }
  }

  /**
   * Reading where text that has begun with backslashes is behind: whatever was consumed twice as fast as
   * it was produced can no longer come out as it went in.
   */
  lemma {:induction false} Lagging(raw: string, i: nat, q: nat, rest: string)
    requires i < q <= |raw| && forall k | i <= k < q :: raw[k] == '\\'
    ensures var r := ReadString(raw[q..] + "\"" + rest, true); r.Bad? || r.value != raw[i..]
    decreases |raw| - q
  {
    var s := raw[q..] + "\"" + rest;
    assert raw[i..][0] == '\\';
    if q + 1 < |raw| && raw[q] == '\\' && raw[q + 1] == '\\' {
      Lagging(raw, i + 1, q + 2, rest);
      assert s[2..] == raw[q + 2..] + "\"" + rest;
      assert raw[i..][1..] == raw[i + 1..];
    } else if q < |raw| {
      assert s[0] == raw[q] && (q + 1 < |raw| ==> s[1] == raw[q + 1]) && (q + 1 == |raw| ==> s[1] == '"');
    }
  }

  /** Text put between quotes as it is reads back as itself exactly when it needs no escaping. */
  lemma {:induction false} RawReadsIff(raw: string, rest: string)
    ensures var r := ReadString(raw + "\"" + rest, true);
            && (r.Read? && r.value == raw <==> Clean(raw))
            && (Clean(raw) ==> r == Read(raw, rest))
  {
    var s := raw + "\"" + rest;
    if raw == [] {
      assert s == "\"" + rest;
    } else if raw[0] == '\\' {
      if |raw| > 1 && raw[1] == '\\' {
        assert s[2..] == raw[2..] + "\"" + rest;
        Lagging(raw, 1, 2, rest);
        assert raw == [raw[0]] + raw[1..];
      } else {
        assert |raw| == 1 ==> s[1] == '"';
        assert |raw| > 1 ==> s[1] == raw[1];
      }
    } else if raw[0] != '"' && raw[0] >= ' ' {
      assert s[1..] == raw[1..] + "\"" + rest;
      RawReadsIff(raw[1..], rest);
      assert raw == [raw[0]] + raw[1..];
    }
  }

  // ----- bytes and characters -----------------------------------------------------------------

  predicate High(s: string) { forall i | 0 <= i < |s| :: s[i] as int >= 0x80 }

  /** Bytes beyond ASCII are copied. */
  lemma {:induction false} EscHigh(s: string, n: nat)
    requires n <= |s| && High(s[..n])
    ensures Esc(s) == s[..n] + Esc(s[n..])
  {
    hide Esc;
    if n > 0 {
      EscStep(s);
      assert s[0] == s[..n][0];
      assert s[1..][..n - 1] == s[..n][1..];
      EscHigh(s[1..], n - 1);
      assert s[1..][n - 1..] == s[n..];
      assert s[..n] == [s[0]] + s[1..][..n - 1];
    } else {
      assert s[0..] == s;
    }
  }

  lemma {:induction false} EscHighBack(s: string, n: nat)
    requires n <= |Esc(s)| && High(Esc(s)[..n])
    ensures n <= |s| && Esc(s)[..n] == s[..n]
  {
    if n > 0 {
      assert s != [];
      EscStep(s);
      hide Esc;
      assert Esc(s)[..n][0] == EscChar(s[0])[0];
      assert Esc(s[1..])[..n - 1] == Esc(s)[..n][1..];
      EscHighBack(s[1..], n - 1);
      assert s[..n] == [s[0]] + s[1..][..n - 1];
    }
  }

  lemma {:induction false} CharIsHigh(s: string)
    requires s != [] && s[0] as int >= 0x80
    ensures High(s[..CharLength(s)])
  {}

  lemma {:induction false} HighFirst(s: string)
    requires s != [] && s[0] as int >= 0x80
    ensures Esc(s) != [] && Esc(s)[0] == s[0]
  {
    EscStep(s);
  }

  lemma {:induction false} NoNewChar(s: string)
    requires s != [] && s[0] as int >= 0x80
    ensures CharLength(Esc(s)) > 0 ==> CharLength(s) == CharLength(Esc(s))
  {
    hide Esc, CharLength, High;
    var e := CharLength(Esc(s));
    HighFirst(s);
    if e > 0 {
      CharIsHigh(Esc(s));
      EscHighBack(s, e);
      CharAlone(Esc(s));
      CharAppend(s[..e], s[e..]);
      assert s == s[..e] + s[e..];
    }
  }

  lemma {:induction false} EscFirst(s: string)
    requires s != [] && s[0] as int >= 0x80
    ensures CharLength(Esc(s)) == CharLength(s)
    ensures Esc(s)[CharLength(s)..] == Esc(s[CharLength(s)..])
  {
    EscHigh(s, 1);
    hide Esc, CharLength;
    var n, e := CharLength(s), CharLength(Esc(s));
    CharIsHigh(s);
    EscHigh(s, n);
    NoNewChar(s);
    if n > 0 {
      FirstChar(s);
      CharAppend(s[..n], Esc(s[n..]));
      CharAlone(s);
    } else {
      assert s[0..] == s;
    }
  }

  /** Escaping is for ASCII characters only: escaped text is UTF-8 exactly when the text is. */
  lemma {:induction false} EscUtf8(s: string)
    ensures Utf8(Esc(s)) <==> Utf8(s)
    decreases |s|
  {
    if s != [] {
      EscStep(s);
      if s[0] as int < 0x80 {
        EscUtf8(s[1..]);
        BehindAscii(EscChar(s[0]), Esc(s[1..]));
        BehindAscii([s[0]], s[1..]);
        assert s == [s[0]] + s[1..];
      } else {
        EscFirst(s);
        if CharLength(s) > 0 {
          EscUtf8(s[CharLength(s)..]);
        }
      }
    }
  }

  /**
   * What the cut to a buffer does to UTF-8 text: it stays UTF-8 exactly when all of it is kept or the
   * first character left out is not the rest of one that was begun.
   */
  lemma {:induction false} CutKeepsUtf8Iff(s: string, room: nat)
    requires Utf8(s)
    ensures var k := |Kept(s, room)|; Utf8(Esc(Kept(s, room))) <==> k == |s| || !Tail(s[k])
  {
    EscUtf8(Kept(s, room));
    PrefixIff(s, |Kept(s, room)|);
  }

  // ----- the escaper ---------------------------------------------------------------------------

  /** Where the escaper stops, no further character would have fitted. */
  lemma {:induction false} Stops(s: string, room: nat, sp: nat)
    requires sp <= |s| && |Esc(s[..sp])| <= room
    requires sp < |s| ==> |Esc(s[..sp])| + |EscChar(s[sp])| > room
    ensures Kept(s, room) == s[..sp]
  {
    KeptIsLongest(s, room, sp);
    if sp < |s| {
      EscPrefix(s, sp);
      KeptIsLongest(s, room, sp + 1);
      assert s[..sp + 1] <= Kept(s, room) <==> sp + 1 <= |Kept(s, room)|;
    }
  }

  /** Extends what stands in the buffer by an escape pair. */
  method PutPair(out: array<char>, dp: nat, a: char, b: char)
    requires dp + 1 < out.Length
    modifies out
    ensures out[..dp + 2] == old(out[..dp]) + [a, b]
    ensures forall k | dp + 2 <= k < out.Length :: out[k] == old(out[k])
  {
    out[dp] := a;
    out[dp + 1] := b;
  }

  method PutChar(out: array<char>, dp: nat, c: char)
    requires dp < out.Length
    modifies out
    ensures out[..dp + 1] == old(out[..dp]) + [c]
    ensures forall k | dp + 1 <= k < out.Length :: out[k] == old(out[k])
  {
    out[dp] := c;
  }

  /**
   * Writes the escaped form of the longest prefix that fits, never half an escape pair, then the
   * terminator, and touches nothing behind it.
   */
  method JsonEscape(out: array<char>, input: CString)
    requires out.Length >= 1
    modifies out
    ensures var e := Esc(Kept(input, out.Length - 1));
            && |e| < out.Length && out[..|e|] == e && out[|e|] == '\0'
            && forall k | |e| < k < out.Length :: out[k] == old(out[k])
  {
    hide Esc, Kept;
    var dp, sp, end := 0, 0, out.Length - 1;
    EscOfNothing(input);
    while sp < |input| && dp < end
      invariant 0 <= sp <= |input| && 0 <= dp <= end
      invariant out[..dp] == Esc(input[..sp])
      invariant forall k | dp <= k < out.Length :: out[k] == old(out[k])
    {
      EscPrefix(input, sp);
      var c := input[sp];
      if c == '"' || c == '\\' {
        if dp + 1 >= end { break; }
        PutPair(out, dp, '\\', c);
        dp := dp + 2;
      } else if c == '\n' {
        if dp + 1 >= end { break; }
        PutPair(out, dp, '\\', 'n');
        dp := dp + 2;
      } else if c == '\t' {
        if dp + 1 >= end { break; }
        PutPair(out, dp, '\\', 't');
        dp := dp + 2;
      } else {
        PutChar(out, dp, c);
        dp := dp + 1;
      }
      sp := sp + 1;
    }
    assert |Esc(input[..sp])| == dp;
    Stops(input, end, sp);
    out[dp] := '\0';
    assert out[..dp] == Esc(input[..sp]);
  }

  lemma {:induction false} EscOfNothing(s: string)
    ensures Esc(s[..0]) == []
  {}
}
