/** The lines of dropped-packet events: what they say, and reading them back. */
module DropRecord {
  import opened BoundedText
  import opened JsonNumber
  import opened JsonText
  import opened Utf8Text

  /** A text member holds its unescaped value, a number member the digits as printed. */
  datatype Member = Text(key: string, value: string) | Num(key: string, literal: string)

  function Body(m: Member): string {
    match m
    case Text(_, value) => "\"" + Esc(value) + "\""
    case Num(_, literal) => literal
  }

  function MemberText(m: Member): string { "\"" + m.key + "\":" + Body(m) }

  /** The members of one field, each behind its comma. */
  function GroupText(ms: seq<Member>): string {
    if ms == [] then [] else "," + MemberText(ms[0]) + GroupText(ms[1..])
  }

  /** The members every drop event starts with. */
  function Head(kind: string, time: string, from: string, to: string): seq<Member> {
    [Text("type", kind), Num("time_ms", time), Text("from", from), Text("to", to)]
  }

  function Quoted(key: string, text: string): string { "\"" + key + "\":\"" + text + "\"" }

  function Bare(key: string, literal: string): string { "\"" + key + "\":" + literal }

  /** The head as it is printed: none of its texts is escaped. */
  function HeadText(kind: string, time: string, from: string, to: string): string {
    "{" + Quoted("type", kind) + "," + Bare("time_ms", time) + "," + Quoted("from", from) + "," + Quoted("to", to)
  }

  function Flat(groups: seq<seq<Member>>): seq<Member> {
    if groups == [] then [] else groups[0] + Flat(groups[1..])
  }

  function GroupTexts(groups: seq<seq<Member>>): (p: seq<string>)
    ensures |p| == |groups| && forall i | 0 <= i < |p| :: p[i] == GroupText(groups[i])
  {
    seq(|groups|, i requires 0 <= i < |groups| => GroupText(groups[i]))
  }

  // ----- a reader for flat one-line objects ---------------------------------------------------

  function LiteralLength(s: string): (n: nat)
    ensures n <= |s|
  {
    if s == [] || !NumberChar(s[0]) then 0 else 1 + LiteralLength(s[1..])
  }

  datatype MemberReading = NoMember | ReadMember(member: Member, rest: string)

  function ParseMember(s: string): (r: MemberReading) {
    if s == [] || s[0] != '"' then NoMember else
    var key := ReadString(s[1..], true);
    if key.Bad? || |key.rest| < 2 || key.rest[0] != ':' then NoMember else
    var v := key.rest[1..];
    if v[0] == '"' then
      var text := ReadString(v[1..], true);
      if text.Bad? then NoMember else ReadMember(Text(key.value, text.value), text.rest)
    else
      var n := LiteralLength(v);
      if !Number(v[..n]) then NoMember else ReadMember(Num(key.value, v[..n]), v[n..])
  }

  datatype ObjectReading = NoObject | ReadObject(members: seq<Member>, rest: string)

  /** One member or more, then the closing brace. */
  function ParseMembers(s: string, fuel: nat): ObjectReading
    decreases fuel
  {
    if fuel == 0 then NoObject else
    var m := ParseMember(s);
    if m.NoMember? || m.rest == [] then NoObject
    else if m.rest[0] == '}' then ReadObject([m.member], m.rest[1..])
    else if m.rest[0] != ',' then NoObject
    else
      var more := ParseMembers(m.rest[1..], fuel - 1);
      if more.NoObject? then NoObject else ReadObject([m.member] + more.members, more.rest)
  }

  /** A whole line: an object and a newline. No line has more members than characters. */
  function ParseLine(line: string): (r: ObjectReading) {
    if line == [] || line[0] != '{' then NoObject else
    var r := ParseMembers(line[1..], |line|);
    if r.ReadObject? && r.rest == "\n" then r else NoObject
  }

  // ----- reading one member ----------------------------------------------------------------------

  /** The key is a plain word of the program's, and a number is printed by the grammar of JSON numbers. */
  predicate Tidy(m: Member) { Clean(m.key) && Ascii(m.key) && (m.Num? ==> Number(m.literal)) }

  predicate Sound(m: Member) { m.Text? ==> Printable(m.value) }

  lemma {:induction false} LiteralStops(s: string, rest: string)
    requires forall i | 0 <= i < |s| :: NumberChar(s[i])
    requires rest != [] && !NumberChar(rest[0])
    ensures LiteralLength(s + rest) == |s|
  {
    if s == [] {
      assert s + rest == rest;
    } else {
      assert (s + rest)[1..] == s[1..] + rest;
      LiteralStops(s[1..], rest);
    }
  }

  /** What remains to be read of a member once its key and colon are. */
  lemma {:induction false} KeyReads(m: Member, rest: string)
    requires Clean(m.key)
    ensures var s := MemberText(m) + rest;
            s[0] == '"' && ReadString(s[1..], true) == Read(m.key, ":" + (Body(m) + rest))
  {
    hide Esc, ReadString, Body;
    var s := MemberText(m) + rest;
    CleanIsItself(m.key);
    ReadsEscaped(m.key, ":" + (Body(m) + rest), true);
    assert s[1..] == m.key + "\"" + (":" + (Body(m) + rest));
  }

  lemma {:induction false} ParsesMember(m: Member, rest: string)
    requires Tidy(m) && rest != [] && !NumberChar(rest[0])
    ensures ParseMember(MemberText(m) + rest) == if Sound(m) then ReadMember(m, rest) else NoMember
  {
    hide Esc, ReadString, LiteralLength, MemberText, Clean, Printable, Number;
    var v := Body(m) + rest;
    KeyReads(m, rest);
    assert (":" + v)[1..] == v;
    match m
    case Text(_, value) =>
      ReadsEscaped(value, rest, true);
      assert v[1..] == Esc(value) + "\"" + rest;
    case Num(_, literal) =>
      NumberIsChars(literal);
      LiteralStops(literal, rest);
      assert v[0] == literal[0];
      assert v[..|literal|] == literal && v[|literal|..] == rest;
  }

  // ----- reading the members -----------------------------------------------------------------------

  predicate AllTidy(ms: seq<Member>) { forall i | 0 <= i < |ms| :: Tidy(ms[i]) }

  predicate AllSound(ms: seq<Member>) { forall i | 0 <= i < |ms| :: Sound(ms[i]) }

  lemma {:induction false} ParsesMembers(m: Member, ms: seq<Member>, tail: string, fuel: nat)
    requires Tidy(m) && AllTidy(ms) && fuel > |ms|
    ensures ParseMembers(MemberText(m) + GroupText(ms) + "}" + tail, fuel)
         == if Sound(m) && AllSound(ms) then ReadObject([m] + ms, tail) else NoObject
    decreases |ms|
  {
    hide MemberText, ParseMember, Tidy, Sound;
    if ms == [] {
      var rest := "}" + tail;
      assert MemberText(m) + GroupText(ms) + "}" + tail == MemberText(m) + rest;
      ParsesMember(m, rest);
      assert rest[1..] == tail;
      assert [m] + ms == [m];
    } else {
      var next := MemberText(ms[0]) + GroupText(ms[1..]) + "}" + tail;
      var rest := "," + next;
      assert MemberText(m) + GroupText(ms) + "}" + tail == MemberText(m) + rest;
      ParsesMember(m, rest);
      assert rest[1..] == next;
      ParsesMembers(ms[0], ms[1..], tail, fuel - 1);
      assert AllSound(ms) <==> Sound(ms[0]) && AllSound(ms[1..]);
      assert [ms[0]] + ms[1..] == ms;
    }
  }

  lemma {:induction false} GroupTextAppend(ms: seq<Member>, ns: seq<Member>)
    ensures GroupText(ms + ns) == GroupText(ms) + GroupText(ns)
  {
    if ms == [] {
      assert ms + ns == ns;
    } else {
      assert (ms + ns)[1..] == ms[1..] + ns;
      GroupTextAppend(ms[1..], ns);
    }
  }

  lemma {:induction false} GroupsConcat(groups: seq<seq<Member>>)
    ensures Concat(GroupTexts(groups)) == GroupText(Flat(groups))
  {
    if groups != [] {
      assert GroupTexts(groups)[1..] == GroupTexts(groups[1..]);
      GroupsConcat(groups[1..]);
      GroupTextAppend(groups[0], Flat(groups[1..]));
    }
  }

  lemma {:induction false} GroupTextLength(ms: seq<Member>)
    ensures |GroupText(ms)| >= |ms|
  {
    if ms != [] {
      GroupTextLength(ms[1..]);
    }
  }

  lemma {:induction false} CleanQuoted(key: string, text: string)
    requires Clean(text)
    ensures MemberText(Text(key, text)) == Quoted(key, text)
  {
    hide Esc;
    CleanIsItself(text);
    assert Quoted(key, text) == "\"" + key + "\":" + ("\"" + text + "\"");
  }

  lemma {:induction false} ThreeMembers(a: Member, b: Member, c: Member)
    ensures GroupText([a, b, c]) == "," + MemberText(a) + "," + MemberText(b) + "," + MemberText(c)
  {
    hide MemberText;
    var (x, y, z) := ("," + MemberText(a), "," + MemberText(b), "," + MemberText(c));
    assert [a, b, c][1..] == [b, c] && [b, c][1..] == [c] && [c][1..] == [];
    assert GroupText([c]) == z + [] == z;
    assert GroupText([b, c]) == y + z;
    assert GroupText([a, b, c]) == x + (y + z);
    assert x + (y + z) == x + y + z;
    assert x + y + z == x + "," + MemberText(b) + "," + MemberText(c);
  }

  /** The head is its four members, when its texts need no escaping. */
  lemma {:induction false} HeadIsMembers(kind: string, time: string, from: string, to: string)
    requires Clean(kind) && Clean(from) && Clean(to)
    ensures HeadText(kind, time, from, to)
         == "{" + MemberText(Head(kind, time, from, to)[0]) + GroupText(Head(kind, time, from, to)[1..])
  {
    hide MemberText, GroupText, Quoted, Bare;
    var h := Head(kind, time, from, to);
    CleanQuoted("type", kind);
    CleanQuoted("from", from);
    CleanQuoted("to", to);
    BareText("time_ms", time);
    ThreeMembers(h[1], h[2], h[3]);
    assert h[1..] == [h[1], h[2], h[3]];
  }

  lemma {:induction false} BareText(key: string, literal: string)
    ensures MemberText(Num(key, literal)) == Bare(key, literal)
  {}

  // ----- the line ------------------------------------------------------------------------------------

  const LIMIT: nat := 2045

  /** Everything that is written, in order: the head, then the fields. */
  function LinePieces(head: string, groups: seq<seq<Member>>): seq<string> { [head] + GroupTexts(groups) }

  /** The head and the fields after it that go in before the first that does not fit. */
  function Emitted(pieces: seq<string>): string { Laid(pieces, LIMIT) + "}\n" }

  function KeptGroups(head: string, groups: seq<seq<Member>>): (k: nat)
    ensures k <= |groups|
  {
    var n := Fitting(LinePieces(head, groups), LIMIT);
    if n == 0 then 0 else n - 1
  }

  /** With its terminator every line fits the buffer, and with the first piece left out it would not. */
  lemma {:induction false} EmittedFits(pieces: seq<string>)
    ensures |Emitted(pieces)| + 1 <= 2048
    ensures var k := Fitting(pieces, LIMIT); k < |pieces| ==> |Emitted(pieces)| + |pieces[k]| + 1 > 2048
  {
    var k := Fitting(pieces, LIMIT);
    FittingIsLongest(pieces, LIMIT, k);
    if k < |pieces| {
      FittingIsLongest(pieces, LIMIT, k + 1);
      assert pieces[..k + 1] == pieces[..k] + [pieces[k]];
      ConcatAppend(pieces[..k], [pieces[k]]);
      ConcatOne(pieces[k]);
    }
  }

  lemma {:induction false} FlatTidy(groups: seq<seq<Member>>)
    requires forall i | 0 <= i < |groups| :: AllTidy(groups[i])
    ensures AllTidy(Flat(groups))
  {
    if groups != [] {
      FlatTidy(groups[1..]);
    }
  }

  lemma {:induction false} ParsesLine(m: Member, ms: seq<Member>)
    requires Tidy(m) && AllTidy(ms)
    ensures ParseLine("{" + MemberText(m) + GroupText(ms) + "}\n")
         == if Sound(m) && AllSound(ms) then ReadObject([m] + ms, "\n") else NoObject
  {
    hide MemberText, GroupText, ParseMembers, Tidy, Sound;
    var line := "{" + MemberText(m) + GroupText(ms) + "}\n";
    GroupTextLength(ms);
    ParsesMembers(m, ms, "\n", |line|);
    assert line[1..] == MemberText(m) + GroupText(ms) + "}" + "\n";
  }

  /** What the pieces that are kept amount to. */
  lemma {:induction false} EmittedIs(head: string, groups: seq<seq<Member>>)
    ensures var k := KeptGroups(head, groups);
            Emitted(LinePieces(head, groups))
              == if |head| <= LIMIT then head + GroupText(Flat(groups[..k])) + "}\n" else "}\n"
  {
    var pieces := LinePieces(head, groups);
    var k := KeptGroups(head, groups);
    var n := Fitting(pieces, LIMIT);
    if |head| > LIMIT {
      assert n == 0;
      assert pieces[..0] == [];
    } else {
      assert n == k + 1;
      assert pieces[..n] == [head] + GroupTexts(groups[..k]);
      ConcatAppend([head], GroupTexts(groups[..k]));
      ConcatOne(head);
      GroupsConcat(groups[..k]);
    }
  }

  /** Reading back a line whose names need no escaping. */
  lemma {:induction false} CleanLineReads(kind: string, time: string, from: string, to: string,
                                          groups: seq<seq<Member>>)
    requires Clean(kind) && Clean(from) && Clean(to) && Number(time)
    requires forall i | 0 <= i < |groups| :: AllTidy(groups[i])
    ensures var head := HeadText(kind, time, from, to);
            var kept := Flat(groups[..KeptGroups(head, groups)]);
            ParseLine(Emitted(LinePieces(head, groups)))
              == if |head| <= LIMIT && AllSound(kept) then ReadObject(Head(kind, time, from, to) + kept, "\n")
                 else NoObject
  {
    hide ParseMembers, HeadText, Head, Number, AllTidy, AllSound, Clean, Emitted, LinePieces;
    var head := HeadText(kind, time, from, to);
    EmittedIs(head, groups);
    if |head| <= LIMIT {
      FlatTidy(groups[..KeptGroups(head, groups)]);
      HeadMembers(kind, time, from, to, Flat(groups[..KeptGroups(head, groups)]));
    }
  }

  // ----- names that need escaping --------------------------------------------------------------------

  /** A text put between quotes as it is can only be read as itself if it needs no escaping. */
  lemma {:induction false} RawMember(key: string, raw: string, next: string)
    requires Clean(key)
    ensures var r := ParseMember(Quoted(key, raw) + next);
            r.ReadMember? && r.member == Text(key, raw) ==> Clean(raw)
  {
    hide ReadString, Clean, LiteralLength, Number;
    var v := "\"" + raw + "\"" + next;
    var s := Quoted(key, raw) + next;
    RawReadsIff(key, ":" + v);
    assert s[1..] == key + "\"" + (":" + v);
    assert (":" + v)[1..] == v;
    RawReadsIff(raw, next);
    assert v[1..] == raw + "\"" + next;
  }

  /** Behind a sound member the others are read on their own. */
  lemma {:induction false} StepMembers(m: Member, next: string, fuel: nat)
    requires Tidy(m) && Sound(m) && fuel > 0
    ensures ParseMembers(MemberText(m) + "," + next, fuel)
         == var more := ParseMembers(next, fuel - 1);
            if more.NoObject? then NoObject else ReadObject([m] + more.members, more.rest)
  {
    hide MemberText, ParseMember, Tidy, Sound;
    var rest := "," + next;
    assert MemberText(m) + "," + next == MemberText(m) + rest;
    ParsesMember(m, rest);
    assert rest[1..] == next;
  }

  lemma {:induction false} RawFirst(key: string, raw: string, next: string, fuel: nat)
    requires Clean(key)
    ensures var r := ParseMembers(Quoted(key, raw) + next, fuel);
            r.ReadObject? ==> r.members != [] && (r.members[0] == Text(key, raw) ==> Clean(raw))
  {
    hide ParseMember, Quoted, Clean;
    RawMember(key, raw, next);
  }

  function Names(from: string, to: string, tail: string): string {
    Quoted("from", from) + "," + Quoted("to", to) + tail
  }

  /** The names of a line that reads back as its own head. */
  lemma {:induction false} NamesClean(from: string, to: string, tail: string, fuel: nat)
    requires fuel > 0
    ensures var r := ParseMembers(Names(from, to, tail), fuel);
            r.ReadObject? && |r.members| >= 2 && r.members[0] == Text("from", from) && r.members[1] == Text("to", to)
            ==> Clean(from) && Clean(to)
  {
    hide ParseMembers, Quoted, Clean;
    KeysClean();
    var s := Quoted("from", from) + "," + Quoted("to", to) + tail;
    var next := Quoted("to", to) + tail;
    assert s == Quoted("from", from) + ("," + next);
    RawFirst("from", from, "," + next, fuel);
    if Clean(from) {
      CleanIsItself(from);
      CleanQuoted("from", from);
      assert s == MemberText(Text("from", from)) + "," + next;
      NameTidy("from", from);
      StepMembers(Text("from", from), next, fuel);
      RawFirst("to", to, next[|Quoted("to", to)|..], fuel - 1);
      assert next[|Quoted("to", to)|..] == tail;
    }
  }

  lemma {:induction false} KeysClean()
    ensures Clean("from") && Clean("to") && Clean("type") && Clean("time_ms")
    ensures Ascii("from") && Ascii("to") && Ascii("type") && Ascii("time_ms")
  {}

  lemma {:induction false} NameTidy(key: string, name: string)
    requires Clean(key) && Ascii(key) && Clean(name)
    ensures Tidy(Text(key, name)) && Sound(Text(key, name))
  {
    CleanIsItself(name);
  }

  /** The type and the time are always read; the rest depends on the names. */
  lemma {:induction false} HeadSteps(kind: string, time: string, from: string, to: string, tail: string)
    requires Clean(kind) && Number(time)
    ensures var line := HeadText(kind, time, from, to) + tail;
            && |line| >= 3
            && var more := ParseMembers(Names(from, to, tail), |line| - 2);
               ParseLine(line) == if more.ReadObject? && more.rest == "\n"
                                  then ReadObject([Text("type", kind), Num("time_ms", time)] + more.members, "\n")
                                  else NoObject
  {
    hide ParseMembers, Quoted, Bare, Clean, Number, Tidy, Sound, MemberText;
    var line := HeadText(kind, time, from, to) + tail;
    var names := Names(from, to, tail);
    var timed := Bare("time_ms", time) + "," + names;
    var (m0, m1) := (Text("type", kind), Num("time_ms", time));
    KeysClean();
    CleanQuoted("type", kind);
    BareText("time_ms", time);
    NameTidy("type", kind);
    NumberIsTidy("time_ms", time);
    assert line[1..] == MemberText(m0) + "," + timed;
    assert timed == MemberText(m1) + "," + names;
    assert |line| >= 3;
    StepMembers(m0, timed, |line|);
    StepMembers(m1, names, |line| - 1);
    var more := ParseMembers(names, |line| - 2);
    if more.ReadObject? {
      assert [m0] + ([m1] + more.members) == [m0, m1] + more.members;
    }
  }

  lemma {:induction false} HeadNamesClean(kind: string, time: string, from: string, to: string, tail: string)
    requires Clean(kind) && Number(time)
    ensures var r := ParseLine(HeadText(kind, time, from, to) + tail);
            r.ReadObject? && |r.members| >= 4 && r.members[2] == Text("from", from) && r.members[3] == Text("to", to)
            ==> Clean(from) && Clean(to)
  {
    hide ParseLine, ParseMembers, HeadText, Clean, Number;
    var line := HeadText(kind, time, from, to) + tail;
    HeadSteps(kind, time, from, to, tail);
    NamesClean(from, to, tail, |line| - 2);
  }

  lemma {:induction false} NumberIsTidy(key: string, literal: string)
    requires Clean(key) && Ascii(key) && Number(literal)
    ensures Tidy(Num(key, literal)) && Sound(Num(key, literal))
  {}

  /**
   * Reading an emitted line back, whatever the node names and the fields. It reads back as its head and
   * the kept fields, member for member, exactly when the head fits, the names need no escaping, and the
   * kept texts have no control characters but newline and tab. With clean names it is no object at all
   * in every other case.
   */
  lemma {:induction false} LineReadsBack(kind: string, time: string, from: string, to: string, groups: seq<seq<Member>>)
    requires Clean(kind) && Number(time)
    requires forall i | 0 <= i < |groups| :: AllTidy(groups[i])
    ensures var head := HeadText(kind, time, from, to);
            var kept := Flat(groups[..KeptGroups(head, groups)]);
            ParseLine(Emitted(LinePieces(head, groups))) == ReadObject(Head(kind, time, from, to) + kept, "\n")
            <==> |head| <= LIMIT && Clean(from) && Clean(to) && AllSound(kept)
    ensures Clean(from) && Clean(to) ==>
              var head := HeadText(kind, time, from, to);
              var kept := Flat(groups[..KeptGroups(head, groups)]);
              ParseLine(Emitted(LinePieces(head, groups)))
                == if |head| <= LIMIT && AllSound(kept) then ReadObject(Head(kind, time, from, to) + kept, "\n")
                   else NoObject
  {
    hide ParseLine, HeadText, Number, AllTidy, AllSound, Clean, Emitted, LinePieces;
    var head := HeadText(kind, time, from, to);
    var kept := Flat(groups[..KeptGroups(head, groups)]);
    EmittedIs(head, groups);
    if Clean(from) && Clean(to) {
      CleanLineReads(kind, time, from, to, groups);
    } else if |head| <= LIMIT {
      HeadNamesClean(kind, time, from, to, GroupText(kept) + "}\n");
      assert head + GroupText(kept) + "}\n" == head + (GroupText(kept) + "}\n");
    } else {
      BraceIsNoObject();
    }
  }

  lemma {:induction false} BraceIsNoObject()
    ensures ParseLine("}\n") == NoObject
  {}

  /** A quote within a name ends it: node a"b makes a line that is no object, whatever else it says. */
  lemma {:induction false} QuotedNameBreaksTheLine(kind: string, time: string, to: string, groups: seq<seq<Member>>)
    requires Clean(kind) && Number(time)
    ensures ParseLine(Emitted(LinePieces(HeadText(kind, time, "a\"b", to), groups))) == NoObject
  {
    hide ParseLine, ParseMembers, HeadText, Quoted, Clean, Number, Emitted, LinePieces;
    var head := HeadText(kind, time, "a\"b", to);
    var tail := GroupText(Flat(groups[..KeptGroups(head, groups)])) + "}\n";
    EmittedIs(head, groups);
    BraceIsNoObject();
    if |head| <= LIMIT {
      var line := head + tail;
      assert Emitted(LinePieces(head, groups)) == line;
      HeadSteps(kind, time, "a\"b", to, tail);
      BrokenName("," + Quoted("to", to) + tail, |line| - 2);
      assert Names("a\"b", to, tail) == Quoted("from", "a\"b") + ("," + Quoted("to", to) + tail);
    }
  }

  lemma {:induction false} BrokenName(next: string, fuel: nat)
    ensures ParseMembers(Quoted("from", "a\"b") + next, fuel) == NoObject
  {
    var s := Quoted("from", "a\"b") + next;
    var v := "b\"" + next;
    KeysClean();
    hide ReadString, Clean;
    RawReadsIff("from", ":\"a\"" + v);
    assert s[1..] == "from" + "\"" + (":\"a\"" + v);
    assert (":\"a\"" + v)[1..][1..] == "a" + "\"" + v;
    ACleanName();
    RawReadsIff("a", v);
  }

  lemma {:induction false} ACleanName()
    ensures Clean("a")
  {}

  // ----- the line as bytes -----------------------------------------------------------------------------

  predicate Encoded(m: Member) { m.Text? ==> Utf8(m.value) }

  predicate AllEncoded(ms: seq<Member>) { forall i | 0 <= i < |ms| :: Encoded(ms[i]) }

  lemma {:induction false} AsciiAppend(a: string, b: string)
    requires Ascii(a) && Ascii(b)
    ensures Ascii(a + b)
  {}

  lemma {:induction false} MemberUtf8(m: Member)
    requires Tidy(m)
    ensures Utf8(MemberText(m)) <==> Encoded(m)
  {
    hide Utf8, Esc, Clean, Number;
    var k := "\"" + m.key + "\":";
    AsciiAppend("\"", m.key);
    AsciiAppend("\"" + m.key, "\":");
    BehindAscii(k, Body(m));
    match m
    case Text(_, value) =>
      BehindAscii("\"", Esc(value) + "\"");
      assert Body(m) == "\"" + (Esc(value) + "\"");
      Separated(Esc(value), "\"", "");
      assert Esc(value) + "\"" + "" == Esc(value) + "\"";
      EscUtf8(value);
      AsciiIsUtf8("");
    case Num(_, literal) =>
      NumberIsChars(literal);
      AsciiIsUtf8(literal);
  }

  lemma {:induction false} GroupUtf8(ms: seq<Member>)
    requires AllTidy(ms)
    ensures Utf8(GroupText(ms)) <==> AllEncoded(ms)
  {
    hide Utf8, MemberText, Tidy, Encoded;
    if ms == [] {
      AsciiIsUtf8("");
    } else {
      var (m, rest) := (MemberText(ms[0]), GroupText(ms[1..]));
      MemberUtf8(ms[0]);
      GroupUtf8(ms[1..]);
      BehindAscii(",", m + rest);
      assert GroupText(ms) == "," + (m + rest);
      if ms[1..] == [] {
        assert m + rest == m;
      } else {
        Separated(m, ",", rest[1..]);
        BehindAscii(",", rest[1..]);
        assert rest == "," + rest[1..] && m + rest == m + "," + rest[1..];
      }
      assert AllEncoded(ms) <==> Encoded(ms[0]) && AllEncoded(ms[1..]);
    }
  }

  lemma {:induction false} HeadUtf8(kind: string, time: string, from: string, to: string, tail: string)
    requires Ascii(kind) && Number(time)
    ensures Utf8(HeadText(kind, time, from, to) + tail) <==> Utf8(from) && Utf8(to) && Utf8(tail)
  {
    hide Utf8, Number;
    var a := "{\"type\":\"" + kind + "\",\"time_ms\":" + time + ",\"from\":\"";
    NumberIsChars(time);
    AsciiAppend("{\"type\":\"", kind);
    AsciiAppend("{\"type\":\"" + kind, "\",\"time_ms\":");
    AsciiAppend("{\"type\":\"" + kind + "\",\"time_ms\":", time);
    AsciiAppend("{\"type\":\"" + kind + "\",\"time_ms\":" + time, ",\"from\":\"");
    var b := "\",\"to\":\"";
    HeadLayout(kind, time, from, to, tail);
    var rest := to + "\"" + tail;
    BehindAscii(a, from + b + rest);
    Separated(from, b, rest);
    Separated(to, "\"", tail);
  }

  lemma {:induction false} HeadLayout(kind: string, time: string, from: string, to: string, tail: string)
    ensures HeadText(kind, time, from, to) + tail
         == "{\"type\":\"" + kind + "\",\"time_ms\":" + time + ",\"from\":\""
            + (from + "\",\"to\":\"" + (to + "\"" + tail))
  {
    var h := "{\"type\":\"" + kind + "\",\"time_ms\":" + time + ",";
    var n := from + "\",\"to\":\"" + (to + "\"" + tail);
    NamesLayout(from, to, tail);
    TypeLayout(kind, time);
    hide Quoted, Bare;
    var m := "{" + Quoted("type", kind) + "," + Bare("time_ms", time) + ",";
    assert HeadText(kind, time, from, to) + tail == m + Names(from, to, tail);
    assert h + ("\"from\":\"" + n) == h + "\"from\":\"" + n;
  }

  lemma {:induction false} NamesLayout(from: string, to: string, tail: string)
    ensures Names(from, to, tail) == "\"from\":\"" + (from + "\",\"to\":\"" + (to + "\"" + tail))
  {}

  lemma {:induction false} TypeLayout(kind: string, time: string)
    ensures "{" + Quoted("type", kind) + "," + Bare("time_ms", time) + ","
         == "{\"type\":\"" + kind + "\",\"time_ms\":" + time + ","
  {}

  /** The bytes of a line are UTF-8 exactly when the names and the kept texts are. */
  lemma {:induction false} LineUtf8(kind: string, time: string, from: string, to: string, groups: seq<seq<Member>>)
    requires Ascii(kind) && Number(time)
    requires forall i | 0 <= i < |groups| :: AllTidy(groups[i])
    ensures var head := HeadText(kind, time, from, to);
            var kept := Flat(groups[..KeptGroups(head, groups)]);
            |head| <= LIMIT ==>
              (Utf8(Emitted(LinePieces(head, groups))) <==> Utf8(from) && Utf8(to) && AllEncoded(kept))
  {
    hide HeadText, Number, AllTidy, AllEncoded, Utf8, Emitted, LinePieces;
    var head := HeadText(kind, time, from, to);
    if |head| <= LIMIT {
      var kept := Flat(groups[..KeptGroups(head, groups)]);
      var g := GroupText(kept);
      EmittedIs(head, groups);
      FlatTidy(groups[..KeptGroups(head, groups)]);
      GroupUtf8(kept);
      HeadUtf8(kind, time, from, to, g + "}\n");
      Separated(g, "}\n", "");
      AsciiIsUtf8("");
      assert g + "}\n" + "" == g + "}\n";
      assert head + g + "}\n" == head + (g + "}\n");
    }
  }

  /** A UTF-8 line that reads back as the event it was written for. */
  ghost predicate Faithful(line: string, members: seq<Member>) {
    Utf8(line) && ParseLine(line) == ReadObject(members, "\n")
  }

  /**
   * Exactly when a line is JSON text that says what was logged: the head fits, the node names are UTF-8
   * without quotes, backslashes and control characters, and the texts as they were kept are UTF-8
   * without control characters other than newline and tab.
   */
  lemma {:induction false} LineFaithfulIff(kind: string, time: string, from: string, to: string,
                                           groups: seq<seq<Member>>)
    requires Clean(kind) && Ascii(kind) && Number(time)
    requires forall i | 0 <= i < |groups| :: AllTidy(groups[i])
    ensures var head := HeadText(kind, time, from, to);
            var kept := Flat(groups[..KeptGroups(head, groups)]);
            Faithful(Emitted(LinePieces(head, groups)), Head(kind, time, from, to) + kept)
            <==> && |head| <= LIMIT && Clean(from) && Clean(to) && AllSound(kept)
                 && Utf8(from) && Utf8(to) && AllEncoded(kept)
  {
    hide HeadText, Head, Number, AllTidy, AllEncoded, AllSound, Clean, Utf8, Emitted, LinePieces, ParseLine;
    LineReadsBack(kind, time, from, to, groups);
    LineUtf8(kind, time, from, to, groups);
  }

  lemma {:induction false} SoundTail(a: seq<Member>, b: seq<Member>)
    requires AllSound(a)
    ensures AllSound(a + b) <==> AllSound(b)
  {
    hide Sound;
    assert forall i | 0 <= i < |b| :: (a + b)[|a| + i] == b[i];
  }

  lemma {:induction false} HeadSound(kind: string, time: string, from: string, to: string)
    requires Clean(kind) && Clean(from) && Clean(to)
    ensures AllSound(Head(kind, time, from, to)[1..])
  {
    hide Esc;
    CleanIsItself(from);
    CleanIsItself(to);
  }

  lemma {:induction false} HeadMembers(kind: string, time: string, from: string, to: string, kept: seq<Member>)
    requires Clean(kind) && Clean(from) && Clean(to) && Number(time) && AllTidy(kept)
    ensures ParseLine(HeadText(kind, time, from, to) + GroupText(kept) + "}\n")
         == if AllSound(kept) then ReadObject(Head(kind, time, from, to) + kept, "\n") else NoObject
  {
    hide ParseLine, HeadText, MemberText, GroupText, Number, Esc, AllSound;
    CleanIsItself(kind);
    CleanIsItself(from);
    CleanIsItself(to);
    var h := Head(kind, time, from, to);
    HeadIsMembers(kind, time, from, to);
    GroupTextAppend(h[1..], kept);
    ParsesLine(h[0], h[1..] + kept);
    assert [h[0]] + (h[1..] + kept) == h + kept;
    HeadSound(kind, time, from, to);
    SoundTail(h[1..], kept);
    assert HeadText(kind, time, from, to) + GroupText(kept) + "}\n"
        == "{" + MemberText(h[0]) + GroupText(h[1..] + kept) + "}\n";
  }
}

/** The builder that writes a drop event's line into one fixed buffer. */
module DropLines {
  import opened BoundedText
  import opened DropRecord
  import opened JsonNumber
  import opened JsonText
  import opened Utf8Text
  import Numerals
  import PacketHash

  const OMIT: int := -1

  /** An integer as printed with a sign. */
  function Signed(n: int): (s: string)
    ensures Number(s)
  {
    IntegerIsNumber(if n < 0 then -n else n);
    if n < 0 then "-" + Numerals.Decimal(-n) else Numerals.Decimal(n)
  }

  /** A printed integer: digits, behind a minus sign if negative. */
  predicate IsInteger(s: string) {
    if s != [] && s[0] == '-' then |s| > 1 && Numerals.AllDigits(s[1..]) else s != [] && Numerals.AllDigits(s)
  }

  /** The integer a literal stands for. */
  function ReadInteger(s: string): int
    requires IsInteger(s)
  {
    if s[0] == '-' then 0 - Numerals.Natural(s[1..]) else Numerals.Natural(s)
  }

  /** A printed integer reads back as itself. */
  lemma {:induction false} SignedReadsBack(n: int)
    ensures IsInteger(Signed(n)) && ReadInteger(Signed(n)) == n
    ensures n >= 0 ==> IsInteger(Numerals.Decimal(n)) && ReadInteger(Numerals.Decimal(n)) == n
  {
    hide Numerals.Decimal, Numerals.Natural, Number;
    var d := Numerals.Decimal(if n < 0 then -n else n);
    Numerals.ReadsBack(if n < 0 then -n else n);
    assert Numerals.IsDigit(d[0]);
    assert ("-" + d)[1..] == d;
  }

  // ----- what the fields of an event say ---------------------------------------------------------

  predicate IsNumber(m: Member, n: int) { m.Num? && IsInteger(m.literal) && ReadInteger(m.literal) == n }

  /** A text member holds the longest prefix of `whole` whose escaped form has at most 1023 characters. */
  predicate IsCut(m: Member, whole: string) {
    && m.Text? && m.value <= whole && |Esc(m.value)| <= 1023
    && forall j | |m.value| < j <= |whole| :: |Esc(whole[..j])| > 1023
  }

  /** What a member may say, by its key. */
  predicate Says(m: Member, data: seq<PacketHash.Byte>, airtime: int, sf: int, bw: int, tag: string, info: string) {
    if m.key == "pkt" then
      && m.Text? && |m.value| == 8 && Numerals.AllHex(m.value)
      && Numerals.HexNatural(m.value) == PacketHash.Hash(data)
    else if m.key == "airtime_ms" then IsNumber(m, airtime % 0x1_0000_0000)
    else if m.key == "sf" then IsNumber(m, sf)
    else if m.key == "bw_hz" then IsNumber(m, bw)
    else if m.key == "label" then IsCut(m, tag)
    else m.key == "info" && IsCut(m, info)
  }

  function Keys(ms: seq<Member>): seq<string> { seq(|ms|, i requires 0 <= i < |ms| => ms[i].key) }

  function Present(key: string, present: bool): seq<string> { if present then [key] else [] }

  /**
   * The fields of an event, in order: the fingerprint always, a number exactly when it is not -1, and a
   * text exactly when it is not empty; each says what was passed.
   */
  ghost predicate EventSays(ms: seq<Member>, data: seq<PacketHash.Byte>, airtime: int, sf: int, bw: int,
                            tag: string, info: string) {
    && Keys(ms) == ["pkt"] + Present("airtime_ms", airtime != -1) + Present("sf", sf != -1)
                   + Present("bw_hz", bw != -1) + Present("label", tag != "") + Present("info", info != "")
    && forall m | m in ms :: Says(m, data, airtime, sf, bw, tag, info)
  }

  /** The tail every drop event shares; a member the event does not carry is OMIT. */
  function PhyGroups(data: seq<PacketHash.Byte>, airtime: int, sf: int, bw: int): seq<seq<Member>> {
    PktGroup(data)
    + NumberGroups("airtime_ms", Numerals.Decimal(airtime % Numerals.WORD32), airtime != OMIT)
    + NumberGroups("sf", Signed(sf), sf != OMIT)
    + NumberGroups("bw_hz", Signed(bw), bw != OMIT)
  }

  function PktGroup(data: seq<PacketHash.Byte>): seq<seq<Member>> {
    [[Text("pkt", Numerals.HexText(PacketHash.Hash(data), 8))]]
  }

  function NumberGroups(key: string, literal: string, present: bool): seq<seq<Member>> {
    if present then [[Num(key, literal)]] else []
  }

  /** An optional text: empty values write nothing, longer ones what a 1024-character buffer holds. */
  function TextGroups(key: string, value: string): seq<seq<Member>> {
    if value == "" then [] else [[Text(key, Kept(value, 1023))]]
  }

  /**
   * Prints into the buffer from `at`, at most room - 1 characters and the terminator, and returns the
   * length of the whole text.
   */
  method Snprintf(buf: array<char>, at: nat, room: nat, text: string) returns (n: nat)
    requires room > 0 && at + room <= buf.Length
    modifies buf
    ensures n == |text|
    ensures buf[..at] == old(buf[..at])
    ensures n < room ==> buf[..at + n] == old(buf[..at]) + text && buf[at + n] == '\0'
  {
    n := |text|;
    var m := if n < room then n else room - 1;
    for i := 0 to m
      invariant buf[..at] == old(buf[..at])
      invariant buf[at..at + i] == text[..i]
    {
      buf[at + i] := text[i];
      assert buf[at..at + i + 1] == buf[at..at + i] + [text[i]];
    }
    buf[at + m] := '\0';
    assert buf[..at + m] == buf[..at] + buf[at..at + m];
  }

  /** The text a buffer holds up to its terminator. */
  method Terminated(buf: array<char>, ghost text: CString) returns (s: string)
    requires |text| < buf.Length && buf[..|text|] == text && buf[|text|] == '\0'
    ensures s == text
  {
    var n := 0;
    while buf[n] != '\0'
      invariant 0 <= n <= |text|
      invariant n < |text| ==> text[n] == buf[n]
      decreases |text| - n
    {
      n := n + 1;
      assert n < |text| ==> buf[n] == buf[..|text|][n];
    }
    s := buf[..n];
  }

  lemma {:induction false} EscTerminated(s: CString, room: nat)
    ensures '\0' !in Esc(Kept(s, room))
  {
    EscNoNul(Kept(s, room));
  }

  lemma {:induction false} EscNoNul(s: CString)
    ensures '\0' !in Esc(s)
  {
    if s != [] {
      EscStep(s);
      EscNoNul(s[1..]);
    }
  }

  lemma {:induction false} OneGroup(m: Member)
    ensures GroupTexts([[m]]) == ["," + MemberText(m)]
  {
    assert [m][1..] == [];
    assert GroupText([m]) == "," + MemberText(m) + [];
    assert GroupTexts([[m]])[0] == "," + MemberText(m);
  }

  lemma {:induction false} GroupTextsAppend(g: seq<seq<Member>>, h: seq<seq<Member>>)
    ensures GroupTexts(g + h) == GroupTexts(g) + GroupTexts(h)
  {}

  lemma {:induction false} FlatAppend(g: seq<seq<Member>>, h: seq<seq<Member>>)
    ensures Flat(g + h) == Flat(g) + Flat(h)
  {
    if g == [] {
      assert g + h == h;
    } else {
      assert (g + h)[1..] == g[1..] + h;
      FlatAppend(g[1..], h);
    }
  }

  lemma {:induction false} KeysAppend(a: seq<Member>, b: seq<Member>)
    ensures Keys(a + b) == Keys(a) + Keys(b)
  {}

  /** These groups have these keys, and each of their members says what it should. */
  ghost predicate Carries(groups: seq<seq<Member>>, keys: seq<string>, data: seq<PacketHash.Byte>,
                          airtime: int, sf: int, bw: int, tag: string, info: string) {
    Keys(Flat(groups)) == keys && forall m | m in Flat(groups) :: Says(m, data, airtime, sf, bw, tag, info)
  }

  lemma {:induction false} CarriesMore(g: seq<seq<Member>>, a: seq<string>, h: seq<seq<Member>>, b: seq<string>,
                                       data: seq<PacketHash.Byte>, airtime: int, sf: int, bw: int,
                                       tag: string, info: string)
    requires Carries(g, a, data, airtime, sf, bw, tag, info) && Carries(h, b, data, airtime, sf, bw, tag, info)
    ensures Carries(g + h, a + b, data, airtime, sf, bw, tag, info)
  {
    hide Says, Flat, Keys;
    FlatAppend(g, h);
    KeysAppend(Flat(g), Flat(h));
  }

  lemma {:induction false} CarriesOne(m: Member, present: bool, data: seq<PacketHash.Byte>,
                                      airtime: int, sf: int, bw: int, tag: string, info: string)
    requires present ==> Says(m, data, airtime, sf, bw, tag, info)
    ensures Carries(if present then [[m]] else [], Present(m.key, present), data, airtime, sf, bw, tag, info)
  {
    hide Says;
    if present {
      assert Flat([[m]]) == [m] by {
        assert [[m]][1..] == [];
      }
      assert Keys([m]) == [m.key];
    } else {
      assert Keys([]) == [];
    }
  }

  /** The shared tail says what was passed, whatever the texts that follow. */
  lemma {:induction false} PhySays(data: seq<PacketHash.Byte>, airtime: int, sf: int, bw: int,
                                   tag: string, info: string)
    ensures Carries(PhyGroups(data, airtime, sf, bw),
                    ["pkt"] + Present("airtime_ms", airtime != -1) + Present("sf", sf != -1)
                    + Present("bw_hz", bw != -1),
                    data, airtime, sf, bw, tag, info)
  {
    hide Carries, Signed, Numerals.Decimal, Numerals.HexText, PacketHash.Hash, IsInteger, ReadInteger;
    var hex := Numerals.HexText(PacketHash.Hash(data), 8);
    PacketHash.FingerprintReadsBack(data);
    SignedReadsBack(airtime % 0x1_0000_0000);
    SignedReadsBack(sf);
    SignedReadsBack(bw);
    var a := Num("airtime_ms", Numerals.Decimal(airtime % Numerals.WORD32));
    CarriesOne(Text("pkt", hex), true, data, airtime, sf, bw, tag, info);
    CarriesOne(a, airtime != -1, data, airtime, sf, bw, tag, info);
    CarriesOne(Num("sf", Signed(sf)), sf != -1, data, airtime, sf, bw, tag, info);
    CarriesOne(Num("bw_hz", Signed(bw)), bw != -1, data, airtime, sf, bw, tag, info);
    hide Says;
    var (g0, k0) := (PktGroup(data), ["pkt"]);
    var (g1, k1) := (NumberGroups("airtime_ms", a.literal, airtime != -1), Present("airtime_ms", airtime != -1));
    var (g2, k2) := (NumberGroups("sf", Signed(sf), sf != -1), Present("sf", sf != -1));
    var (g3, k3) := (NumberGroups("bw_hz", Signed(bw), bw != -1), Present("bw_hz", bw != -1));
    CarriesMore(g0, k0, g1, k1, data, airtime, sf, bw, tag, info);
    CarriesMore(g0 + g1, k0 + k1, g2, k2, data, airtime, sf, bw, tag, info);
    CarriesMore(g0 + g1 + g2, k0 + k1 + k2, g3, k3, data, airtime, sf, bw, tag, info);
  }

  lemma {:induction false} PhyEvent(data: seq<PacketHash.Byte>, airtime: int, sf: int, bw: int)
    ensures EventSays(Flat(PhyGroups(data, airtime, sf, bw)), data, airtime, sf, bw, "", "")
  {
    hide PhyGroups, Flat, Keys, Says;
    PhySays(data, airtime, sf, bw, "", "");
    var keys := ["pkt"] + Present("airtime_ms", airtime != -1) + Present("sf", sf != -1) + Present("bw_hz", bw != -1);
    assert keys + [] + [] == keys;
  }

  lemma {:induction false} OneText(key: string, value: string)
    ensures GroupTexts([[Text(key, value)]]) == [",\"" + key + "\":\"" + Esc(value) + "\""]
  {
    hide Esc, GroupTexts;
    OneGroup(Text(key, value));
    var b := "\"" + Esc(value) + "\"";
    assert "," + ("\"" + key + "\":" + b) == ",\"" + key + "\":\"" + Esc(value) + "\"";
  }

  lemma {:induction false} OneNumber(key: string, literal: string)
    ensures GroupTexts([[Num(key, literal)]]) == [",\"" + key + "\":" + literal]
  {
    hide GroupTexts;
    OneGroup(Num(key, literal));
    assert "," + ("\"" + key + "\":" + literal) == ",\"" + key + "\":" + literal;
  }

  lemma {:induction false} PhyParts(before: seq<string>, data: seq<PacketHash.Byte>, airtime: int, sf: int, bw: int)
    ensures before + GroupTexts(PhyGroups(data, airtime, sf, bw))
         == before + GroupTexts(PktGroup(data))
            + GroupTexts(NumberGroups("airtime_ms", Numerals.Decimal(airtime % Numerals.WORD32), airtime != OMIT))
            + GroupTexts(NumberGroups("sf", Signed(sf), sf != OMIT))
            + GroupTexts(NumberGroups("bw_hz", Signed(bw), bw != OMIT))
  {
    hide GroupTexts, PktGroup, NumberGroups, Signed;
    var g0 := PktGroup(data);
    var g1 := NumberGroups("airtime_ms", Numerals.Decimal(airtime % Numerals.WORD32), airtime != OMIT);
    var g2 := NumberGroups("sf", Signed(sf), sf != OMIT);
    GroupTextsAppend(g0, g1);
    GroupTextsAppend(g0 + g1, g2);
    var g3 := NumberGroups("bw_hz", Signed(bw), bw != OMIT);
    GroupTextsAppend(g0 + g1 + g2, g3);
    Associate(before, GroupTexts(g0), GroupTexts(g1), GroupTexts(g2), GroupTexts(g3));
  }

  lemma {:induction false} Associate<T>(p: seq<T>, a: seq<T>, b: seq<T>, c: seq<T>, d: seq<T>)
    ensures p + (a + b + c + d) == p + a + b + c + d
  {}

  lemma {:induction false} NoGroups()
    ensures GroupTexts([]) == []
  {}

  lemma {:induction false} HexClean(s: string)
    requires Numerals.AllHex(s)
    ensures Clean(s)
  {}

  class DropLine {
    const buf: array<char>
    var cur: nat
    var overflow: bool
    /** Everything asked to be written so far, head first. */
    ghost var pieces: seq<string>

    ghost predicate Valid()
      reads this, buf
    {
      && buf.Length == 2048 && cur <= LIMIT && buf[cur] == '\0'
      && buf[..cur] == Laid(pieces, LIMIT) && (overflow <==> !AllFit(pieces, LIMIT))
    }

    constructor (kind: CString, time: nat, from: CString, to: CString)
      ensures Valid() && fresh(buf)
      ensures pieces == [HeadText(kind, Numerals.Decimal(time), from, to)]
    {
      buf := new char[2048];
      cur, overflow, pieces := 0, false, [];
      new;
      buf[0] := '\0';
      Addf(HeadText(kind, Numerals.Decimal(time), from, to));
    }

    /** All or nothing: the first text that does not fit whole, and all after it, leave no trace. */
    method Addf(text: string)
      requires Valid()
      modifies this, buf
      ensures Valid() && pieces == old(pieces) + [text]
    {
      hide Laid, AllFit;
      OneMoreLaid(pieces, text, LIMIT);
      pieces := pieces + [text];
      if overflow { return; }
      var room := LIMIT - cur + 1;
      var n := Snprintf(buf, cur, room, text);
      if n >= room {
        buf[cur] := '\0';
        overflow := true;
        return;
      }
      cur := cur + n;
    }

    method AddPhy(data: seq<PacketHash.Byte>, airtime: int, sf: int, bw: int)
      requires Valid()
      modifies this, buf
      ensures Valid() && pieces == old(pieces) + GroupTexts(PhyGroups(data, airtime, sf, bw))
      ensures exists groups :: pieces == old(pieces) + GroupTexts(groups)
                               && EventSays(Flat(groups), data, airtime, sf, bw, "", "")
    {
      PhyEvent(data, airtime, sf, bw);
      hide EventSays, Flat;
      hide GroupTexts, PhyGroups, PktGroup, NumberGroups, Valid, Numerals.Decimal, Signed;
      PhyParts(pieces, data, airtime, sf, bw);
      AddPkt(data);
      AddNumber("airtime_ms", Numerals.Decimal(airtime % Numerals.WORD32), airtime != OMIT);
      AddNumber("sf", Signed(sf), sf != OMIT);
      AddNumber("bw_hz", Signed(bw), bw != OMIT);
    }

    method AddPkt(data: seq<PacketHash.Byte>)
      requires Valid()
      modifies this, buf
      ensures Valid() && pieces == old(pieces) + GroupTexts(PktGroup(data))
    {
      hide GroupTexts, Laid, AllFit, Esc, Clean, Printable, Numerals.HexText, PacketHash.Hash;
      var pkt := new char[9];
      PacketHash.PacketHashHex(pkt, data);
      var hex := pkt[..8];
      HexClean(hex);
      CleanIsItself(hex);
      OneText("pkt", hex);
      Addf(",\"" + "pkt" + "\":\"" + hex + "\"");
    }

    method AddNumber(key: string, literal: string, present: bool)
      requires Valid()
      modifies this, buf
      ensures Valid() && pieces == old(pieces) + GroupTexts(NumberGroups(key, literal, present))
    {
      hide GroupTexts, Laid, AllFit;
      OneNumber(key, literal);
      NoGroups();
      if present {
        Addf(",\"" + key + "\":" + literal);
      }
    }

    method AddText(key: string, value: CString)
      requires Valid()
      modifies this, buf
      ensures Valid() && pieces == old(pieces) + GroupTexts(TextGroups(key, value))
    {
      hide Laid, AllFit, Esc, Kept;
      if value == "" {
        return;
      }
      var esc := new char[1024];
      JsonEscape(esc, value);
      EscTerminated(value, 1023);
      var text := Terminated(esc, Esc(Kept(value, 1023)));
      OneText(key, Kept(value, 1023));
      Addf(",\"" + key + "\":\"" + text + "\"");
    }

    /** Always fits: three places are reserved for the brace, the newline and the terminator. */
    method Emit() returns (line: string)
      requires Valid()
      modifies this, buf
      ensures line == Emitted(old(pieces))
      ensures cur == |line| < buf.Length && buf[..cur] == line && buf[cur] == '\0'
    {
      buf[cur] := '}';
      buf[cur + 1] := '\n';
      buf[cur + 2] := '\0';
      cur := cur + 2;
      line := buf[..cur];
    }
  }

  // ----- a whole event -----------------------------------------------------------------------------

  function NoLinkGroups(data: seq<PacketHash.Byte>, airtime: int, sf: int, bw: int, tag: string, info: string)
    : seq<seq<Member>>
  {
    PhyGroups(data, airtime, sf, bw) + TextGroups("label", tag) + TextGroups("info", info)
  }

  lemma {:induction false} CutIs(key: string, whole: string)
    ensures IsCut(Text(key, Kept(whole, 1023)), whole)
  {
    hide Esc;
    var v := Kept(whole, 1023);
    KeptIsPrefix(whole, 1023);
    assert whole[..|v|] == v;
    KeptIsLongest(whole, 1023, |v|);
    forall j | |v| < j <= |whole|
      ensures |Esc(whole[..j])| > 1023
    {
      KeptIsLongest(whole, 1023, j);
    }
  }

  /** The fields of a drop for want of a link say what was passed. */
  lemma {:induction false} NoLinkSays(data: seq<PacketHash.Byte>, airtime: int, sf: int, bw: int,
                                      tag: string, info: string)
    ensures EventSays(Flat(NoLinkGroups(data, airtime, sf, bw, tag, info)), data, airtime, sf, bw, tag, info)
  {
    hide PhyGroups, Kept, IsCut, Flat, Keys;
    PhySays(data, airtime, sf, bw, tag, info);
    CutIs("label", tag);
    CutIs("info", info);
    CarriesOne(Text("label", Kept(tag, 1023)), tag != "", data, airtime, sf, bw, tag, info);
    CarriesOne(Text("info", Kept(info, 1023)), info != "", data, airtime, sf, bw, tag, info);
    hide Says, Present;
    var keys := ["pkt"] + Present("airtime_ms", airtime != -1) + Present("sf", sf != -1) + Present("bw_hz", bw != -1);
    var g := PhyGroups(data, airtime, sf, bw);
    CarriesMore(g, keys, TextGroups("label", tag), Present("label", tag != ""), data, airtime, sf, bw, tag, info);
    CarriesMore(g + TextGroups("label", tag), keys + Present("label", tag != ""),
                TextGroups("info", info), Present("info", info != ""), data, airtime, sf, bw, tag, info);
  }

  ghost predicate GroupsAllTidy(groups: seq<seq<Member>>) { forall g | g in groups :: AllTidy(g) }

  lemma {:induction false} NumberTidy(key: string, literal: string, present: bool)
    requires Clean(key) && Ascii(key) && Number(literal)
    ensures GroupsAllTidy(NumberGroups(key, literal, present))
  {
    hide Clean, Ascii, Number;
  }

  lemma {:induction false} JoinTidy(g: seq<seq<Member>>, h: seq<seq<Member>>)
    requires GroupsAllTidy(g) && GroupsAllTidy(h)
    ensures GroupsAllTidy(g + h)
  {
    hide AllTidy;
  }

  lemma {:induction false} PhyTidy(data: seq<PacketHash.Byte>, airtime: int, sf: int, bw: int)
    ensures GroupsAllTidy(PhyGroups(data, airtime, sf, bw))
  {
    hide Numerals.Decimal, Numerals.HexText, PacketHash.Hash, Signed, Number, AllTidy, GroupsAllTidy, NumberGroups;
    IntegerIsNumber(airtime % Numerals.WORD32);
    NumberTidy("airtime_ms", Numerals.Decimal(airtime % Numerals.WORD32), airtime != OMIT);
    NumberTidy("sf", Signed(sf), sf != OMIT);
    NumberTidy("bw_hz", Signed(bw), bw != OMIT);
    PktTidy(data);
    var g := PktGroup(data) + NumberGroups("airtime_ms", Numerals.Decimal(airtime % Numerals.WORD32), airtime != OMIT);
    JoinTidy(PktGroup(data), NumberGroups("airtime_ms", Numerals.Decimal(airtime % Numerals.WORD32), airtime != OMIT));
    JoinTidy(g, NumberGroups("sf", Signed(sf), sf != OMIT));
    JoinTidy(g + NumberGroups("sf", Signed(sf), sf != OMIT), NumberGroups("bw_hz", Signed(bw), bw != OMIT));
  }

  lemma {:induction false} PktTidy(data: seq<PacketHash.Byte>)
    ensures GroupsAllTidy(PktGroup(data))
  {
    hide Numerals.HexText;
  }

  lemma {:induction false} TextTidy(key: string, value: string)
    requires Clean(key) && Ascii(key)
    ensures GroupsAllTidy(TextGroups(key, value))
  {
    hide Clean, Ascii, Kept;
  }

  lemma {:induction false} GroupsTidy(data: seq<PacketHash.Byte>, airtime: int, sf: int, bw: int, tag: string,
                                      info: string)
    ensures forall g | g in NoLinkGroups(data, airtime, sf, bw, tag, info) :: AllTidy(g)
  {
    hide PhyGroups, TextGroups, AllTidy;
    PhyTidy(data, airtime, sf, bw);
    TextTidy("label", tag);
    TextTidy("info", info);
    JoinTidy(PhyGroups(data, airtime, sf, bw), TextGroups("label", tag));
    JoinTidy(PhyGroups(data, airtime, sf, bw) + TextGroups("label", tag), TextGroups("info", info));
  }

  lemma {:induction false} NoLinkPieces(head: string, data: seq<PacketHash.Byte>, airtime: int, sf: int, bw: int,
                                        tag: string, info: string)
    ensures LinePieces(head, NoLinkGroups(data, airtime, sf, bw, tag, info))
         == [head] + GroupTexts(PhyGroups(data, airtime, sf, bw)) + GroupTexts(TextGroups("label", tag))
            + GroupTexts(TextGroups("info", info))
  {
    hide PhyGroups, TextGroups, GroupTexts;
    var (g, h) := (PhyGroups(data, airtime, sf, bw), TextGroups("label", tag));
    GroupTextsAppend(g, h);
    GroupTextsAppend(g + h, TextGroups("info", info));
    Associate([head], GroupTexts(g), GroupTexts(h), GroupTexts(TextGroups("info", info)), []);
  }

  /**
   * The line of a drop for want of a link. It is JSON text that reads back as the head and the leading
   * fields that fit, the texts cut to what their buffers hold, exactly when the head fits, the node names
   * are plain UTF-8 and the texts as cut are printable UTF-8.
   */
  method DropNoLink(time: nat, from: CString, to: CString, data: seq<PacketHash.Byte>,
                    airtime: int, sf: int, bw: int, tag: CString, info: CString) returns (line: string)
    ensures |line| + 1 <= 2048
    ensures exists t: string, fields: seq<seq<Member>> {:trigger HeadText("drop_no_link", t, from, to), Flat(fields)} ::
              && IsInteger(t) && ReadInteger(t) == time
              && EventSays(Flat(fields), data, airtime, sf, bw, tag, info)
              && var head := HeadText("drop_no_link", t, from, to);
                 var kept := Flat(fields[..KeptGroups(head, fields)]);
                 var members :=
                   [Text("type", "drop_no_link"), Num("time_ms", t), Text("from", from), Text("to", to)] + kept;
                 && (ParseLine(line) == ReadObject(members, "\n")
                     <==> |head| <= LIMIT && Clean(from) && Clean(to) && AllSound(kept))
                 && (Faithful(line, members)
                     <==> && |head| <= LIMIT && Clean(from) && Clean(to) && AllSound(kept)
                          && Utf8(from) && Utf8(to) && AllEncoded(kept))
  {
    hide ParseLine, Emitted, HeadText, Head, NoLinkGroups, LinePieces, Faithful, Utf8, Clean, Number;
    hide PhyGroups, TextGroups, GroupTexts, AllTidy, AllSound, AllEncoded, Flat, KeptGroups, Numerals.Decimal;
    var l := new DropLine("drop_no_link", time, from, to);
    l.AddPhy(data, airtime, sf, bw);
    l.AddText("label", tag);
    l.AddText("info", info);
    ghost var head := HeadText("drop_no_link", Numerals.Decimal(time), from, to);
    ghost var groups := NoLinkGroups(data, airtime, sf, bw, tag, info);
    NoLinkPieces(head, data, airtime, sf, bw, tag, info);
    assert l.pieces == LinePieces(head, groups);
    line := l.Emit();
    EmittedFits(LinePieces(head, groups));
    GroupsTidy(data, airtime, sf, bw, tag, info);
    KindClean();
    IntegerIsNumber(time);
    LineReadsBack("drop_no_link", Numerals.Decimal(time), from, to, groups);
    LineFaithfulIff("drop_no_link", Numerals.Decimal(time), from, to, groups);
    HeadIs("drop_no_link", Numerals.Decimal(time), from, to);
    NoLinkSays(data, airtime, sf, bw, tag, info);
    SignedReadsBack(time);
    hide EventSays, IsInteger, ReadInteger;
    assert HeadText("drop_no_link", Numerals.Decimal(time), from, to) == head && Flat(groups) == Flat(groups);
  }

  lemma {:induction false} HeadIs(kind: string, time: string, from: string, to: string)
    ensures Head(kind, time, from, to) == [Text("type", kind), Num("time_ms", time), Text("from", from), Text("to", to)]
  {}

  lemma {:induction false} KindClean()
    ensures Clean("drop_no_link") && Ascii("drop_no_link")
  {}

  /** 512 characters of two bytes. */
  function Accents(n: nat): string {
    seq(n, i requires 0 <= i < n => if i % 2 == 0 then 0xC3 as char else 0xA9 as char)
  }

  lemma {:induction false} AccentsAreUtf8(n: nat)
    ensures Utf8(Accents(2 * n)) && Esc(Accents(n)) == Accents(n)
  {
    AccentPairs(n);
    var s := Accents(n);
    EscHigh(s, n);
    assert s[..n] == s && s[n..] == [];
    EscOfNothing(s);
    assert s[..0] == [];
  }

  lemma {:induction false} AccentPairs(n: nat)
    ensures Utf8(Accents(2 * n))
  {
    if n > 0 {
      var s := Accents(2 * n);
      AccentPairs(n - 1);
      assert s[2..] == Accents(2 * (n - 1));
      assert CharLength(s) == 2;
    }
  }

  /**
   * The cut to 1023 bytes can leave half a character: 512 characters of two bytes fill the field with
   * 511 of them and the first byte of the last, and the line is not UTF-8.
   */
  lemma {:induction false} HalfCharacterBreaksTheLine(kind: string, time: nat, from: string, to: string)
    requires Clean(kind) && Ascii(kind) && |HeadText(kind, Numerals.Decimal(time), from, to)| <= 1000
    ensures Utf8(Accents(1024)) && |Kept(Accents(1024), 1023)| == 1023 && !Utf8(Kept(Accents(1024), 1023))
    ensures !Utf8(Emitted(LinePieces(HeadText(kind, Numerals.Decimal(time), from, to),
                                     TextGroups("info", Accents(1024)))))
  {
    hide HeadText, Emitted, Kept, Utf8;
    var head := HeadText(kind, Numerals.Decimal(time), from, to);
    var s := Accents(1024);
    AccentsAreUtf8(512);
    AccentsCut();
    EscUtf8(Kept(s, 1023));
    var groups := TextGroups("info", s);
    var m := Text("info", Kept(s, 1023));
    assert groups == [[m]];
    InfoTidy();
    OneText("info", Kept(s, 1023));
    IntegerIsNumber(time);
    LineUtf8(kind, Numerals.Decimal(time), from, to, groups);
    var x := GroupTexts(groups)[0];
    assert |x| <= 1040;
    assert LinePieces(head, groups) == [head] + [x];
    ConcatOne(head);
    OneMorePiece([head], x, LIMIT);
    assert KeptGroups(head, groups) == 1;
    assert groups[..1] == groups && Flat(groups) == [m];
    assert !Encoded(Flat(groups)[0]);
  }

  lemma {:induction false} InfoTidy()
    ensures Clean("info") && Ascii("info")
  {}

  lemma {:induction false} AccentsCut()
    ensures var s := Accents(1024);
            && Kept(s, 1023) == s[..1023] && !Utf8(s[..1023]) && Esc(s[..1023]) == s[..1023]
  {
    hide Utf8, Esc, Kept, Accents;
    var s := Accents(1024);
    AccentsAreUtf8(512);
    AccentsAreUtf8(1023);
    AccentsAreUtf8(1024);
    AccentsPrefix(1023, 1024);
    assert s[..1024] == s;
    KeptIsLongest(s, 1023, 1023);
    KeptIsLongest(s, 1023, 1024);
    KeptIsPrefix(s, 1023);
    PrefixIff(s, 1023);
  }

  lemma {:induction false} AccentsPrefix(k: nat, n: nat)
    requires k < n
    ensures |Accents(n)| == n && Accents(n)[..k] == Accents(k)
    ensures Tail(Accents(n)[k]) <==> k % 2 == 1
  {}

  lemma {:induction false} KeptIsPrefix(s: string, room: nat)
    ensures Kept(s, room) <= s
  {}

  /**
   * The line is not always well formed: only newline and tab are escaped among the control
   * characters, so a carriage return in a label makes a line that no strict reader takes.
   */
  lemma {:induction false} CarriageReturnBreaksTheLine(kind: string, time: nat, from: string, to: string)
    requires Clean(kind) && Clean(from) && Clean(to)
    requires |HeadText(kind, Numerals.Decimal(time), from, to)| <= 2000
    ensures ParseLine(Emitted(LinePieces(HeadText(kind, Numerals.Decimal(time), from, to), TextGroups("label", "\r"))))
         == NoObject
  {
    hide HeadText, Head, ParseLine, Emitted;
    var head := HeadText(kind, Numerals.Decimal(time), from, to);
    var cr := "\r";
    KeptIsLongest(cr, 1023, 1);
    assert cr[..1] == cr;
    EscStep(cr);
    assert Pieces(cr[1..]) == [];
    assert Esc(cr) == "\r" && Kept(cr, 1023) == cr;
    var groups := TextGroups("label", cr);
    assert groups == [[Text("label", cr)]];
    OneText("label", cr);
    IntegerIsNumber(time);
    LineReadsBack(kind, Numerals.Decimal(time), from, to, groups);
    var x := GroupTexts(groups)[0];
    assert LinePieces(head, groups) == [head] + [x];
    ConcatOne(head);
    OneMorePiece([head], x, LIMIT);
    assert KeptGroups(head, groups) == 1;
    assert groups[..1] == groups && Flat(groups) == [Text("label", cr)];
    assert !Printable(cr);
    assert !Sound(Flat(groups)[0]);
  }
}
