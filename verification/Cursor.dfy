/**
  Distribution cursors (src/distribution/cursor.ts). Every value a cursor may hold is free of
  JSON escapes, so an object's text is its members written one after another.
 */
module Cursor {
  import opened Prelude
  import opened FeedOrder
  import Base64Url

  const MAX_ENCODED_LENGTH := 1024

  datatype Cursor = Cursor(profileConfigKey: string, snapshotRevision: string, position: Position)

  // ---------------------------------------------------------------------------
  // Values

  predicate Digit(c: char) { '0' <= c <= '9' }

  predicate LowerHex(c: char) { Digit(c) || 'a' <= c <= 'f' }

  predicate IsConfigKey(s: string) {
    && 1 <= |s| <= 100 && (forall i | 0 <= i < |s| :: Digit(s[i]) || 'a' <= s[i] <= 'z' || s[i] == '_')
    && s[0] != '_' && s[|s| - 1] != '_' && forall i | 0 <= i < |s| - 1 :: !(s[i] == '_' && s[i + 1] == '_')
  }

  predicate IsRevision(s: string) { |s| == 64 && forall i | 0 <= i < |s| :: LowerHex(s[i]) }

  predicate IsUuid(s: string) {
    |s| == 36 && forall i | 0 <= i < |s| :: if i in {8, 13, 18, 23} then s[i] == '-' else LowerHex(s[i])
  }

  function Digits(s: string): nat {
    if s == "" then 0 else 10 * Digits(s[..|s| - 1]) + (if Digit(s[|s| - 1]) then s[|s| - 1] as int - '0' as int else 0)
  }

  predicate LeapYear(year: nat) { year % 4 == 0 && (year % 100 != 0 || year % 400 == 0) }

  function DaysIn(month: nat, year: nat): nat {
    if month == 2 then (if LeapYear(year) then 29 else 28) else if month in {4, 6, 9, 11} then 30 else 31
  }

  /** A real date and time; the runtime's calendar moves years below 100 to another century. */
  predicate IsTimestamp(s: string) {
    && |s| == 27
    && (forall i | 0 <= i < 27 ::
          if i in {4, 7} then s[i] == '-' else if i == 10 then s[i] == 'T' else if i in {13, 16} then s[i] == ':'
          else if i == 19 then s[i] == '.' else if i == 26 then s[i] == 'Z' else Digit(s[i]))
    && var year, month, day := Digits(s[..4]), Digits(s[5..7]), Digits(s[8..10]);
       && year >= 100 && 1 <= month <= 12 && 1 <= day <= DaysIn(month, year)
       && Digits(s[11..13]) < 24 && Digits(s[14..16]) < 60 && Digits(s[17..19]) < 60
  }

  predicate IsPosition(p: Position) {
    IsTimestamp(p.effectiveFeedDate) && IsTimestamp(p.firstSeenAt) && IsUuid(p.articleId)
  }

  predicate IsCursor(c: Cursor) {
    IsConfigKey(c.profileConfigKey) && IsRevision(c.snapshotRevision) && IsPosition(c.position)
  }

  // ---------------------------------------------------------------------------
  // Objects as text

  /** The only number a cursor holds is 1. */
  datatype JsonValue = One | Str(text: string)

  datatype Member = Member(name: string, value: JsonValue)

  /** Written in JSON as itself. */
  predicate CleanChar(c: char) { ' ' <= c <= '~' && c != '"' && c != '\\' }

  predicate Clean(s: string) { forall i | 0 <= i < |s| :: CleanChar(s[i]) }

  predicate CleanMember(m: Member) { Clean(m.name) && (m.value.Str? ==> Clean(m.value.text)) }

  function Quoted(s: string): string { "\"" + s + "\"" }

  function WriteValue(v: JsonValue): string { if v.One? then "1" else Quoted(v.text) }

  function WriteMember(m: Member): string { Quoted(m.name) + ":" + WriteValue(m.value) }

  function WriteMembers(members: seq<Member>): string
    requires members != []
  {
    if |members| == 1 then WriteMember(members[0]) + "}" else WriteMember(members[0]) + "," + WriteMembers(members[1..])
  }

  function Stringify(members: seq<Member>): string
    requires members != []
  {
    "{" + WriteMembers(members)
  }

  /** The clean text up to a closing quote, and what follows it. */
  function ReadText(s: string): Option<(string, string)> {
    if s == "" then None
    else if s[0] == '"' then Some(("", s[1..]))
    else if !CleanChar(s[0]) then None
    else var rest := ReadText(s[1..]); if rest.None? then None else Some(([s[0]] + rest.value.0, rest.value.1))
  }

  function ReadQuoted(s: string): Option<(string, string)> {
    if s == "" || s[0] != '"' then None else ReadText(s[1..])
  }

  function ReadValue(s: string): Option<(JsonValue, string)> {
    if s != "" && s[0] == '1' then Some((One, s[1..]))
    else var t := ReadQuoted(s); if t.None? then None else Some((Str(t.value.0), t.value.1))
  }

  function ReadMember(s: string): Option<(Member, string)> {
    var name := ReadQuoted(s);
    if name.None? || name.value.1 == "" || name.value.1[0] != ':' then None else
    var v := ReadValue(name.value.1[1..]);
    if v.None? then None else Some((Member(name.value.0, v.value.0), v.value.1))
  }

  lemma {:induction false} ReadTextWrites(s: string)
    requires ReadText(s).Some?
    ensures var (t, rest) := ReadText(s).value; Clean(t) && s == t + "\"" + rest && |rest| < |s|
  {
    if s[0] == '"' {
      assert s == "" + "\"" + s[1..];
    } else {
      ReadTextWrites(s[1..]);
      var (t, rest) := ReadText(s[1..]).value;
      assert s == [s[0]] + s[1..];
      assert s == ([s[0]] + t) + "\"" + rest;
    }
  }

  lemma {:induction false} ReadTextOf(t: string, rest: string)
    requires Clean(t)
    ensures ReadText(t + "\"" + rest) == Some((t, rest))
  {
    var s := t + "\"" + rest;
    if t == "" {
      assert s[1..] == rest;
    } else {
      ReadTextOf(t[1..], rest);
      assert s[1..] == t[1..] + "\"" + rest;
      assert t == [t[0]] + t[1..];
    }
  }

  lemma ReadQuotedOf(t: string, rest: string)
    requires Clean(t)
    ensures ReadQuoted(Quoted(t) + rest) == Some((t, rest))
  {
    ReadTextOf(t, rest);
    assert (Quoted(t) + rest)[1..] == t + "\"" + rest;
  }

  lemma ReadQuotedWrites(s: string)
    requires ReadQuoted(s).Some?
    ensures var (t, rest) := ReadQuoted(s).value; Clean(t) && s == Quoted(t) + rest && |rest| < |s|
  {
    ReadTextWrites(s[1..]);
    var (t, rest) := ReadQuoted(s).value;
    assert s == [s[0]] + s[1..];
    assert s == Quoted(t) + rest;
  }

  lemma ReadValueOf(v: JsonValue, rest: string)
    requires v.Str? ==> Clean(v.text)
    ensures ReadValue(WriteValue(v) + rest) == Some((v, rest))
  {
    if v.One? {
      assert ("1" + rest)[1..] == rest;
    } else {
      ReadQuotedOf(v.text, rest);
      assert (Quoted(v.text) + rest)[0] == '"';
    }
  }

  lemma ReadValueWrites(s: string)
    requires ReadValue(s).Some?
    ensures var (v, rest) := ReadValue(s).value;
            (v.Str? ==> Clean(v.text)) && s == WriteValue(v) + rest && |rest| < |s|
  {
    if s != "" && s[0] == '1' {
      assert s == "1" + s[1..];
    } else {
      ReadQuotedWrites(s);
    }
  }

  lemma ReadMemberOf(m: Member, rest: string)
    requires CleanMember(m)
    ensures ReadMember(WriteMember(m) + rest) == Some((m, rest))
  {
    var tail := ":" + WriteValue(m.value) + rest;
    ReadQuotedOf(m.name, tail);
    assert WriteMember(m) + rest == Quoted(m.name) + tail;
    ReadValueOf(m.value, rest);
    assert tail[1..] == WriteValue(m.value) + rest;
  }

  lemma ReadMemberWrites(s: string)
    requires ReadMember(s).Some?
    ensures var (m, rest) := ReadMember(s).value; CleanMember(m) && s == WriteMember(m) + rest && |rest| < |s|
  {
    ReadQuotedWrites(s);
    var (name, tail) := ReadQuoted(s).value;
    ReadValueWrites(tail[1..]);
    var (v, rest) := ReadValue(tail[1..]).value;
    assert tail == ":" + tail[1..];
    assert s == Quoted(name) + ":" + WriteValue(v) + rest;
  }

  /** Members up to the closing brace, which ends the text. */
  function ReadMembers(s: string): Option<seq<Member>>
    decreases |s|
  {
    var first := ReadMember(s);
    if first.None? then None else
    var (m, rest) := first.value;
    if rest == "}" then Some([m])
    else if rest == "" || rest[0] != ',' then None else
    ReadMemberWrites(s);
    var others := ReadMembers(rest[1..]);
    if others.None? then None else Some([m] + others.value)
  }

  function ParseObject(s: string): Option<seq<Member>> {
    if s == "" || s[0] != '{' then None else ReadMembers(s[1..])
  }

  predicate CleanMembers(members: seq<Member>) { forall i | 0 <= i < |members| :: CleanMember(members[i]) }

  lemma ReadLastMember(m: Member, s: string)
    requires CleanMember(m) && s == WriteMember(m) + "}"
    ensures ReadMembers(s) == Some([m])
  {
    ReadMemberOf(m, "}");
  }

  lemma ReadNextMember(m: Member, s: string, rest: string, others: seq<Member>)
    requires CleanMember(m) && s == WriteMember(m) + "," + rest && ReadMembers(rest) == Some(others)
    ensures ReadMembers(s) == Some([m] + others)
  {
    ReadMemberOf(m, "," + rest);
    assert s == WriteMember(m) + ("," + rest);
    assert ("," + rest)[1..] == rest;
  }

  lemma {:induction false} ReadMembersOf(members: seq<Member>)
    requires members != [] && CleanMembers(members)
    ensures ReadMembers(WriteMembers(members)) == Some(members)
  {
    if |members| == 1 {
      ReadLastMember(members[0], WriteMembers(members));
      assert members == [members[0]];
    } else {
      assert CleanMembers(members[1..]) by {
        assert forall i | 0 <= i < |members[1..]| :: members[1..][i] == members[i + 1];
      }
      ReadMembersOf(members[1..]);
      ReadNextMember(members[0], WriteMembers(members), WriteMembers(members[1..]), members[1..]);
      assert members == [members[0]] + members[1..];
    }
  }

  lemma LastWrites(s: string, m: Member)
    requires s == WriteMember(m) + "}" && CleanMember(m)
    ensures CleanMembers([m]) && s == WriteMembers([m])
  {
  }

  lemma NextWrites(s: string, m: Member, rest: string, others: seq<Member>)
    requires s == WriteMember(m) + rest && CleanMember(m) && rest != "" && rest[0] == ','
    requires others != [] && CleanMembers(others) && rest[1..] == WriteMembers(others)
    ensures CleanMembers([m] + others) && s == WriteMembers([m] + others)
  {
    assert ([m] + others)[1..] == others;
    assert rest == "," + rest[1..];
  }

  lemma {:induction false} ReadMembersWrites(s: string)
    requires ReadMembers(s).Some?
    ensures var m := ReadMembers(s).value; m != [] && CleanMembers(m) && s == WriteMembers(m)
    decreases |s|
  {
    ReadMemberWrites(s);
    var (m, rest) := ReadMember(s).value;
    if rest == "}" {
      LastWrites(s, m);
    } else {
      ReadMembersWrites(rest[1..]);
      NextWrites(s, m, rest, ReadMembers(rest[1..]).value);
    }
  }

  /** Reading and writing are inverse: what parses is exactly what its members write. */
  lemma ObjectRoundTrip(members: seq<Member>, s: string)
    ensures members != [] && CleanMembers(members) ==> ParseObject(Stringify(members)) == Some(members)
    ensures ParseObject(s).Some? ==>
              var m := ParseObject(s).value; m != [] && CleanMembers(m) && s == Stringify(m)
  {
    if members != [] && CleanMembers(members) {
      ReadMembersOf(members);
      assert Stringify(members)[1..] == WriteMembers(members);
    }
    if ParseObject(s).Some? {
      ReadMembersWrites(s[1..]);
      assert s == "{" + s[1..];
    }
  }

  // ---------------------------------------------------------------------------
  // The codec

  predicate Ascii(s: string) { forall i | 0 <= i < |s| :: s[i] as int < 128 }

  function Codes(s: string): (b: seq<nat>)
    requires Ascii(s)
    ensures |b| == |s| && forall i | 0 <= i < |b| :: b[i] == s[i] as int
  {
    if s == "" then [] else [s[0] as nat] + Codes(s[1..])
  }

  /** Absent unless every byte is an ASCII code. */
  function TextOf(b: seq<nat>): (s: Option<string>)
    ensures s.Some? ==> Ascii(s.value) && Codes(s.value) == b
  {
    if b == [] then Some("") else
    var rest := TextOf(b[1..]);
    if b[0] >= 128 || rest.None? then None else Some([b[0] as char] + rest.value)
  }

  lemma TextOfNext(c: char, rest: string, b: seq<nat>)
    requires c as int < 128 && b != [] && b[0] == c as int && TextOf(b[1..]) == Some(rest)
    ensures TextOf(b) == Some([c] + rest)
  {
  }

  lemma {:induction false} TextOfCodes(s: string)
    requires Ascii(s)
    ensures TextOf(Codes(s)) == Some(s)
  {
    if s != "" {
      TextOfCodes(s[1..]);
      assert Codes(s)[1..] == Codes(s[1..]);
      TextOfNext(s[0], s[1..], Codes(s));
      assert s == [s[0]] + s[1..];
    }
  }

  /** The six fields in the order they are written. */
  function Payload(c: Cursor): (m: seq<Member>)
    ensures |m| == 6
  {
    [Member("version", One), Member("profileConfigKey", Str(c.profileConfigKey)),
     Member("snapshotRevision", Str(c.snapshotRevision)), Member("effectiveFeedDate", Str(c.position.effectiveFeedDate)),
     Member("firstSeenAt", Str(c.position.firstSeenAt)), Member("articleId", Str(c.position.articleId))]
  }

  /** One field of an object's text. */
  function Field(name: string, value: string): string { "\"" + name + "\":" + value }

  /** The JSON text of a cursor, field by field. */
  lemma PayloadText(c: Cursor)
    ensures Stringify(Payload(c)) ==
            "{" + (Field("version", "1") + ("," + (Field("profileConfigKey", Quoted(c.profileConfigKey)) + ("," +
            (Field("snapshotRevision", Quoted(c.snapshotRevision)) + ("," +
            (Field("effectiveFeedDate", Quoted(c.position.effectiveFeedDate)) + ("," +
            (Field("firstSeenAt", Quoted(c.position.firstSeenAt)) + ("," +
            (Field("articleId", Quoted(c.position.articleId)) + "}")))))))))))
  {
    var m := Payload(c);
    NextText(m, 0, "version", "1");
    NextText(m, 1, "profileConfigKey", Quoted(c.profileConfigKey));
    NextText(m, 2, "snapshotRevision", Quoted(c.snapshotRevision));
    NextText(m, 3, "effectiveFeedDate", Quoted(c.position.effectiveFeedDate));
    NextText(m, 4, "firstSeenAt", Quoted(c.position.firstSeenAt));
    LastText(m, 5, "articleId", Quoted(c.position.articleId));
    assert m[0..] == m;
  }

  lemma LastText(m: seq<Member>, i: nat, name: string, value: string)
    requires i + 1 == |m| && m[i].name == name && WriteValue(m[i].value) == value
    ensures WriteMembers(m[i..]) == Field(name, value) + "}"
  {
  }

  lemma NextText(m: seq<Member>, i: nat, name: string, value: string)
    requires i + 1 < |m| && m[i].name == name && WriteValue(m[i].value) == value
    ensures WriteMembers(m[i..]) == Field(name, value) + ("," + WriteMembers(m[i + 1..]))
  {
    assert m[i..][0] == m[i] && m[i..][1..] == m[i + 1..];
    Regroup(Field(name, value), ",", WriteMembers(m[i + 1..]));
  }

  lemma Regroup(a: string, b: string, c: string)
    ensures a + b + c == a + (b + c)
  {
  }

  function EncodeText(text: string): string
    requires Ascii(text)
  {
    Base64Url.Encode(Codes(text))
  }

  /** Absent for an invalid cursor or an encoding beyond the length limit. */
  function Encode(c: Cursor): Option<string> {
    if !IsCursor(c) then None else
    CursorClean(c);
    WritesAscii(Payload(c));
    var encoded := EncodeText(Stringify(Payload(c)));
    if |encoded| > MAX_ENCODED_LENGTH then None else Some(encoded)
  }

  function Find(members: seq<Member>, name: string): Option<JsonValue> {
    if members == [] then None
    else if members[0].name == name then Some(members[0].value) else Find(members[1..], name)
  }

  function FindText(members: seq<Member>, name: string): Option<string> {
    var v := Find(members, name);
    if v.None? || v.value.One? then None else Some(v.value.text)
  }

  /** The text of an encoded cursor, if it is the encoding of one. */
  function DecodeText(encoded: string): (text: Option<string>)
    ensures text.Some? ==> Ascii(text.value) && EncodeText(text.value) == encoded && 1 <= |encoded| <= MAX_ENCODED_LENGTH
  {
    if |encoded| == 0 || |encoded| > MAX_ENCODED_LENGTH || !Base64Url.IsBase64Url(encoded) then None else
    var bytes := Base64Url.Decode(encoded);
    if Base64Url.Encode(bytes) != encoded then None else TextOf(bytes)
  }

  function DecodeMembers(members: seq<Member>, expectedProfile: string): Option<Cursor> {
    var key := FindText(members, "profileConfigKey");
    var revision := FindText(members, "snapshotRevision");
    var date := FindText(members, "effectiveFeedDate");
    var seen := FindText(members, "firstSeenAt");
    var id := FindText(members, "articleId");
    if |members| != 6 || Find(members, "version") != Some(One) ||
       key.None? || revision.None? || date.None? || seen.None? || id.None? then None else
    if key.value != expectedProfile then None else
    var c := Cursor(key.value, revision.value, Position(date.value, seen.value, id.value));
    if IsCursor(c) then Some(c) else None
  }

  function Decode(encoded: string, expectedProfile: string): Option<Cursor> {
    var text := DecodeText(encoded);
    if text.None? then None else
    var members := ParseObject(text.value);
    if members.None? then None else DecodeMembers(members.value, expectedProfile)
  }

  lemma ConfigKeyClean(s: string)
    requires IsConfigKey(s)
    ensures Clean(s)
  {
    forall i | 0 <= i < |s|
      ensures CleanChar(s[i])
    {
      assert Digit(s[i]) || 'a' <= s[i] <= 'z' || s[i] == '_';
    }
  }

  lemma PositionClean(p: Position)
    requires IsPosition(p)
    ensures Clean(p.effectiveFeedDate) && Clean(p.firstSeenAt) && Clean(p.articleId)
  {
    TimestampClean(p.effectiveFeedDate);
    TimestampClean(p.firstSeenAt);
  }

  lemma TimestampClean(s: string)
    requires IsTimestamp(s)
    ensures Clean(s)
  {
  }

  lemma NamesClean()
    ensures Clean("version") && Clean("profileConfigKey") && Clean("snapshotRevision")
    ensures Clean("effectiveFeedDate") && Clean("firstSeenAt") && Clean("articleId")
  {
  }

  lemma CursorClean(c: Cursor)
    requires IsCursor(c)
    ensures CleanMembers(Payload(c))
  {
    ConfigKeyClean(c.profileConfigKey);
    assert Clean(c.snapshotRevision);
    PositionClean(c.position);
    NamesClean();
    var m := Payload(c);
    assert CleanMember(m[0]) && CleanMember(m[1]) && CleanMember(m[2]);
    assert CleanMember(m[3]) && CleanMember(m[4]) && CleanMember(m[5]);
  }

  lemma {:induction false} WritesAscii(members: seq<Member>)
    requires members != [] && CleanMembers(members)
    ensures Ascii(Stringify(members)) && Ascii(WriteMembers(members))
    decreases |members|
  {
    MemberAscii(members[0]);
    if |members| > 1 {
      assert CleanMembers(members[1..]) by {
        assert forall i | 0 <= i < |members[1..]| :: members[1..][i] == members[i + 1];
      }
      WritesAscii(members[1..]);
    }
  }

  lemma MemberAscii(m: Member)
    requires CleanMember(m)
    ensures Ascii(WriteMember(m))
  {
  }

  // ---------------------------------------------------------------------------
  // Looking fields up

  const FIELDS := ["version", "profileConfigKey", "snapshotRevision", "effectiveFeedDate", "firstSeenAt", "articleId"]

  lemma FieldsDiffer(i: nat, j: nat)
    requires i < j < 6
    ensures FIELDS[i] != FIELDS[j]
  {
    assert |FIELDS[0]| == 7 && |FIELDS[1]| == 16 && |FIELDS[2]| == 16;
    assert |FIELDS[3]| == 17 && |FIELDS[4]| == 11 && |FIELDS[5]| == 9;
    assert FIELDS[1][0] == 'p' && FIELDS[2][0] == 's';
  }

  lemma {:induction false} FindAt(members: seq<Member>, i: nat)
    requires i < |members| && forall j | 0 <= j < i :: members[j].name != members[i].name
    ensures Find(members, members[i].name) == Some(members[i].value)
  {
    if i > 0 {
      assert forall j | 0 <= j < i - 1 :: members[1..][j].name == members[j + 1].name;
      assert members[1..][i - 1] == members[i];
      FindAt(members[1..], i - 1);
    }
  }

  function Names(members: seq<Member>): (n: seq<string>)
    ensures |n| == |members|
  {
    if members == [] then [] else [members[0].name] + Names(members[1..])
  }

  lemma {:induction false} NamesAt(members: seq<Member>, i: nat)
    requires i < |members|
    ensures Names(members)[i] == members[i].name
  {
    if i > 0 {
      NamesAt(members[1..], i - 1);
    }
  }

  /** In canonical order every field is found at its place. */
  lemma FindField(members: seq<Member>, k: nat)
    requires Names(members) == FIELDS && k < 6
    ensures |members| == 6 && members[k].name == FIELDS[k] && Find(members, FIELDS[k]) == Some(members[k].value)
  {
    NamesAt(members, k);
    forall j | 0 <= j < k
      ensures members[j].name != members[k].name
    {
      NamesAt(members, j);
      FieldsDiffer(j, k);
    }
    FindAt(members, k);
  }

  lemma PayloadNames(c: Cursor)
    ensures Names(Payload(c)) == FIELDS
  {
    var m := Payload(c);
    forall i | 0 <= i < 6
      ensures Names(m)[i] == FIELDS[i]
    {
      NamesAt(m, i);
    }
  }

  lemma DecodePayload(c: Cursor)
    requires IsCursor(c)
    ensures DecodeMembers(Payload(c), c.profileConfigKey) == Some(c)
  {
    PayloadNames(c);
    var m := Payload(c);
    FindField(m, 0);
    FindField(m, 1);
    FindField(m, 2);
    FindField(m, 3);
    FindField(m, 4);
    FindField(m, 5);
  }

  // ---------------------------------------------------------------------------
  // Encoding always succeeds and decodes to what went in

  lemma {:induction false} WrittenLength(members: seq<Member>, bound: nat)
    requires members != [] && forall i | 0 <= i < |members| :: |WriteMember(members[i])| <= bound
    ensures |WriteMembers(members)| <= |members| * (bound + 1)
    decreases |members|
  {
    if |members| > 1 {
      assert forall i | 0 <= i < |members[1..]| :: members[1..][i] == members[i + 1];
      WrittenLength(members[1..], bound);
      assert |members| * (bound + 1) == (|members| - 1) * (bound + 1) + (bound + 1);
    }
  }

  /** The members of a cursor in any order. */
  ghost predicate SixOf(members: seq<Member>, c: Cursor) {
    |members| == 6 && forall i | 0 <= i < 6 :: members[i] in Payload(c)
  }

  lemma MemberLength(c: Cursor, m: Member)
    requires IsCursor(c) && m in Payload(c)
    ensures CleanMember(m) && |WriteMember(m)| <= 121
  {
    CursorClean(c);
  }

  /** Whatever the order, six members of a valid cursor can be encoded, and decoded again. */
  lemma SixEncode(members: seq<Member>, c: Cursor)
    requires IsCursor(c) && SixOf(members, c)
    ensures CleanMembers(members) && Ascii(Stringify(members))
    ensures DecodeText(EncodeText(Stringify(members))) == Some(Stringify(members))
    ensures ParseObject(Stringify(members)) == Some(members)
  {
    forall i | 0 <= i < 6
      ensures CleanMember(members[i]) && |WriteMember(members[i])| <= 121
    {
      MemberLength(c, members[i]);
    }
    WritesAscii(members);
    ObjectRoundTrip(members, "");
    WrittenLength(members, 121);
    var text := Stringify(members);
    Base64Url.EncodeLength(Codes(text));
    Base64Url.DecodeEncode(Codes(text));
    TextOfCodes(text);
  }

  lemma PayloadIsSix(c: Cursor)
    ensures SixOf(Payload(c), c)
  {
  }

  /** Every valid cursor has an encoding within the limit, and decoding it gives the cursor back. */
  lemma DecodeInvertsEncode(c: Cursor)
    requires IsCursor(c)
    ensures Encode(c).Some? && Decode(Encode(c).value, c.profileConfigKey) == Some(c)
  {
    PayloadIsSix(c);
    SixEncode(Payload(c), c);
    CursorClean(c);
    DecodePayload(c);
  }

  /** Only valid cursors of the expected Profile are ever decoded. */
  lemma DecodedIsValid(encoded: string, expectedProfile: string)
    requires Decode(encoded, expectedProfile).Some?
    ensures IsCursor(Decode(encoded, expectedProfile).value)
    ensures Decode(encoded, expectedProfile).value.profileConfigKey == expectedProfile
  {
  }

  lemma EncodeInjective(c: Cursor, d: Cursor)
    requires IsCursor(c) && IsCursor(d) && Encode(c) == Encode(d)
    ensures c == d
  {
    DecodeInvertsEncode(c);
    DecodeInvertsEncode(d);
    CursorClean(c);
    CursorClean(d);
    PayloadIsSix(c);
    PayloadIsSix(d);
    SixEncode(Payload(c), c);
    SixEncode(Payload(d), d);
    assert Payload(c)[1] == Payload(d)[1];
  }

  // ---------------------------------------------------------------------------
  // Which encodings are accepted

  /** The field names of an encoding, in the order they are written. */
  function FieldOrder(encoded: string): seq<string> {
    var text := DecodeText(encoded);
    if text.None? || ParseObject(text.value).None? then [] else Names(ParseObject(text.value).value)
  }

  lemma DecodedFields(members: seq<Member>, expectedProfile: string, c: Cursor)
    requires DecodeMembers(members, expectedProfile) == Some(c)
    ensures Find(members, "version") == Some(One)
    ensures Find(members, "profileConfigKey") == Some(Str(c.profileConfigKey))
    ensures Find(members, "snapshotRevision") == Some(Str(c.snapshotRevision))
    ensures Find(members, "effectiveFeedDate") == Some(Str(c.position.effectiveFeedDate))
    ensures Find(members, "firstSeenAt") == Some(Str(c.position.firstSeenAt))
    ensures Find(members, "articleId") == Some(Str(c.position.articleId))
  {
  }

  lemma FieldIs(members: seq<Member>, k: nat, name: string, v: JsonValue)
    requires Names(members) == FIELDS && k < 6 && FIELDS[k] == name && Find(members, name) == Some(v)
    ensures |members| == 6 && members[k] == Member(name, v)
  {
    FindField(members, k);
  }

  lemma CanonicalMembers(members: seq<Member>, expectedProfile: string, c: Cursor)
    requires DecodeMembers(members, expectedProfile) == Some(c) && Names(members) == FIELDS
    ensures members == Payload(c)
  {
    DecodedFields(members, expectedProfile, c);
    FieldIs(members, 0, "version", One);
    FieldIs(members, 1, "profileConfigKey", Str(c.profileConfigKey));
    FieldIs(members, 2, "snapshotRevision", Str(c.snapshotRevision));
    FieldIs(members, 3, "effectiveFeedDate", Str(c.position.effectiveFeedDate));
    FieldIs(members, 4, "firstSeenAt", Str(c.position.firstSeenAt));
    FieldIs(members, 5, "articleId", Str(c.position.articleId));
  }

  /**
    An accepted encoding is the one encoding of its cursor exactly when its fields are written
    in the canonical order; decoding does not check that.
   */
  lemma AcceptedIsCanonicalExactlyWhenOrdered(encoded: string, expectedProfile: string, c: Cursor)
    requires Decode(encoded, expectedProfile) == Some(c)
    ensures Some(encoded) == Encode(c) <==> FieldOrder(encoded) == FIELDS
  {
    DecodeInvertsEncode(c);
    var text := DecodeText(encoded).value;
    var members := ParseObject(text).value;
    ObjectRoundTrip(members, text);
    PayloadNames(c);
    PayloadIsSix(c);
    SixEncode(Payload(c), c);
    if Names(members) == FIELDS {
      CanonicalMembers(members, expectedProfile, c);
    }
  }

  function Swapped(c: Cursor): (m: seq<Member>)
    ensures |m| == 6
  {
    var p := Payload(c);
    [p[1], p[0], p[2], p[3], p[4], p[5]]
  }

  lemma FindSwapped(c: Cursor)
    ensures forall k | 0 <= k < 6 :: Find(Swapped(c), FIELDS[k]) == Some(Payload(c)[k].value)
  {
    var m, p := Swapped(c), Payload(c);
    forall k | 0 <= k < 6
      ensures Find(m, FIELDS[k]) == Some(p[k].value)
    {
      var i := if k == 0 then 1 else if k == 1 then 0 else k;
      PayloadNames(c);
      forall j | 0 <= j < 6
        ensures p[j].name == FIELDS[j]
      {
        NamesAt(p, j);
      }
      forall j | 0 <= j < i
        ensures m[j].name != m[i].name
      {
        var jj := if j == 0 then 1 else if j == 1 then 0 else j;
        if jj < k { FieldsDiffer(jj, k); } else { FieldsDiffer(k, jj); }
      }
      FindAt(m, i);
    }
  }

  lemma SwappedDecodes(c: Cursor)
    requires IsCursor(c)
    ensures DecodeMembers(Swapped(c), c.profileConfigKey) == Some(c)
  {
    FindSwapped(c);
    assert FIELDS[0] == "version" && FIELDS[1] == "profileConfigKey" && FIELDS[2] == "snapshotRevision";
    assert FIELDS[3] == "effectiveFeedDate" && FIELDS[4] == "firstSeenAt" && FIELDS[5] == "articleId";
  }

  lemma SwappedOutOfOrder(c: Cursor)
    ensures Names(Swapped(c)) != FIELDS
  {
    FieldsDiffer(0, 1);
    NamesAt(Swapped(c), 0);
    assert Names(Swapped(c))[0] == FIELDS[1];
  }

  /** Every cursor has a second accepted encoding: the one with its first two fields swapped. */
  lemma SwappedFieldsAreAccepted(c: Cursor)
    requires IsCursor(c)
    ensures Ascii(Stringify(Swapped(c)))
    ensures var other := EncodeText(Stringify(Swapped(c)));
            Decode(other, c.profileConfigKey) == Some(c) && Some(other) != Encode(c)
  {
    assert SixOf(Swapped(c), c);
    SixEncode(Swapped(c), c);
    SwappedDecodes(c);
    SwappedOutOfOrder(c);
    var other := EncodeText(Stringify(Swapped(c)));
    AcceptedIsCanonicalExactlyWhenOrdered(other, c.profileConfigKey, c);
  }
}
