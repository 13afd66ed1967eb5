/** base64url without padding (section 5 of RFC 4648), and the runtime's lenient decoder. */
module Base64Url {
  import opened Prelude

  type Bytes = seq<nat>

  function Symbol(v: nat): (c: char)
    requires v < 64
  {
    if v < 26 then ('A' as int + v) as char
    else if v < 52 then ('a' as int + v - 26) as char
    else if v < 62 then ('0' as int + v - 52) as char
    else if v == 62 then '-' else '_'
  }

  function ValueOf(c: char): (v: Option<nat>)
    ensures v.Some? ==> v.value < 64 && Symbol(v.value) == c
  {
    if 'A' <= c <= 'Z' then Some(c as int - 'A' as int)
    else if 'a' <= c <= 'z' then Some(c as int - 'a' as int + 26)
    else if '0' <= c <= '9' then Some(c as int - '0' as int + 52)
    else if c == '-' then Some(62) else if c == '_' then Some(63) else None
  }

  lemma SymbolValue(v: nat)
    requires v < 64
    ensures ValueOf(Symbol(v)) == Some(v)
  {
  }

  // The alphabet of section 5 of RFC 4648.

  lemma CapitalsFirst()
    ensures [Symbol(0), Symbol(1), Symbol(2), Symbol(3), Symbol(4), Symbol(5),
             Symbol(6), Symbol(7), Symbol(8), Symbol(9), Symbol(10), Symbol(11), Symbol(12)] == "ABCDEFGHIJKLM"
  {
  }

  lemma MoreCapitals()
    ensures [Symbol(13), Symbol(14), Symbol(15), Symbol(16), Symbol(17), Symbol(18),
             Symbol(19), Symbol(20), Symbol(21), Symbol(22), Symbol(23), Symbol(24), Symbol(25)] == "NOPQRSTUVWXYZ"
  {
  }

  lemma ThenSmallLetters()
    ensures [Symbol(26), Symbol(27), Symbol(28), Symbol(29), Symbol(30), Symbol(31),
             Symbol(32), Symbol(33), Symbol(34), Symbol(35), Symbol(36), Symbol(37), Symbol(38)] == "abcdefghijklm"
  {
  }

  lemma MoreSmallLetters()
    ensures [Symbol(39), Symbol(40), Symbol(41), Symbol(42), Symbol(43), Symbol(44),
             Symbol(45), Symbol(46), Symbol(47), Symbol(48), Symbol(49), Symbol(50), Symbol(51)] == "nopqrstuvwxyz"
  {
  }

  lemma ThenDigitsAndTwoMore()
    ensures [Symbol(52), Symbol(53), Symbol(54), Symbol(55), Symbol(56), Symbol(57),
             Symbol(58), Symbol(59), Symbol(60), Symbol(61), Symbol(62), Symbol(63)] == "0123456789-_"
  {
  }

  predicate AreBytes(b: Bytes) { forall i | 0 <= i < |b| :: b[i] < 256 }

  function Quartet(x: nat, y: nat, z: nat): string
    requires x < 256 && y < 256 && z < 256
  {
    [Symbol(x / 4), Symbol(x % 4 * 16 + y / 16), Symbol(y % 16 * 4 + z / 64), Symbol(z % 64)]
  }

  function Encode(b: Bytes): string
    requires AreBytes(b)
  {
    if b == [] then ""
    else if |b| == 1 then [Symbol(b[0] / 4), Symbol(b[0] % 4 * 16)]
    else if |b| == 2 then [Symbol(b[0] / 4), Symbol(b[0] % 4 * 16 + b[1] / 16), Symbol(b[1] % 16 * 4)]
    else Quartet(b[0], b[1], b[2]) + Encode(b[3..])
  }

  /** Four symbols are three bytes as one number; the last one or two bytes are filled up with zero bits. */
  lemma EncodeExactly(b: Bytes)
    requires AreBytes(b)
    ensures b == [] ==> Encode(b) == ""
    ensures |b| == 1 ==> |Encode(b)| == 2 && NumberOf(Encode(b)) == Some(16 * b[0])
    ensures |b| == 2 ==> |Encode(b)| == 3 && NumberOf(Encode(b)) == Some(4 * (256 * b[0] + b[1]))
    ensures |b| >= 3 ==> |Encode(b)| >= 4 && Encode(b)[4..] == Encode(b[3..]) &&
                         NumberOf(Encode(b)[..4]) == Some(65536 * b[0] + 256 * b[1] + b[2])
  {
    if |b| == 1 {
      EncodesOne(b);
    } else if |b| == 2 {
      EncodesTwo(b);
    } else if |b| >= 3 {
      EncodesThree(b);
    }
  }

  lemma EncodesOne(b: Bytes)
    requires AreBytes(b) && |b| == 1
    ensures |Encode(b)| == 2 && NumberOf(Encode(b)) == Some(16 * b[0])
  {
    NumberOfTwo(b[0] / 4, b[0] % 4 * 16);
  }

  lemma EncodesTwo(b: Bytes)
    requires AreBytes(b) && |b| == 2
    ensures |Encode(b)| == 3 && NumberOf(Encode(b)) == Some(4 * (256 * b[0] + b[1]))
  {
    NumberOfThree(b[0] / 4, b[0] % 4 * 16 + b[1] / 16, b[1] % 16 * 4);
  }

  lemma EncodesThree(b: Bytes)
    requires AreBytes(b) && |b| >= 3
    ensures |Encode(b)| >= 4 && Encode(b)[4..] == Encode(b[3..])
    ensures NumberOf(Encode(b)[..4]) == Some(65536 * b[0] + 256 * b[1] + b[2])
  {
    QuartetNumber(b[0], b[1], b[2]);
    assert Encode(b)[..4] == Quartet(b[0], b[1], b[2]);
  }

  lemma QuartetNumber(x: nat, y: nat, z: nat)
    requires x < 256 && y < 256 && z < 256
    ensures NumberOf(Quartet(x, y, z)) == Some(65536 * x + 256 * y + z)
  {
    NumberOfFour(x / 4, x % 4 * 16 + y / 16, y % 16 * 4 + z / 64, z % 64);
  }

  /** The symbols as digits to the base 64. */
  function NumberOf(s: string): Option<nat> {
    if s == "" then Some(0) else
    var before, last := NumberOf(s[..|s| - 1]), ValueOf(s[|s| - 1]);
    if before.None? || last.None? then None else Some(64 * before.value + last.value)
  }

  lemma NumberOfTwo(v: nat, w: nat)
    requires v < 64 && w < 64
    ensures NumberOf([Symbol(v), Symbol(w)]) == Some(64 * v + w)
  {
    SymbolValue(v);
    SymbolValue(w);
    assert [Symbol(v)][..0] == "" && NumberOf([Symbol(v)]) == Some(v);
    assert [Symbol(v), Symbol(w)][..1] == [Symbol(v)];
  }

  lemma NumberOfThree(v: nat, w: nat, x: nat)
    requires v < 64 && w < 64 && x < 64
    ensures NumberOf([Symbol(v), Symbol(w), Symbol(x)]) == Some(4096 * v + 64 * w + x)
  {
    NumberOfTwo(v, w);
    SymbolValue(x);
    assert [Symbol(v), Symbol(w), Symbol(x)][..2] == [Symbol(v), Symbol(w)];
  }

  lemma NumberOfFour(v: nat, w: nat, x: nat, y: nat)
    requires v < 64 && w < 64 && x < 64 && y < 64
    ensures NumberOf([Symbol(v), Symbol(w), Symbol(x), Symbol(y)]) == Some(262144 * v + 4096 * w + 64 * x + y)
  {
    NumberOfThree(v, w, x);
    SymbolValue(y);
    assert [Symbol(v), Symbol(w), Symbol(x), Symbol(y)][..3] == [Symbol(v), Symbol(w), Symbol(x)];
  }

  /** Every symbol is in the alphabet. */
  predicate IsBase64Url(s: string) { forall i | 0 <= i < |s| :: ValueOf(s[i]).Some? }

  /** Whole bytes only: bits left over at the end are dropped. */
  function Decode(s: string): (b: Bytes)
    requires IsBase64Url(s)
    ensures AreBytes(b)
  {
    if |s| < 2 then [] else
    var v0, v1 := ValueOf(s[0]).value, ValueOf(s[1]).value;
    var first := v0 * 4 + v1 / 16;
    if |s| == 2 then [first] else
    var v2 := ValueOf(s[2]).value;
    var second := v1 % 16 * 16 + v2 / 4;
    if |s| == 3 then [first, second] else
    [first, second, v2 % 4 * 64 + ValueOf(s[3]).value] + Decode(s[4..])
  }

  lemma SixBits(x: nat, y: nat, z: nat)
    requires x < 256 && y < 256 && z < 256
    ensures var v0, v1, v2, v3 := x / 4, x % 4 * 16 + y / 16, y % 16 * 4 + z / 64, z % 64;
            && v0 < 64 && v1 < 64 && v2 < 64 && v3 < 64
            && v0 * 4 + v1 / 16 == x && v1 % 16 * 16 + v2 / 4 == y && v2 % 4 * 64 + v3 == z
  {
    var v1, v2 := x % 4 * 16 + y / 16, y % 16 * 4 + z / 64;
    assert v1 / 16 == x % 4 && v1 % 16 == y / 16;
    assert v2 / 4 == y % 16 && v2 % 4 == z / 64;
  }

  lemma TwoSymbols(v0: nat, v1: nat, x: nat)
    requires v0 < 64 && v1 < 64 && x == v0 * 4 + v1 / 16
    ensures IsBase64Url([Symbol(v0), Symbol(v1)]) && Decode([Symbol(v0), Symbol(v1)]) == [x]
  {
    SymbolValue(v0);
    SymbolValue(v1);
  }

  lemma ThreeSymbols(v0: nat, v1: nat, v2: nat, x: nat, y: nat)
    requires v0 < 64 && v1 < 64 && v2 < 64 && x == v0 * 4 + v1 / 16 && y == v1 % 16 * 16 + v2 / 4
    ensures IsBase64Url([Symbol(v0), Symbol(v1), Symbol(v2)]) && Decode([Symbol(v0), Symbol(v1), Symbol(v2)]) == [x, y]
  {
    SymbolValue(v0);
    SymbolValue(v1);
    SymbolValue(v2);
  }

  lemma OneByteDecodes(x: nat)
    requires x < 256
    ensures IsBase64Url(Encode([x])) && Decode(Encode([x])) == [x]
  {
    SixBits(x, 0, 0);
    TwoSymbols(x / 4, x % 4 * 16, x);
  }

  lemma TwoBytesDecode(x: nat, y: nat)
    requires x < 256 && y < 256
    ensures IsBase64Url(Encode([x, y])) && Decode(Encode([x, y])) == [x, y]
  {
    SixBits(x, y, 0);
    ThreeSymbols(x / 4, x % 4 * 16 + y / 16, y % 16 * 4, x, y);
  }

  lemma QuartetDecodes(v0: nat, v1: nat, v2: nat, v3: nat, q: string, rest: string, b: Bytes)
    requires v0 < 64 && v1 < 64 && v2 < 64 && v3 < 64 && IsBase64Url(rest)
    requires q == [Symbol(v0), Symbol(v1), Symbol(v2), Symbol(v3)]
    requires b == [v0 * 4 + v1 / 16, v1 % 16 * 16 + v2 / 4, v2 % 4 * 64 + v3]
    ensures IsBase64Url(q + rest) && Decode(q + rest) == b + Decode(rest)
  {
    SymbolValue(v0);
    SymbolValue(v1);
    SymbolValue(v2);
    SymbolValue(v3);
    var s := q + rest;
    assert s[4..] == rest;
    assert forall i | 4 <= i < |s| :: s[i] == rest[i - 4];
  }

  lemma TripleDecodes(x: nat, y: nat, z: nat, rest: string)
    requires x < 256 && y < 256 && z < 256 && IsBase64Url(rest)
    ensures IsBase64Url(Quartet(x, y, z) + rest) && Decode(Quartet(x, y, z) + rest) == [x, y, z] + Decode(rest)
  {
    SixBits(x, y, z);
    QuartetDecodes(x / 4, x % 4 * 16 + y / 16, y % 16 * 4 + z / 64, z % 64, Quartet(x, y, z), rest, [x, y, z]);
  }

  lemma {:induction false} DecodeEncode(b: Bytes)
    requires AreBytes(b)
    ensures IsBase64Url(Encode(b)) && Decode(Encode(b)) == b
  {
    if |b| >= 3 {
      DecodeEncode(b[3..]);
      TripleDecodes(b[0], b[1], b[2], Encode(b[3..]));
      assert Encode(b) == Quartet(b[0], b[1], b[2]) + Encode(b[3..]);
      assert b == [b[0], b[1], b[2]] + b[3..];
    } else if |b| == 2 {
      TwoBytesDecode(b[0], b[1]);
      assert b == [b[0], b[1]];
    } else if |b| == 1 {
      OneByteDecodes(b[0]);
      assert b == [b[0]];
    }
  }

  lemma {:induction false} EncodeLength(b: Bytes)
    requires AreBytes(b)
    ensures |Encode(b)| <= |b| + |b| / 3 + 2 && (b != [] ==> Encode(b) != "")
  {
    if |b| >= 3 {
      EncodeLength(b[3..]);
    }
  }

  lemma EncodeInjective(a: Bytes, b: Bytes)
    requires AreBytes(a) && AreBytes(b) && Encode(a) == Encode(b)
    ensures a == b
  {
    DecodeEncode(a);
    DecodeEncode(b);
  }
}
