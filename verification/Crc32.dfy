/**
  The bitwise CRC-32 of src/integrations/php-integration-package.ts, the table-driven CRC of
  section 8 of RFC 1952, and which changes to a buffer the checksum always notices.

  A 32-bit number is the sequence of its bits, least significant first; a byte is a number below 256.
 */
module Crc32 {
  import opened Prelude

  type Bits = seq<bool>

  const WIDTH := 32

  function Zeros(n: nat): (r: Bits)
    ensures |r| == n
  {
    seq(n, i => false)
  }

  function Ones(): (r: Bits)
    ensures |r| == WIDTH
  {
    seq(WIDTH, i => true)
  }

  function Xor(a: Bits, b: Bits): (r: Bits)
    requires |a| == |b|
    ensures |r| == |a| && forall i | 0 <= i < |a| :: r[i] == (a[i] != b[i])
  {
    seq(|a|, i requires 0 <= i < |a| => a[i] != b[i])
  }

  /** 0xedb88320: bit `31 - k` for each term x^k of the generator below x^32. */
  function Polynomial(): (r: Bits)
    ensures |r| == WIDTH && r[WIDTH - 1]
  {
    seq(WIDTH, i => i in {5, 8, 9, 15, 19, 20, 21, 23, 24, 26, 27, 29, 30, 31})
  }

  /** `c >>> n`. */
  function RightShift(c: Bits, n: nat): (r: Bits)
    requires n <= |c|
    ensures |r| == |c|
  {
    c[n..] + Zeros(n)
  }

  /** One turn of the inner loop. */
  function Shift(c: Bits): (r: Bits)
    requires |c| == WIDTH
    ensures |r| == WIDTH
  {
    Xor(RightShift(c, 1), if c[0] then Polynomial() else Zeros(WIDTH))
  }

  function Shifts(c: Bits, n: nat): (r: Bits)
    requires |c| == WIDTH
    ensures |r| == WIDTH
    decreases n
  {
    if n == 0 then c else Shifts(Shift(c), n - 1)
  }

  function Pad(w: Bits): (r: Bits)
    requires |w| <= WIDTH
    ensures |r| == WIDTH
  {
    w + Zeros(WIDTH - |w|)
  }

  // ---------------------------------------------------------------------------
  // Numbers and their bits

  function Number(bits: Bits): nat {
    if bits == [] then 0 else (if bits[0] then 1 else 0) + 2 * Number(bits[1..])
  }

  function BitsOf(n: nat, width: nat): (r: Bits)
    ensures |r| == width
    decreases width
  {
    if width == 0 then [] else [n % 2 == 1] + BitsOf(n / 2, width - 1)
  }

  lemma {:induction false} NumberBound(bits: Bits)
    ensures Number(bits) < PowerOfTwo(|bits|)
  {
    if bits != [] {
      NumberBound(bits[1..]);
    }
  }

  lemma {:induction false} BitsOfNumber(bits: Bits)
    ensures BitsOf(Number(bits), |bits|) == bits
  {
    if bits != [] {
      BitsOfNumber(bits[1..]);
      assert Number(bits) / 2 == Number(bits[1..]);
      assert bits == [bits[0]] + bits[1..];
    }
  }

  lemma {:induction false} NumberOfBits(n: nat, width: nat)
    requires n < PowerOfTwo(width)
    ensures Number(BitsOf(n, width)) == n
    decreases width
  {
    if width > 0 {
      NumberOfBits(n / 2, width - 1);
      assert BitsOf(n, width)[1..] == BitsOf(n / 2, width - 1);
    }
  }

  const BYTE := 8

  function ByteBits(b: nat): (r: Bits)
    ensures |r| == BYTE
  {
    BitsOf(b, BYTE)
  }

  // ---------------------------------------------------------------------------
  // The two checksums

  /** One byte of the outer loop. */
  function Step(c: Bits, b: nat): (r: Bits)
    requires |c| == WIDTH
    ensures |r| == WIDTH
  {
    Shifts(Xor(c, Pad(ByteBits(b))), |ByteBits(b)|)
  }

  function Steps(c: Bits, data: seq<nat>): (r: Bits)
    requires |c| == WIDTH
    ensures |r| == WIDTH
    decreases |data|
  {
    if data == [] then c else Steps(Step(c, data[0]), data[1..])
  }

  function Checksum(data: seq<nat>): nat {
    Number(Xor(Steps(Ones(), data), Ones()))
  }

  lemma ChecksumFits(data: seq<nat>)
    ensures Checksum(data) < 0x1_0000_0000
  {
    NumberBound(Xor(Steps(Ones(), data), Ones()));
    assert PowerOfTwo(8) == 256;
    assert PowerOfTwo(16) == 0x1_0000;
    assert PowerOfTwo(24) == 0x100_0000;
    assert PowerOfTwo(32) == 0x1_0000_0000;
  }

  method CalculateChecksum(data: seq<nat>) returns (r: nat)
    ensures r == Checksum(data)
  {
    var checksum := Ones();
    for i := 0 to |data|
      invariant |checksum| == WIDTH
      invariant Steps(Ones(), data) == Steps(checksum, data[i..])
    {
      ghost var before := checksum;
      checksum := Xor(checksum, Pad(ByteBits(data[i])));
      var bit := 0;
      while bit < BYTE
        invariant 0 <= bit <= BYTE && |checksum| == WIDTH
        invariant Step(before, data[i]) == Shifts(checksum, BYTE - bit)
      {
        checksum := Xor(RightShift(checksum, 1), if checksum[0] then Polynomial() else Zeros(WIDTH));
        bit := bit + 1;
      }
      assert data[i..][1..] == data[i + 1..];
    }
    r := Number(Xor(checksum, Ones()));
  }

  /** Entry `n` of the table. */
  function TableEntry(n: nat): (r: Bits)
    ensures |r| == WIDTH
  {
    Shifts(Pad(ByteBits(n)), |ByteBits(n)|)
  }

  /** `table[(c ^ byte) & 0xff] ^ (c >> 8)`. */
  function TableStep(c: Bits, b: nat): (r: Bits)
    requires |c| == WIDTH
    ensures |r| == WIDTH
  {
    Xor(TableEntry(Number(Xor(c[..BYTE], ByteBits(b)))), RightShift(c, BYTE))
  }

  function TableSteps(c: Bits, data: seq<nat>): (r: Bits)
    requires |c| == WIDTH
    ensures |r| == WIDTH
    decreases |data|
  {
    if data == [] then c else TableSteps(TableStep(c, data[0]), data[1..])
  }

  function TableChecksum(data: seq<nat>): nat {
    Number(Xor(TableSteps(Ones(), data), Ones()))
  }

  // ---------------------------------------------------------------------------
  // Shifting is linear and loses nothing

  lemma ShiftAt(c: Bits, i: nat)
    requires |c| == WIDTH && i < WIDTH
    ensures Shift(c)[i] == ((i + 1 < WIDTH && c[i + 1]) != (c[0] && Polynomial()[i]))
  {
  }

  lemma ShiftLinear(x: Bits, y: Bits)
    requires |x| == |y| == WIDTH
    ensures Shift(Xor(x, y)) == Xor(Shift(x), Shift(y))
  {
    forall i | 0 <= i < WIDTH
      ensures Shift(Xor(x, y))[i] == Xor(Shift(x), Shift(y))[i]
    {
      ShiftAt(x, i);
      ShiftAt(y, i);
      ShiftAt(Xor(x, y), i);
    }
  }

  lemma {:induction false} ShiftsLinear(x: Bits, y: Bits, n: nat)
    requires |x| == |y| == WIDTH
    ensures Shifts(Xor(x, y), n) == Xor(Shifts(x, n), Shifts(y, n))
    decreases n
  {
    if n > 0 {
      ShiftLinear(x, y);
      ShiftsLinear(Shift(x), Shift(y), n - 1);
    }
  }

  lemma ShiftInjective(x: Bits, y: Bits)
    requires |x| == |y| == WIDTH && Shift(x) == Shift(y)
    ensures x == y
  {
    ShiftAt(x, WIDTH - 1);
    ShiftAt(y, WIDTH - 1);
    forall i | 0 < i < WIDTH
      ensures x[i] == y[i]
    {
      ShiftAt(x, i - 1);
      ShiftAt(y, i - 1);
    }
  }

  lemma {:induction false} ShiftsInjective(x: Bits, y: Bits, n: nat)
    requires |x| == |y| == WIDTH && Shifts(x, n) == Shifts(y, n)
    ensures x == y
    decreases n
  {
    if n > 0 {
      ShiftsInjective(Shift(x), Shift(y), n - 1);
      ShiftInjective(x, y);
    }
  }

  /** While the low bits are zero the polynomial stays out. */
  lemma {:induction false} ShiftsOfHighBits(c: Bits, n: nat)
    requires |c| == WIDTH && n <= WIDTH && forall i | 0 <= i < n :: !c[i]
    ensures Shifts(c, n) == RightShift(c, n)
    decreases n
  {
    if n == 0 {
      assert RightShift(c, 0) == c;
    } else {
      forall i | 0 <= i < WIDTH
        ensures Shift(c)[i] == (i + 1 < WIDTH && c[i + 1])
      {
        ShiftAt(c, i);
      }
      ShiftsOfHighBits(Shift(c), n - 1);
      assert RightShift(Shift(c), n - 1) == RightShift(c, n);
    }
  }

  /** Shifting splits into the bits shifted out, which the table is for, and the rest. */
  lemma ShiftsSplit(z: Bits, n: nat)
    requires |z| == WIDTH && n <= WIDTH
    ensures Shifts(z, n) == Xor(Shifts(Pad(z[..n]), n), RightShift(z, n))
  {
    var low, high := Pad(z[..n]), Zeros(n) + z[n..];
    assert z == Xor(low, high);
    ShiftsLinear(low, high, n);
    ShiftsOfHighBits(high, n);
    assert RightShift(high, n) == RightShift(z, n);
  }

  lemma LowByte(c: Bits, byte: Bits)
    requires |c| == WIDTH && |byte| == BYTE
    ensures Xor(c, Pad(byte))[..BYTE] == Xor(c[..BYTE], byte)
    ensures RightShift(Xor(c, Pad(byte)), BYTE) == RightShift(c, BYTE)
  {
  }

  lemma TableEntryOf(low: Bits)
    requires |low| == BYTE
    ensures TableEntry(Number(low)) == Shifts(Pad(low), |low|)
  {
    BitsOfNumber(low);
  }

  /** Eight turns at once through the table. */
  lemma StepIsTableStep(c: Bits, b: nat)
    requires |c| == WIDTH
    ensures Step(c, b) == TableStep(c, b)
  {
    var byte := ByteBits(b);
    LowByte(c, byte);
    ShiftsSplit(Xor(c, Pad(byte)), |byte|);
    TableEntryOf(Xor(c[..BYTE], byte));
  }

  lemma {:induction false} StepsAreTableSteps(c: Bits, data: seq<nat>)
    requires |c| == WIDTH
    ensures Steps(c, data) == TableSteps(c, data)
    decreases |data|
  {
    if data != [] {
      StepIsTableStep(c, data[0]);
      StepsAreTableSteps(Step(c, data[0]), data[1..]);
    }
  }

  /** The bitwise checksum is the CRC of RFC 1952 on every byte string. */
  lemma BitwiseIsTableDriven(data: seq<nat>)
    ensures Checksum(data) == TableChecksum(data)
  {
    StepsAreTableSteps(Ones(), data);
  }

  // ---------------------------------------------------------------------------
  // The checksum as a machine that reads bits

  function BitStep(c: Bits, d: bool): (r: Bits)
    requires |c| == WIDTH
    ensures |r| == WIDTH
  {
    Shift(Xor(c, Pad([d])))
  }

  function BitSteps(c: Bits, w: Bits): (r: Bits)
    requires |c| == WIDTH
    ensures |r| == WIDTH
    decreases |w|
  {
    if w == [] then c else BitSteps(BitStep(c, w[0]), w[1..])
  }

  function Flat(data: seq<nat>): Bits {
    if data == [] then [] else ByteBits(data[0]) + Flat(data[1..])
  }

  lemma AbsorbFirst(c: Bits, w: Bits)
    requires |c| == WIDTH && 0 < |w| <= WIDTH
    ensures Xor(BitStep(c, w[0]), Pad(w[1..])) == Shift(Xor(c, Pad(w)))
  {
    forall i | 0 <= i < WIDTH
      ensures Xor(BitStep(c, w[0]), Pad(w[1..]))[i] == Shift(Xor(c, Pad(w)))[i]
    {
      ShiftAt(Xor(c, Pad([w[0]])), i);
      ShiftAt(Xor(c, Pad(w)), i);
    }
  }

  /** Up to a register's width of bits can be absorbed at once. */
  lemma {:induction false} AbsorbWord(c: Bits, w: Bits)
    requires |c| == WIDTH && |w| <= WIDTH
    ensures BitSteps(c, w) == Shifts(Xor(c, Pad(w)), |w|)
    decreases |w|
  {
    if w == [] {
      assert Xor(c, Pad(w)) == c;
    } else {
      var next := BitStep(c, w[0]);
      AbsorbWord(next, w[1..]);
      AbsorbFirst(c, w);
      assert Shifts(Xor(c, Pad(w)), |w|) == Shifts(Xor(next, Pad(w[1..])), |w[1..]|);
    }
  }

  lemma {:induction false} BitStepsAppend(c: Bits, a: Bits, b: Bits)
    requires |c| == WIDTH
    ensures BitSteps(c, a + b) == BitSteps(BitSteps(c, a), b)
    decreases |a|
  {
    if a == [] {
      assert a + b == b;
    } else {
      assert (a + b)[1..] == a[1..] + b;
      BitStepsAppend(BitStep(c, a[0]), a[1..], b);
    }
  }

  lemma {:induction false} StepsAreBitSteps(c: Bits, data: seq<nat>)
    requires |c| == WIDTH
    ensures Steps(c, data) == BitSteps(c, Flat(data))
    decreases |data|
  {
    if data != [] {
      AbsorbWord(c, ByteBits(data[0]));
      BitStepsAppend(c, ByteBits(data[0]), Flat(data[1..]));
      StepsAreBitSteps(Step(c, data[0]), data[1..]);
    }
  }

  // ---------------------------------------------------------------------------
  // Changes that are always noticed

  lemma SameXor(a: Bits, b: Bits, c: Bits)
    requires |a| == |b| == |c| && Xor(a, c) == Xor(b, c)
    ensures a == b
  {
    assert forall i | 0 <= i < |a| :: Xor(a, c)[i] == Xor(b, c)[i];
  }

  lemma SameXorOf(a: Bits, b: Bits, c: Bits)
    requires |a| == |b| == |c| && Xor(c, a) == Xor(c, b)
    ensures a == b
  {
    assert forall i | 0 <= i < |a| :: Xor(c, a)[i] == Xor(c, b)[i];
  }

  lemma {:induction false} BitStepsInjective(c: Bits, d: Bits, w: Bits)
    requires |c| == |d| == WIDTH && BitSteps(c, w) == BitSteps(d, w)
    ensures c == d
    decreases |w|
  {
    if w != [] {
      BitStepsInjective(BitStep(c, w[0]), BitStep(d, w[0]), w[1..]);
      ShiftInjective(Xor(c, Pad([w[0]])), Xor(d, Pad([w[0]])));
      SameXor(c, d, Pad([w[0]]));
    }
  }

  lemma SamePad(v: Bits, w: Bits)
    requires |v| == |w| <= WIDTH && Pad(v) == Pad(w)
    ensures v == w
  {
    assert v == Pad(v)[..|v|] && w == Pad(w)[..|w|];
  }

  /** Reading different words of at most 32 bits from one state leads to different states. */
  lemma WordsDiverge(c: Bits, v: Bits, w: Bits)
    requires |c| == WIDTH && |v| == |w| <= WIDTH && v != w
    ensures BitSteps(c, v) != BitSteps(c, w)
  {
    if BitSteps(c, v) == BitSteps(c, w) {
      AbsorbWord(c, v);
      AbsorbWord(c, w);
      ShiftsInjective(Xor(c, Pad(v)), Xor(c, Pad(w)), |v|);
      SameXorOf(Pad(v), Pad(w), c);
      SamePad(v, w);
    }
  }

  /**
    Buffers whose bits differ only inside 32 consecutive ones, wherever those fall, always have
    different checksums.
   */
  lemma BurstChangesChecksum(data: seq<nat>, other: seq<nat>, before: Bits, v: Bits, w: Bits, after: Bits)
    requires Flat(data) == before + v + after && Flat(other) == before + w + after
    requires |v| == |w| <= WIDTH && v != w
    ensures Checksum(data) != Checksum(other)
  {
    var c := BitSteps(Ones(), before);
    var x, y := BitSteps(Ones(), Flat(data)), BitSteps(Ones(), Flat(other));
    StepsAreBitSteps(Ones(), data);
    StepsAreBitSteps(Ones(), other);
    if Checksum(data) == Checksum(other) {
      BitsOfNumber(Xor(x, Ones()));
      BitsOfNumber(Xor(y, Ones()));
      SameXor(x, y, Ones());
      BitStepsAppend(Ones(), before + v, after);
      BitStepsAppend(Ones(), before + w, after);
      BitStepsInjective(BitSteps(Ones(), before + v), BitSteps(Ones(), before + w), after);
      BitStepsAppend(Ones(), before, v);
      BitStepsAppend(Ones(), before, w);
      WordsDiverge(c, v, w);
    }
  }

  lemma {:induction false} FlatAppend(a: seq<nat>, b: seq<nat>)
    ensures Flat(a + b) == Flat(a) + Flat(b)
    decreases |a|
  {
    if a == [] {
      assert a + b == b;
    } else {
      assert (a + b)[1..] == a[1..] + b;
      FlatAppend(a[1..], b);
    }
  }

  lemma {:induction false} FlatLength(data: seq<nat>)
    ensures |Flat(data)| == BYTE * |data|
  {
    if data != [] {
      FlatLength(data[1..]);
    }
  }

  lemma ByteBitsInjective(a: nat, b: nat)
    requires a < 256 && b < 256 && ByteBits(a) == ByteBits(b)
    ensures a == b
  {
    assert PowerOfTwo(4) == 16;
    assert PowerOfTwo(8) == 256;
    NumberOfBits(a, BYTE);
    NumberOfBits(b, BYTE);
  }

  lemma {:induction false} FlatInjective(a: seq<nat>, b: seq<nat>)
    requires |a| == |b| && (forall i | 0 <= i < |a| :: a[i] < 256) && (forall i | 0 <= i < |b| :: b[i] < 256)
    ensures Flat(a) == Flat(b) ==> a == b
    decreases |a|
  {
    if a != [] && Flat(a) == Flat(b) {
      assert ByteBits(a[0]) == Flat(a)[..BYTE] && ByteBits(b[0]) == Flat(b)[..BYTE];
      ByteBitsInjective(a[0], b[0]);
      assert Flat(a[1..]) == Flat(a)[BYTE..] && Flat(b[1..]) == Flat(b)[BYTE..];
      FlatInjective(a[1..], b[1..]);
      assert a == [a[0]] + a[1..] && b == [b[0]] + b[1..];
    }
  }

  /** The same in bytes: a change confined to four consecutive bytes, one byte included. */
  lemma BytesChangeChecksum(before: seq<nat>, v: seq<nat>, w: seq<nat>, after: seq<nat>)
    requires |v| == |w| <= 4 && v != w
    requires (forall i | 0 <= i < |v| :: v[i] < 256) && (forall i | 0 <= i < |w| :: w[i] < 256)
    ensures Checksum(before + v + after) != Checksum(before + w + after)
  {
    FlatAppend(before + v, after);
    FlatAppend(before, v);
    FlatAppend(before + w, after);
    FlatAppend(before, w);
    FlatLength(v);
    FlatLength(w);
    if Flat(v) == Flat(w) {
      FlatInjective(v, w);
    }
    BurstChangesChecksum(before + v + after, before + w + after, Flat(before), Flat(v), Flat(w), Flat(after));
  }

  lemma OneByteChangesChecksum(data: seq<nat>, other: seq<nat>, k: nat)
    requires |data| == |other| && k < |data| && data[k] != other[k] && data[k] < 256 && other[k] < 256
    requires forall i | 0 <= i < |data| && i != k :: data[i] == other[i]
    ensures Checksum(data) != Checksum(other)
  {
    var before, after := data[..k], data[k + 1..];
    assert data == before + [data[k]] + after && other == before + [other[k]] + after;
    BytesChangeChecksum(before, [data[k]], [other[k]], after);
  }
}
