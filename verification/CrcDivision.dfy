/**
  The checksum as section 8 of RFC 1952 and ITU-T V.42 define it: the complement of the remainder
  of a polynomial division over two elements.

  A polynomial is the sequence of its coefficients, the highest power first.
 */
module CrcDivision {
  import opened Prelude
  import opened Crc32

  /** x^32 + x^26 + x^23 + x^22 + x^16 + x^12 + x^11 + x^10 + x^8 + x^7 + x^5 + x^4 + x^2 + x + 1. */
  const GENERATOR_POWERS: set<nat> := {32, 26, 23, 22, 16, 12, 11, 10, 8, 7, 5, 4, 2, 1, 0}

  function Generator(): (g: Bits)
    ensures |g| == 33 && g[0]
  {
    seq(33, i requires 0 <= i < 33 => 32 - i in GENERATOR_POWERS)
  }

  /** The generator times a constant. */
  function Multiple(b: bool): (g: Bits)
    ensures |g| == 33 && g[0] == b
  {
    if b then Generator() else Zeros(33)
  }

  /** The product of a polynomial of `|q|` coefficients and the generator. */
  function Times(q: Bits): (p: Bits)
    ensures |p| == |q| + 32
  {
    if q == [] then Zeros(32)
    else Xor(Times(q[..|q| - 1]) + [false], Zeros(|q| - 1) + Multiple(q[|q| - 1]))
  }

  ghost predicate IsQuotient(d: Bits, q: Bits, r: Bits) {
    |q| + 32 == |d| && |r| == 32 && d == Xor(Times(q), Zeros(|q|) + r)
  }

  /** `r` is what is left of `d` after division by the generator. */
  ghost predicate IsRemainder(d: Bits, r: Bits) { exists q :: IsQuotient(d, q, r) }

  /** Bit `i` of a number, the least significant being bit 0. */
  predicate Bit(n: nat, i: nat) { n / PowerOfTwo(i) % 2 == 1 }

  /** The bytes in order, the least significant bit of each first, followed by 32 zeros, the first 32 of all complemented. */
  function Dividend(data: seq<nat>): (d: Bits)
    ensures |d| == 8 * |data| + 32
  {
    seq(8 * |data| + 32, m requires 0 <= m < 8 * |data| + 32 => (m < 8 * |data| && Bit(data[m / 8], m % 8)) != (m < 32))
  }

  /** The complement of a number, its least significant bit standing for x^31. */
  function Complement(n: nat): (r: Bits)
    ensures |r| == 32
  {
    seq(32, i requires 0 <= i < 32 => !Bit(n, i))
  }

  // ---------------------------------------------------------------------------
  // Division has one remainder

  /** The leading coefficients of a product tell those of its quotient one by one. */
  lemma ProductAt(q: Bits, i: nat)
    requires i < |q|
    ensures var before := Times(q[..|q| - 1])[i];
            Times(q)[i] == if i < |q| - 1 then before else before != q[i]
  {
  }

  lemma {:induction false} TopOfProduct(q: Bits, p: Bits)
    requires |q| == |p| && forall i | 0 <= i < |q| :: Times(q)[i] == Times(p)[i]
    ensures q == p
  {
    if q != [] {
      var n := |q| - 1;
      var u, v := q[..n], p[..n];
      forall i | 0 <= i < n
        ensures Times(u)[i] == Times(v)[i]
      {
        ProductAt(q, i);
        ProductAt(p, i);
      }
      TopOfProduct(u, v);
      ProductAt(q, n);
      ProductAt(p, n);
      assert q == u + [q[n]] && p == v + [p[n]];
    }
  }

  lemma RemainderUnique(d: Bits, r: Bits, s: Bits)
    requires IsRemainder(d, r) && IsRemainder(d, s)
    ensures r == s
  {
    var q :| IsQuotient(d, q, r);
    var p :| IsQuotient(d, p, s);
    forall i | 0 <= i < |q|
      ensures Times(q)[i] == Times(p)[i]
    {
      assert d[i] == Times(q)[i] && d[i] == Times(p)[i];
    }
    TopOfProduct(q, p);
    forall i | 0 <= i < 32
      ensures r[i] == s[i]
    {
      assert d[|q| + i] == (Times(q)[|q| + i] != r[i]);
      assert d[|q| + i] == (Times(p)[|q| + i] != s[i]);
    }
  }

  // ---------------------------------------------------------------------------
  // The register holds the remainder

  /** Register and message before they are divided. */
  function Loaded(c: Bits, w: Bits): (d: Bits)
    requires |c| == 32
    ensures |d| == |w| + 32
  {
    Xor(c + Zeros(|w|), w + Zeros(32))
  }

  /** The low 32 coefficients of the generator are the constant of the loop. */
  lemma GeneratorIsPolynomial(i: nat)
    requires i < 32
    ensures Generator()[i + 1] == Polynomial()[i]
  {
  }

  lemma BitStepDivides(r: Bits, d: bool, i: nat)
    requires |r| == 32 && i < 32
    ensures BitStep(r, d)[i] == ((i + 1 < 32 && r[i + 1]) != Multiple(r[0] != d)[i + 1])
  {
    ShiftAt(Xor(r, Pad([d])), i);
    GeneratorIsPolynomial(i);
  }

  lemma {:induction false} RegisterIsRemainder(c: Bits, w: Bits) returns (q: Bits)
    requires |c| == 32
    ensures |q| == |w| && IsQuotient(Loaded(c, w), q, BitSteps(c, w))
    decreases |w|
  {
    if w == [] {
      q := [];
      assert Loaded(c, w) == c;
    } else {
      var n := |w| - 1;
      var u, d := w[..n], w[n];
      var p := RegisterIsRemainder(c, u);
      var r := BitSteps(c, u);
      q := p + [r[0] != d];
      assert w == u + [d];
      BitStepsAppend(c, u, [d]);
      OneMoreBit(c, w, u, d, p, r, q, BitSteps(c, w));
    }
  }

  lemma OneMoreBit(c: Bits, w: Bits, u: Bits, d: bool, p: Bits, r: Bits, q: Bits, next: Bits)
    requires |c| == 32 && w == u + [d] && |p| == |u| && IsQuotient(Loaded(c, u), p, r)
    requires q == p + [r[0] != d] && next == BitStep(r, d)
    ensures IsQuotient(Loaded(c, w), q, next)
  {
    var n := |u|;
    var whole := Loaded(c, w);
    assert q[..n] == p;
    var product := Xor(Times(q), Zeros(n + 1) + next);
    forall i | 0 <= i < n + 33
      ensures whole[i] == product[i]
    {
      if i < n + 32 {
        assert Loaded(c, u)[i] == Xor(Times(p), Zeros(n) + r)[i];
      }
      if i > n {
        BitStepDivides(r, d, i - n - 1);
      }
    }
    assert whole == product;
  }

  // ---------------------------------------------------------------------------
  // Numbers and bits

  lemma {:induction false} BitsAreBits(n: nat, width: nat, i: nat)
    requires i < width
    ensures BitsOf(n, width)[i] == Bit(n, i)
    decreases width
  {
    if i > 0 {
      BitsAreBits(n / 2, width - 1, i - 1);
      HalfThenPower(n, PowerOfTwo(i - 1));
    }
  }

  lemma HalfThenPower(n: nat, p: nat)
    requires p > 0
    ensures n / 2 / p == n / (2 * p)
  {
    var half := n / 2;
    var q, rest := half / p, half % p;
    assert half == q * p + rest;
    assert q * (2 * p) == 2 * (q * p);
    QuotientIs(n, 2 * p, q, 2 * rest + n % 2);
  }

  lemma QuotientIs(n: nat, d: nat, q: nat, rest: nat)
    requires rest < d && n == q * d + rest
    ensures n / d == q
  {
    var k := n / d;
    assert k * d <= n < k * d + d;
    if k < q {
      ProductGrows(k, q, d);
    } else if q < k {
      ProductGrows(q, k, d);
    }
  }

  lemma ProductGrows(a: nat, b: nat, d: nat)
    requires a < b
    ensures a * d + d <= b * d
  {
    assert b * d == a * d + d + (b - a - 1) * d;
  }

  lemma {:induction false} FlatIsBits(data: seq<nat>, m: nat)
    requires m < 8 * |data|
    ensures |Flat(data)| == 8 * |data| && Flat(data)[m] == Bit(data[m / 8], m % 8)
    decreases |data|
  {
    FlatLength(data);
    if m < 8 {
      BitsAreBits(data[0], BYTE, m);
    } else {
      FlatIsBits(data[1..], m - 8);
      assert Flat(data)[m] == Flat(data[1..])[m - 8];
      assert (m - 8) / 8 == m / 8 - 1 && (m - 8) % 8 == m % 8;
    }
  }

  lemma DividendIsLoaded(data: seq<nat>)
    ensures Dividend(data) == Loaded(Ones(), Flat(data))
  {
    FlatLength(data);
    forall m | 0 <= m < 8 * |data| + 32
      ensures Dividend(data)[m] == Loaded(Ones(), Flat(data))[m]
    {
      if m < 8 * |data| {
        FlatIsBits(data, m);
      }
    }
  }

  lemma ComplementOfChecksum(data: seq<nat>)
    ensures Complement(Checksum(data)) == Steps(Ones(), data)
  {
    var bits := Xor(Steps(Ones(), data), Ones());
    BitsOfNumber(bits);
    forall i | 0 <= i < 32
      ensures Complement(Checksum(data))[i] == Steps(Ones(), data)[i]
    {
      BitsAreBits(Checksum(data), 32, i);
    }
  }

  lemma ComplementInjective(m: nat, n: nat)
    requires m < 0x1_0000_0000 && n < 0x1_0000_0000 && Complement(m) == Complement(n)
    ensures m == n
  {
    assert PowerOfTwo(8) == 0x100;
    assert PowerOfTwo(16) == 0x1_0000;
    assert PowerOfTwo(24) == 0x100_0000;
    assert PowerOfTwo(32) == 0x1_0000_0000;
    forall i | 0 <= i < 32
      ensures BitsOf(m, 32)[i] == BitsOf(n, 32)[i]
    {
      BitsAreBits(m, 32, i);
      BitsAreBits(n, 32, i);
      assert Complement(m)[i] == Complement(n)[i];
    }
    assert BitsOf(m, 32) == BitsOf(n, 32);
    NumberOfBits(m, 32);
    NumberOfBits(n, 32);
  }

  /** A 32-bit number is the checksum of the data exactly when its complement is the remainder. */
  lemma ChecksumIsRemainder(data: seq<nat>, n: nat)
    requires n < 0x1_0000_0000
    ensures n == Checksum(data) <==> IsRemainder(Dividend(data), Complement(n))
  {
    DividendIsLoaded(data);
    ComplementOfChecksum(data);
    StepsAreBitSteps(Ones(), data);
    var q := RegisterIsRemainder(Ones(), Flat(data));
    assert IsRemainder(Dividend(data), Complement(Checksum(data)));
    ChecksumFits(data);
    if IsRemainder(Dividend(data), Complement(n)) {
      RemainderUnique(Dividend(data), Complement(n), Complement(Checksum(data)));
      ComplementInjective(n, Checksum(data));
    }
  }
}
