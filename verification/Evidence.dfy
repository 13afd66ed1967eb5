/**
  Duplicate evidence for one pair of Articles (src/deduplication/evidence.ts).

  A UUID is modelled as its 128-bit value; the lower-case hexadecimal text compares as
  the number does. SHA-256 is taken to be injective, so a fingerprint is identified with
  the text that is hashed.
 */
module Evidence {
  import opened Prelude

  const UUID_LIMIT: nat := 0x1_0000_0000_0000_0000_0000_0000_0000_0000

  type Uuid = nat

  predicate IsUuid(id: Uuid) { id < UUID_LIMIT }

  /** The columns of an Article that duplicate handling reads. */
  datatype Article = Article(
    id: Uuid,
    sourceId: Uuid,
    canonicalIdentityUrl: string,
    normalizedTitle: string,
    author: Option<string>,
    summary: Option<string>,
    imageUrl: Option<string>,
    language: Option<string>,
    originalUrlIsHttps: bool,
    publishedAt: Option<int>,
    publishedAtParsed: bool,
    firstSeenAt: int,
    createdAt: int)

  datatype Pair = Pair(low: Uuid, high: Uuid)

  datatype Strength = Strong | Weak

  datatype Kind = CanonicalIdentityUrl | NormalizedTitle

  datatype Signal = Signal(reason: Kind, strength: Strength)

  datatype Material = Material(kind: Kind, value: string)

  datatype DuplicateEvidence = DuplicateEvidence(
    pair: Pair,
    signals: seq<Signal>,
    strength: Strength,
    confidence: nat,
    fingerprint: string)

  predicate PairOfUuids(p: Pair) { IsUuid(p.low) && IsUuid(p.high) }

  function CanonicalPair(a: Uuid, b: Uuid): (p: Pair)
    requires a != b
    ensures p.low < p.high
    ensures {p.low, p.high} == {a, b}
  {
    if a < b then Pair(a, b) else Pair(b, a)
  }

  // ---------------------------------------------------------------------------
  // Text forms

  const HEX_DIGITS := "0123456789abcdef"

  /** The last `k` hexadecimal digits of `n`, most significant first. */
  function Hex(n: nat, k: nat): (s: string)
    ensures |s| == k
  {
    if k == 0 then "" else Hex(n / 16, k - 1) + [HEX_DIGITS[n % 16]]
  }

  function Power16(k: nat): (r: nat)
    ensures r > 0
  {
    if k == 0 then 1 else 16 * Power16(k - 1)
  }

  lemma {:induction false} HexInjective(m: nat, n: nat, k: nat)
    requires m < Power16(k) && n < Power16(k)
    requires Hex(m, k) == Hex(n, k)
    ensures m == n
  {
    if k > 0 {
      var a, b := Hex(m / 16, k - 1), Hex(n / 16, k - 1);
      assert a == Hex(m, k)[..k - 1] && b == Hex(n, k)[..k - 1];
      assert HEX_DIGITS[m % 16] == Hex(m, k)[k - 1] && HEX_DIGITS[n % 16] == Hex(n, k)[k - 1];
      assert forall i, j :: 0 <= i < j < 16 ==> HEX_DIGITS[i] != HEX_DIGITS[j];
      HexInjective(m / 16, n / 16, k - 1);
    }
  }

  lemma UuidFitsThirtyTwoDigits()
    ensures Power16(32) == UUID_LIMIT
  {
    assert Power16(4) == 0x1_0000;
    assert Power16(8) == 0x1_0000_0000;
    assert Power16(12) == 0x1_0000_0000_0000;
    assert Power16(16) == 0x1_0000_0000_0000_0000;
    assert Power16(20) == 0x1_0000_0000_0000_0000_0000;
    assert Power16(24) == 0x1_0000_0000_0000_0000_0000_0000;
    assert Power16(28) == 0x1_0000_0000_0000_0000_0000_0000_0000;
  }

  /** Eight, four, four, four and twelve hexadecimal digits. */
  function UuidText(id: Uuid): (s: string)
    ensures |s| == 36
  {
    var h := Hex(id, 32);
    h[..8] + "-" + h[8..12] + "-" + h[12..16] + "-" + h[16..20] + "-" + h[20..]
  }

  lemma UuidTextInjective(a: Uuid, b: Uuid)
    requires IsUuid(a) && IsUuid(b)
    requires UuidText(a) == UuidText(b)
    ensures a == b
  {
    var s, g, h := UuidText(a), Hex(a, 32), Hex(b, 32);
    assert s[..8] == g[..8] == h[..8];
    assert s[9..13] == g[8..12] == h[8..12];
    assert s[14..18] == g[12..16] == h[12..16];
    assert s[19..23] == g[16..20] == h[16..20];
    assert s[24..] == g[20..] == h[20..];
    assert g == g[..8] + g[8..12] + g[12..16] + g[16..20] + g[20..];
    assert h == h[..8] + h[8..12] + h[12..16] + h[16..20] + h[20..];
    UuidFitsThirtyTwoDigits();
    HexInjective(a, b, 32);
  }

  function Decimal(n: nat): (s: string)
    ensures |s| > 0
    ensures ':' !in s
  {
    if n < 10 then ["0123456789"[n]] else Decimal(n / 10) + ["0123456789"[n % 10]]
  }

  lemma {:induction false} DecimalInjective(m: nat, n: nat)
    requires Decimal(m) == Decimal(n)
    ensures m == n
  {
    var s, t := Decimal(m), Decimal(n);
    assert forall i, j :: 0 <= i < j < 10 ==> "0123456789"[i] != "0123456789"[j];
    assert s[|s| - 1] == "0123456789"[m % 10] && t[|t| - 1] == "0123456789"[n % 10];
    assert m >= 10 ==> |s| == |Decimal(m / 10)| + 1;
    assert n >= 10 ==> |t| == |Decimal(n / 10)| + 1;
    if m >= 10 && n >= 10 {
      assert s[..|s| - 1] == Decimal(m / 10) && t[..|t| - 1] == Decimal(n / 10);
      DecimalInjective(m / 10, n / 10);
    }
  }

  function Utf8Width(c: char): nat {
    if c as int < 0x80 then 1
    else if c as int < 0x800 then 2
    else if c as int < 0x1_0000 then 3
    else 4
  }

  /** The number of bytes of a text in UTF-8. */
  function ByteLength(s: string): nat {
    if s == "" then 0 else Utf8Width(s[0]) + ByteLength(s[1..])
  }

  // ---------------------------------------------------------------------------
  // The hashed representation

  function LengthPrefixed(value: string): string {
    Decimal(ByteLength(value)) + ":" + value
  }

  /** `map(...).join('|')` over a non-empty list. */
  function Encode(values: seq<string>): string
    requires |values| > 0
  {
    if |values| == 1 then LengthPrefixed(values[0])
    else LengthPrefixed(values[0]) + "|" + Encode(values[1..])
  }

  function KindText(kind: Kind): string {
    match kind
    case CanonicalIdentityUrl => "canonical_identity_url"
    case NormalizedTitle => "normalized_title"
  }

  /** The order of the two kind names as strings. */
  predicate KindBefore(a: Kind, b: Kind) { a.CanonicalIdentityUrl? && b.NormalizedTitle? }

  function InsertByKind(x: Material, sorted: seq<Material>): seq<Material> {
    if sorted == [] || !KindBefore(sorted[0].kind, x.kind) then [x] + sorted
    else [sorted[0]] + InsertByKind(x, sorted[1..])
  }

  /** The stable sort by kind name. */
  function SortByKind(material: seq<Material>): seq<Material> {
    if material == [] then [] else InsertByKind(material[0], SortByKind(material[1..]))
  }

  function Flatten(material: seq<Material>): (values: seq<string>)
    ensures |values| == 2 * |material|
  {
    if material == [] then []
    else [KindText(material[0].kind), material[0].value] + Flatten(material[1..])
  }

  function Representation(pair: Pair, material: seq<Material>): seq<string> {
    ["duplicate-evidence-v1", UuidText(pair.low), UuidText(pair.high)] + Flatten(SortByKind(material))
  }

  function Fingerprint(pair: Pair, material: seq<Material>): string {
    Encode(Representation(pair, material))
  }

  // ---------------------------------------------------------------------------
  // Evaluation

  function MatchingMaterial(first: Article, second: Article): seq<Material> {
    (if first.canonicalIdentityUrl == second.canonicalIdentityUrl
     then [Material(CanonicalIdentityUrl, first.canonicalIdentityUrl)] else []) +
    (if |first.normalizedTitle| > 0 && first.normalizedTitle == second.normalizedTitle
     then [Material(NormalizedTitle, first.normalizedTitle)] else [])
  }

  function SignalOf(material: Material): Signal {
    Signal(material.kind, if material.kind.CanonicalIdentityUrl? then Strong else Weak)
  }

  function SignalsOf(material: seq<Material>): (signals: seq<Signal>)
    ensures |signals| == |material|
  {
    if material == [] then [] else [SignalOf(material[0])] + SignalsOf(material[1..])
  }

  predicate SomeStrong(signals: seq<Signal>) {
    signals != [] && (signals[0].strength == Strong || SomeStrong(signals[1..]))
  }

  /** Absent when the Articles share a Source or match on nothing. */
  function EvaluateDuplicateEvidence(first: Article, second: Article): (evidence: Option<DuplicateEvidence>)
    requires first.id != second.id
    ensures evidence.Some? ==> evidence.value.pair == CanonicalPair(first.id, second.id)
  {
    var pair := CanonicalPair(first.id, second.id);
    if first.sourceId == second.sourceId then None
    else
      var material := MatchingMaterial(first, second);
      var signals := SignalsOf(material);
      if |signals| == 0 then None
      else
        var strength := if SomeStrong(signals) then Strong else Weak;
        Some(DuplicateEvidence(pair, signals, strength,
                               if strength == Strong then 100 else 50,
                               Fingerprint(pair, material)))
  }

  // ---------------------------------------------------------------------------
  // Properties

  /** Everything up to the first separator is determined by the text. */
  lemma PrefixBeforeColon(a: string, b: string, x: string, y: string)
    requires ':' !in a && ':' !in b
    requires a + ":" + x == b + ":" + y
    ensures a == b && x == y
  {
    var s := a + ":" + x;
    assert s[|a|] == ':' && s[|b|] == ':';
    assert forall k :: 0 <= k < |a| ==> s[k] == a[k];
    assert forall k :: 0 <= k < |b| ==> s[k] == b[k];
    assert |a| == |b|;
    assert a == s[..|a|] && b == s[..|b|];
    assert x == s[|a| + 1..] && y == s[|b| + 1..];
  }

  /** Two texts that fill the same number of bytes of a common text are equal. */
  lemma {:induction false} SameByteLengthPrefix(a: string, b: string, x: string, y: string)
    requires a + x == b + y
    requires ByteLength(a) == ByteLength(b)
    ensures a == b && x == y
  {
    if a == "" || b == "" {
      assert a == "" && b == "";
      assert a + x == x && b + y == y;
    } else {
      var s := a + x;
      assert s[0] == a[0] == b[0];
      assert s[1..] == a[1..] + x == b[1..] + y;
      SameByteLengthPrefix(a[1..], b[1..], x, y);
      assert a == [a[0]] + a[1..] && b == [b[0]] + b[1..];
    }
  }

  lemma LengthPrefixedSplits(a: string, b: string, x: string, y: string)
    requires LengthPrefixed(a) + x == LengthPrefixed(b) + y
    ensures a == b && x == y
  {
    var m, n := Decimal(ByteLength(a)), Decimal(ByteLength(b));
    assert LengthPrefixed(a) + x == m + ":" + (a + x);
    assert LengthPrefixed(b) + y == n + ":" + (b + y);
    PrefixBeforeColon(m, n, a + x, b + y);
    DecimalInjective(ByteLength(a), ByteLength(b));
    SameByteLengthPrefix(a, b, x, y);
  }

  function EncodedRest(values: seq<string>): string
    requires |values| > 0
  {
    if |values| == 1 then "" else "|" + Encode(values[1..])
  }

  lemma EncodeSplits(values: seq<string>)
    requires |values| > 0
    ensures Encode(values) == LengthPrefixed(values[0]) + EncodedRest(values)
  {
  }

  lemma EncodedRestInjective(u: seq<string>, v: seq<string>)
    requires |u| > 0 && |v| > 0 && EncodedRest(u) == EncodedRest(v)
    ensures |u| == 1 <==> |v| == 1
    ensures |u| > 1 ==> Encode(u[1..]) == Encode(v[1..])
  {
    if |u| > 1 && |v| > 1 {
      assert EncodedRest(u)[1..] == Encode(u[1..]) && EncodedRest(v)[1..] == Encode(v[1..]);
    }
  }

  /** The joined text names one list of values, whatever the values contain. */
  lemma {:induction false} EncodeInjective(u: seq<string>, v: seq<string>)
    requires |u| > 0 && |v| > 0
    requires Encode(u) == Encode(v)
    ensures u == v
  {
    EncodeSplits(u);
    EncodeSplits(v);
    LengthPrefixedSplits(u[0], v[0], EncodedRest(u), EncodedRest(v));
    EncodedRestInjective(u, v);
    if |u| > 1 {
      EncodeInjective(u[1..], v[1..]);
    }
    assert u == [u[0]] + u[1..] && v == [v[0]] + v[1..];
  }

  lemma {:induction false} FlattenInjective(m: seq<Material>, n: seq<Material>)
    requires Flatten(m) == Flatten(n)
    ensures m == n
  {
    if m != [] && n != [] {
      var f, g := Flatten(m), Flatten(n);
      assert f[0] == KindText(m[0].kind) && g[0] == KindText(n[0].kind);
      assert f[1] == m[0].value && g[1] == n[0].value;
      assert |KindText(CanonicalIdentityUrl)| != |KindText(NormalizedTitle)|;
      assert f[2..] == Flatten(m[1..]) && g[2..] == Flatten(n[1..]);
      FlattenInjective(m[1..], n[1..]);
      assert m == [m[0]] + m[1..] && n == [n[0]] + n[1..];
    }
  }

  lemma RepresentationDetermines(p: Pair, m: seq<Material>, q: Pair, n: seq<Material>)
    requires PairOfUuids(p) && PairOfUuids(q)
    requires Representation(p, m) == Representation(q, n)
    ensures p == q && SortByKind(m) == SortByKind(n)
  {
    var u, v := Representation(p, m), Representation(q, n);
    var f, g := Flatten(SortByKind(m)), Flatten(SortByKind(n));
    assert u[1..] == [UuidText(p.low), UuidText(p.high)] + f;
    assert v[1..] == [UuidText(q.low), UuidText(q.high)] + g;
    RepresentationInjective(p, SortByKind(m), q, SortByKind(n));
  }

  /** Equal fingerprints mean the same pair and the same sorted material, and conversely. */
  lemma FingerprintInjective(p: Pair, m: seq<Material>, q: Pair, n: seq<Material>)
    requires PairOfUuids(p) && PairOfUuids(q)
    ensures Fingerprint(p, m) == Fingerprint(q, n) <==> p == q && SortByKind(m) == SortByKind(n)
  {
    if Fingerprint(p, m) == Fingerprint(q, n) {
      EncodeInjective(Representation(p, m), Representation(q, n));
      RepresentationDetermines(p, m, q, n);
    }
  }

  lemma RepresentationInjective(p: Pair, m: seq<Material>, q: Pair, n: seq<Material>)
    requires PairOfUuids(p) && PairOfUuids(q)
    requires [UuidText(p.low), UuidText(p.high)] + Flatten(m) == [UuidText(q.low), UuidText(q.high)] + Flatten(n)
    ensures p == q && m == n
  {
    var u, v := [UuidText(p.low), UuidText(p.high)] + Flatten(m), [UuidText(q.low), UuidText(q.high)] + Flatten(n);
    assert u[0] == v[0] && u[1] == v[1];
    UuidTextInjective(p.low, q.low);
    UuidTextInjective(p.high, q.high);
    assert u[2..] == Flatten(m) && v[2..] == Flatten(n);
    FlattenInjective(m, n);
  }

  /** The evidence does not depend on which Article is named first. */
  lemma EvidenceSymmetric(first: Article, second: Article)
    requires first.id != second.id
    ensures EvaluateDuplicateEvidence(first, second) == EvaluateDuplicateEvidence(second, first)
  {
    assert MatchingMaterial(first, second) == MatchingMaterial(second, first);
  }

  /** Evidence needs two Sources and an equal identity URL, which is strong, or an equal title, which is weak. */
  lemma EvidenceShows(first: Article, second: Article)
    requires first.id != second.id
    ensures var evidence := EvaluateDuplicateEvidence(first, second);
            var sameUrl := first.canonicalIdentityUrl == second.canonicalIdentityUrl;
            var sameTitle := first.normalizedTitle != "" && first.normalizedTitle == second.normalizedTitle;
            && (evidence.Some? <==> first.sourceId != second.sourceId && (sameUrl || sameTitle))
            && (evidence.Some? ==>
                  && evidence.value.strength == (if sameUrl then Strong else Weak)
                  && evidence.value.confidence == (if sameUrl then 100 else 50)
                  && evidence.value.signals == (if sameUrl then [Signal(CanonicalIdentityUrl, Strong)] else []) +
                                               (if sameTitle then [Signal(NormalizedTitle, Weak)] else []))
  {
    if first.sourceId != second.sourceId {
      SignalsShow(first, second, MatchingMaterial(first, second));
    }
  }

  lemma SignalsShow(first: Article, second: Article, material: seq<Material>)
    requires material == MatchingMaterial(first, second)
    ensures var sameUrl := first.canonicalIdentityUrl == second.canonicalIdentityUrl;
            var sameTitle := first.normalizedTitle != "" && first.normalizedTitle == second.normalizedTitle;
            && SignalsOf(material) == (if sameUrl then [Signal(CanonicalIdentityUrl, Strong)] else []) +
                                      (if sameTitle then [Signal(NormalizedTitle, Weak)] else [])
            && (SomeStrong(SignalsOf(material)) <==> sameUrl)
  {
    if |material| == 2 {
      assert material[1..] == [material[1]];
    }
    var signals := SignalsOf(material);
    if |signals| > 0 {
      assert signals[0] == SignalOf(material[0]);
      assert signals[1..] == SignalsOf(material[1..]);
    }
  }

  lemma MatchingMaterialSorted(first: Article, second: Article)
    ensures SortByKind(MatchingMaterial(first, second)) == MatchingMaterial(first, second)
  {
    var m := MatchingMaterial(first, second);
    if |m| == 1 {
      assert m[1..] == [];
      assert InsertByKind(m[0], []) == m;
    } else if |m| == 2 {
      assert m[1..][1..] == [];
      assert InsertByKind(m[1], []) == [m[1]];
      assert SortByKind(m[1..]) == [m[1]];
      assert InsertByKind(m[0], [m[1]]) == [m[0], m[1]];
    }
  }

  /**
    A stored fingerprint equals a newly computed one exactly when both came from the same
    pair matching on the same URL and the same title; confidence and signals then agree too.
   */
  lemma UnchangedExactlyWhenSameEvidence(a: Article, b: Article, c: Article, d: Article)
    requires a.id != b.id && c.id != d.id
    requires IsUuid(a.id) && IsUuid(b.id) && IsUuid(c.id) && IsUuid(d.id)
    requires EvaluateDuplicateEvidence(a, b).Some? && EvaluateDuplicateEvidence(c, d).Some?
    ensures var e, f := EvaluateDuplicateEvidence(a, b).value, EvaluateDuplicateEvidence(c, d).value;
            && (e.fingerprint == f.fingerprint <==>
                CanonicalPair(a.id, b.id) == CanonicalPair(c.id, d.id) &&
                MatchingMaterial(a, b) == MatchingMaterial(c, d))
            && (e.fingerprint == f.fingerprint ==> e == f)
  {
    MatchingMaterialSorted(a, b);
    MatchingMaterialSorted(c, d);
    FingerprintInjective(CanonicalPair(a.id, b.id), MatchingMaterial(a, b),
                         CanonicalPair(c.id, d.id), MatchingMaterial(c, d));
  }
}
