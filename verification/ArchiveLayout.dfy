/** Records laid one after another, each second record knowing where its first one starts. */
module ArchiveLayout {

  type Bytes = seq<nat>

  function Concat(parts: seq<Bytes>): Bytes {
    if parts == [] then [] else Concat(parts[..|parts| - 1]) + parts[|parts| - 1]
  }

  function LocalRecords<T>(local: T -> Bytes, items: seq<T>): (r: seq<Bytes>)
    ensures |r| == |items|
  {
    if items == [] then [] else LocalRecords(local, items[..|items| - 1]) + [local(items[|items| - 1])]
  }

  function Locals<T>(local: T -> Bytes, items: seq<T>): Bytes { Concat(LocalRecords(local, items)) }

  /** Each central record points at the local record of its item. */
  function CentralRecords<T>(local: T -> Bytes, central: (T, nat) -> Bytes, items: seq<T>): (r: seq<Bytes>)
    ensures |r| == |items|
  {
    if items == [] then [] else
    var before := items[..|items| - 1];
    CentralRecords(local, central, before) + [central(items[|items| - 1], |Locals(local, before)|)]
  }

  function Centrals<T>(local: T -> Bytes, central: (T, nat) -> Bytes, items: seq<T>): Bytes {
    Concat(CentralRecords(local, central, items))
  }

  ghost predicate At(a: Bytes, at: nat, part: Bytes) {
    at + |part| <= |a| && a[at..at + |part|] == part
  }

  lemma AtAppend(a: Bytes, at: nat, part: Bytes, after: Bytes)
    requires At(a, at, part)
    ensures At(a + after, at, part)
  {
    assert (a + after)[at..at + |part|] == a[at..at + |part|];
  }

  lemma AtPrepend(before: Bytes, a: Bytes, at: nat, part: Bytes)
    requires At(a, at, part)
    ensures At(before + a, |before| + at, part)
  {
    assert (before + a)[|before| + at..|before| + at + |part|] == a[at..at + |part|];
  }

  lemma {:induction false} ConcatAt(parts: seq<Bytes>, i: nat)
    requires i < |parts|
    ensures At(Concat(parts), |Concat(parts[..i])|, parts[i])
    ensures Concat(parts[..i + 1]) == Concat(parts[..i]) + parts[i]
    decreases |parts|
  {
    var before := parts[..|parts| - 1];
    assert parts[..i + 1][..i] == parts[..i];
    if i < |before| {
      ConcatAt(before, i);
      assert before[..i] == parts[..i];
      AtAppend(Concat(before), |Concat(parts[..i])|, parts[i], parts[|parts| - 1]);
    }
  }

  lemma {:induction false} RecordsAt<T>(local: T -> Bytes, central: (T, nat) -> Bytes, items: seq<T>, i: nat)
    requires i < |items|
    ensures LocalRecords(local, items)[i] == local(items[i])
    ensures CentralRecords(local, central, items)[i] == central(items[i], |Locals(local, items[..i])|)
    decreases |items|
  {
    var before := items[..|items| - 1];
    if i < |before| {
      RecordsAt(local, central, before, i);
      assert before[..i] == items[..i];
    }
  }

  lemma {:induction false} RecordsPrefix<T>(local: T -> Bytes, central: (T, nat) -> Bytes, items: seq<T>, i: nat)
    requires i <= |items|
    ensures LocalRecords(local, items)[..i] == LocalRecords(local, items[..i])
    ensures CentralRecords(local, central, items)[..i] == CentralRecords(local, central, items[..i])
    decreases |items|
  {
    if i < |items| {
      var before := items[..|items| - 1];
      RecordsPrefix(local, central, before, i);
      assert before[..i] == items[..i];
      assert LocalRecords(local, items)[..i] == LocalRecords(local, before)[..i];
      assert CentralRecords(local, central, items)[..i] == CentralRecords(local, central, before)[..i];
    } else {
      assert items[..i] == items;
    }
  }

  lemma PlacedInArchive(locals: Bytes, centrals: Bytes, end: Bytes, at: nat, l: Bytes, k: nat, c: Bytes)
    requires At(locals, at, l) && At(centrals, k, c)
    ensures At(locals + centrals + end, at, l) && At(locals + centrals + end, |locals| + k, c)
  {
    AtAppend(locals, at, l, centrals);
    AtAppend(locals + centrals, at, l, end);
    AtPrepend(locals, centrals, k, c);
    AtAppend(locals + centrals, |locals| + k, c, end);
  }

  /** Item `i` has its local record at the running offset and its central record after those before it. */
  lemma Layout<T>(local: T -> Bytes, central: (T, nat) -> Bytes, items: seq<T>, end: Bytes, i: nat)
    requires i < |items|
    ensures var a := Locals(local, items) + Centrals(local, central, items) + end;
            var offset, k := |Locals(local, items[..i])|, |Centrals(local, central, items[..i])|;
            && At(a, offset, local(items[i]))
            && At(a, |Locals(local, items)| + k, central(items[i], offset))
            && |Centrals(local, central, items[..i + 1])| == k + |central(items[i], offset)|
            && |Locals(local, items[..i + 1])| == offset + |local(items[i])| <= |Locals(local, items)|
  {
    RecordsAt(local, central, items, i);
    RecordsPrefix(local, central, items, i);
    RecordsPrefix(local, central, items, i + 1);
    var locals, centrals := LocalRecords(local, items), CentralRecords(local, central, items);
    ConcatAt(locals, i);
    ConcatAt(centrals, i);
    PlacedInArchive(Concat(locals), Concat(centrals), end, |Concat(locals[..i])|, locals[i], |Concat(centrals[..i])|, centrals[i]);
  }

  // ---------------------------------------------------------------------------
  // Replacing one item by one whose records are as long

  /** `a` with `part` written over what was at `at`. */
  function Overwritten(a: Bytes, at: nat, part: Bytes): (r: Bytes)
    requires at + |part| <= |a|
    ensures |r| == |a|
  {
    a[..at] + part + a[at + |part|..]
  }

  lemma OverwriteAppend(a: Bytes, at: nat, part: Bytes, after: Bytes)
    requires at + |part| <= |a|
    ensures Overwritten(a + after, at, part) == Overwritten(a, at, part) + after
  {
  }

  lemma OverwriteInside(a: Bytes, at: nat, outer: Bytes, i: nat, part: Bytes)
    requires At(a, at, outer) && i + |part| <= |outer|
    ensures Overwritten(a, at, Overwritten(outer, i, part)) == Overwritten(a, at + i, part)
  {
    var x, y := Overwritten(a, at, Overwritten(outer, i, part)), Overwritten(a, at + i, part);
    forall k | 0 <= k < |a|
      ensures x[k] == y[k]
    {
      if at <= k < at + |outer| {
        assert a[at..at + |outer|][k - at] == a[k] == outer[k - at];
      }
    }
  }

  lemma {:induction false} ConcatReplaced(parts: seq<Bytes>, i: nat, q: Bytes)
    requires i < |parts| && |q| == |parts[i]|
    ensures |Concat(parts[..i])| + |q| <= |Concat(parts)|
    ensures Concat(parts[i := q]) == Overwritten(Concat(parts), |Concat(parts[..i])|, q)
    decreases |parts|
  {
    ConcatAt(parts, i);
    var before, last := parts[..|parts| - 1], parts[|parts| - 1];
    var changed := parts[i := q];
    if i < |before| {
      ConcatReplaced(before, i, q);
      assert before[..i] == parts[..i] && changed[..|parts| - 1] == before[i := q];
      OverwriteAppend(Concat(before), |Concat(parts[..i])|, q, last);
    } else {
      assert changed[..|parts| - 1] == before && parts[..i] == before;
      assert Overwritten(Concat(before) + last, |Concat(before)|, q) == Concat(before) + q;
    }
  }

  lemma {:induction false} LocalReplaced<T>(local: T -> Bytes, items: seq<T>, i: nat, x: T)
    requires i < |items|
    ensures LocalRecords(local, items[i := x]) == LocalRecords(local, items)[i := local(x)]
    decreases |items|
  {
    var before, changed := items[..|items| - 1], items[i := x];
    if i < |before| {
      LocalReplaced(local, before, i, x);
      assert changed[..|items| - 1] == before[i := x];
    } else {
      assert changed[..|items| - 1] == before;
    }
  }

  lemma {:induction false} DirectoryKept<T>(local: T -> Bytes, central: (T, nat) -> Bytes, items: seq<T>, i: nat, x: T)
    requires i < |items| && |local(x)| == |local(items[i])| && forall offset: nat :: central(x, offset) == central(items[i], offset)
    ensures |Locals(local, items[i := x])| == |Locals(local, items)|
    ensures CentralRecords(local, central, items[i := x]) == CentralRecords(local, central, items)
    decreases |items|
  {
    var before, changed := items[..|items| - 1], items[i := x];
    LocalReplaced(local, items, i, x);
    RecordsAt(local, central, items, i);
    ConcatReplaced(LocalRecords(local, items), i, local(x));
    if i < |before| {
      DirectoryKept(local, central, before, i, x);
      assert changed[..|items| - 1] == before[i := x];
    } else {
      assert changed[..|items| - 1] == before;
    }
  }

  /** `x` is recorded like `item`, but for `part` written into its local record. */
  ghost predicate Damages<T>(local: T -> Bytes, central: (T, nat) -> Bytes, item: T, x: T, k: nat, part: Bytes) {
    && k + |part| <= |local(item)| && local(x) == Overwritten(local(item), k, part)
    && forall offset: nat :: central(x, offset) == central(item, offset)
  }

  lemma PartOverwritten(parts: seq<Bytes>, i: nat, q: Bytes, k: nat, part: Bytes)
    requires i < |parts| && k + |part| <= |parts[i]| && q == Overwritten(parts[i], k, part)
    ensures |Concat(parts[..i])| + k + |part| <= |Concat(parts)|
    ensures Concat(parts[i := q]) == Overwritten(Concat(parts), |Concat(parts[..i])| + k, part)
  {
    ConcatReplaced(parts, i, q);
    ConcatAt(parts, i);
    OverwriteInside(Concat(parts), |Concat(parts[..i])|, parts[i], k, part);
  }

  lemma RecordOfPrefix<T>(local: T -> Bytes, items: seq<T>, i: nat)
    requires i < |items|
    ensures LocalRecords(local, items)[i] == local(items[i])
    ensures LocalRecords(local, items)[..i] == LocalRecords(local, items[..i])
  {
    RecordsAt(local, (x, offset) => [], items, i);
    RecordsPrefix(local, (x, offset) => [], items, i);
  }

  /** Overwriting inside one local record. */
  lemma OneRecordOverwritten<T>(local: T -> Bytes, items: seq<T>, i: nat, x: T, k: nat, part: Bytes, at: nat)
    requires i < |items| && k + |part| <= |local(items[i])| && local(x) == Overwritten(local(items[i]), k, part)
    requires at == |Locals(local, items[..i])| + k
    ensures at + |part| <= |Locals(local, items)|
    ensures Locals(local, items[i := x]) == Overwritten(Locals(local, items), at, part)
  {
    LocalReplaced(local, items, i, x);
    RecordOfPrefix(local, items, i);
    PartOverwritten(LocalRecords(local, items), i, local(x), k, part);
  }

  /** The directory does not notice. */
  lemma SameDirectory<T>(local: T -> Bytes, central: (T, nat) -> Bytes, items: seq<T>, i: nat, x: T, k: nat, part: Bytes)
    requires i < |items| && Damages(local, central, items[i], x, k, part)
    ensures Centrals(local, central, items[i := x]) == Centrals(local, central, items)
  {
    DirectoryKept(local, central, items, i, x);
  }
}
