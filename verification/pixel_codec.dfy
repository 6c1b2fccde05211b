/**
 * `makePixel` and `createPixel`: fold a property record into four channel integers by
 * adding `value << (start - 1)` into the channel of the property's field. Nothing masks
 * the value, so a value wider than its field carries into the bits above it.
 */
module PixelCodec {
  import opened Wrappers
  import opened Bits
  import opened Text
  import opened PixelSpec

  /** One `[key, value]` pair of `Object.entries(p)`; a boolean property is 0 or 1. */
  type Entry = (string, nat)

  /** The four channel values of a pixel, in r, g, b, a order. */
  type Pixel = p: seq<nat> | |p| == 4 witness [0, 0, 0, 0]

  /**
   * The shift count JavaScript uses for `v << (start - 1)`: `start - 1` converted to a
   * 32-bit unsigned integer (NaN becomes 0) and reduced modulo 32.
   */
  function ShiftCount(start: JsNumber): (r: nat)
    ensures r < 32
    ensures start.Num? && 1 <= start.value <= 32 ==> r == start.value - 1
  {
    match start
    case NaN => 0
    case Num(s) => (s - 1) % 32
  }

  /** `v << (start - 1)`, without the 32-bit wrap of the shifted value. */
  function Shifted(v: nat, start: JsNumber): nat
  {
    v * Pow2(ShiftCount(start))
  }

  /** The property's field lives in channel `c`. */
  predicate Relevant(e: Entry, spec: PixelSpecification, c: int) {
    e.0 in spec && spec[e.0].channel == c
  }

  /** What one property adds to channel `c`. */
  function Contribution(e: Entry, spec: PixelSpecification, c: int): nat
  {
    if Relevant(e, spec, c) then Shifted(e.1, spec[e.0].start) else 0
  }

  /** Channel `c` of the encoding: the sum of every property's contribution to it. */
  function ChannelSum(entries: seq<Entry>, spec: PixelSpecification, c: int): nat
  {
    if |entries| == 0 then 0
    else ChannelSum(entries[..|entries| - 1], spec, c) + Contribution(entries[|entries| - 1], spec, c)
  }

  /** The pixel the properties encode to, channel by channel. */
  function Encode(entries: seq<Entry>, spec: PixelSpecification): Pixel
  {
    [ChannelSum(entries, spec, 0), ChannelSum(entries, spec, 1),
     ChannelSum(entries, spec, 2), ChannelSum(entries, spec, 3)]
  }

  lemma EncodeChannel(entries: seq<Entry>, spec: PixelSpecification, c: int)
    requires 0 <= c < 4
    ensures Encode(entries, spec)[c] == ChannelSum(entries, spec, c)
  {
  }

  /**
   * `makePixel(p, spec)`: start from [0, 0, 0, 0] and, for each property in listing order
   * whose name has an entry with a colour channel, add the shifted value to that channel.
   */
  method MakePixel(entries: seq<Entry>, spec: PixelSpecification) returns (out: Pixel)
    ensures forall c :: 0 <= c < 4 ==> out[c] == ChannelSum(entries, spec, c)
  {
    out := [0, 0, 0, 0];
    for i := 0 to |entries|
      invariant forall c :: 0 <= c < 4 ==> out[c] == ChannelSum(entries[..i], spec, c)
    {
      var (k, v) := entries[i];
      assert entries[..i + 1][..i] == entries[..i];
      if k in spec {
        var entry := spec[k];
        if 0 <= entry.channel < 4 {
          out := out[entry.channel := out[entry.channel] + Shifted(v, entry.start)];
        }
      }
    }
    assert entries[..|entries|] == entries;
  }

  /** `createPixel(p)`: `makePixel` with the specification read from the shared shader text. */
  method CreatePixel(shaderText: string, entries: seq<Entry>) returns (r: Result<Pixel, SpecError>)
    ensures r.Err? <==> GetPixelSpec(shaderText).Err?
    ensures r == Err(MissingBlock) <==> !HasBlock(shaderText)
    ensures r.Ok? ==> forall c :: 0 <= c < 4 ==> r.value[c] == ChannelSum(entries, GetPixelSpec(shaderText).value, c)
  {
    var spec := GetPixelSpec(shaderText);
    match spec {
      case Err(e) =>
        r := Err(e);
      case Ok(s) =>
        var pixel := MakePixel(entries, s);
        r := Ok(pixel);
    }
  }

  /**
   * One more property: if its name has no entry (or no colour channel) every channel stays
   * as it was; otherwise exactly its own channel grows by the shifted value.
   */
  lemma EncodeAppend(entries: seq<Entry>, e: Entry, spec: PixelSpecification)
    ensures e.0 !in spec || !(0 <= spec[e.0].channel < 4) ==> Encode(entries + [e], spec) == Encode(entries, spec)
    ensures e.0 in spec && 0 <= spec[e.0].channel < 4 ==>
      var ch := spec[e.0].channel;
      && Encode(entries + [e], spec)[ch] == Encode(entries, spec)[ch] + Shifted(e.1, spec[e.0].start)
      && forall c :: 0 <= c < 4 && c != ch ==> Encode(entries + [e], spec)[c] == Encode(entries, spec)[c]
  {
    assert (entries + [e])[..|entries|] == entries;
    if e.0 in spec && 0 <= spec[e.0].channel < 4 {
      EncodeChannel(entries + [e], spec, spec[e.0].channel);
      EncodeChannel(entries, spec, spec[e.0].channel);
    }
  }

  lemma {:induction false} ChannelSumConcat(a: seq<Entry>, b: seq<Entry>, spec: PixelSpecification, c: int)
    ensures ChannelSum(a + b, spec, c) == ChannelSum(a, spec, c) + ChannelSum(b, spec, c)
    decreases |b|
  {
    if |b| == 0 {
      assert a + b == a;
    } else {
      ChannelSumConcat(a, b[..|b| - 1], spec, c);
      assert (a + b)[..|a + b| - 1] == a + b[..|b| - 1];
    }
  }

  /** Taking one property out of the listing takes exactly its contribution out of the sum. */
  lemma ChannelSumRemove(s: seq<Entry>, i: nat, spec: PixelSpecification, c: int)
    requires i < |s|
    ensures ChannelSum(s, spec, c) == ChannelSum(s[..i] + s[i + 1..], spec, c) + Contribution(s[i], spec, c)
  {
    assert s == s[..i] + [s[i]] + s[i + 1..];
    ChannelSumConcat(s[..i] + [s[i]], s[i + 1..], spec, c);
    ChannelSumConcat(s[..i], [s[i]], spec, c);
    ChannelSumConcat(s[..i], s[i + 1..], spec, c);
  }

  /** Taking out the j-th element removes one copy of it from the multiset. */
  lemma MultisetRemove(b: seq<Entry>, j: nat)
    requires j < |b|
    ensures multiset(b[..j] + b[j + 1..]) == multiset(b) - multiset{b[j]}
  {
    assert b == b[..j] + [b[j]] + b[j + 1..];
    assert multiset(b) == multiset(b[..j]) + multiset{b[j]} + multiset(b[j + 1..]);
  }

  /** A channel's value depends only on which properties are listed, not on their order. */
  lemma {:induction false} ChannelSumPermutation(a: seq<Entry>, b: seq<Entry>, spec: PixelSpecification, c: int)
    requires multiset(a) == multiset(b)
    ensures ChannelSum(a, spec, c) == ChannelSum(b, spec, c)
    decreases |a|
  {
    if |a| == 0 {
      assert |b| == |multiset(b)| == 0;
    } else {
      var x := a[|a| - 1];
      var a' := a[..|a| - 1];
      MultisetRemove(a, |a| - 1);
      assert a[..|a| - 1] + a[|a|..] == a';
      assert x in multiset(b);
      var j :| 0 <= j < |b| && b[j] == x;
      var b' := b[..j] + b[j + 1..];
      MultisetRemove(b, j);
      ChannelSumPermutation(a', b', spec, c);
      ChannelSumRemove(b, j, spec, c);
    }
  }

  /** The encoding does not depend on the order in which the properties are visited. */
  lemma EncodePermutation(a: seq<Entry>, b: seq<Entry>, spec: PixelSpecification)
    requires multiset(a) == multiset(b)
    ensures Encode(a, spec) == Encode(b, spec)
  {
    ChannelSumPermutation(a, b, spec, 0);
    ChannelSumPermutation(a, b, spec, 1);
    ChannelSumPermutation(a, b, spec, 2);
    ChannelSumPermutation(a, b, spec, 3);
  }

  /** No property name is listed twice. */
  predicate DistinctKeys(entries: seq<Entry>) {
    forall i, j :: 0 <= i < j < |entries| ==> entries[i].0 != entries[j].0
  }

  /** Two different positions of a listing without repeated names hold different names. */
  lemma DistinctAt(entries: seq<Entry>, i: nat, j: nat)
    requires DistinctKeys(entries) && i < |entries| && j < |entries| && i != j
    ensures entries[i].0 != entries[j].0
  {
    if i < j {
      assert entries[i].0 != entries[j].0;
    } else {
      assert entries[j].0 != entries[i].0;
    }
  }

  /** `entries` lists every property of `record` exactly once, as `Object.entries(record)` does. */
  predicate Lists(entries: seq<Entry>, record: map<string, nat>) {
    && DistinctKeys(entries)
    && (forall e :: e in entries ==> e.0 in record && record[e.0] == e.1)
    && (forall k :: k in record ==> (k, record[k]) in entries)
  }

  lemma {:induction false} DistinctMultiplicity(s: seq<Entry>)
    requires DistinctKeys(s)
    ensures forall x :: multiset(s)[x] == if x in s then 1 else 0
    decreases |s|
  {
    if |s| > 0 {
      var init := s[..|s| - 1];
      assert s == init + [s[|s| - 1]];
      assert DistinctKeys(init);
      DistinctMultiplicity(init);
      assert s[|s| - 1] !in init;
    }
  }

  /** Any two listings of the same record encode to the same pixel. */
  lemma EncodeRecord(a: seq<Entry>, b: seq<Entry>, record: map<string, nat>, spec: PixelSpecification)
    requires Lists(a, record) && Lists(b, record)
    ensures Encode(a, spec) == Encode(b, spec)
  {
    DistinctMultiplicity(a);
    DistinctMultiplicity(b);
    assert forall x :: x in a <==> x in b;
    assert forall x :: multiset(a)[x] == multiset(b)[x];
    assert multiset(a) == multiset(b);
    EncodePermutation(a, b, spec);
  }

  /** A field with a colour channel and a bit range 1 <= start <= end <= 32. */
  predicate WellFormed(f: PixelState) {
    0 <= f.channel < 4 && f.start.Num? && f.end.Num? && 1 <= f.start.value <= f.end.value <= 32
  }

  function Offset(f: PixelState): nat
    requires WellFormed(f)
  {
    f.start.value - 1
  }

  function Width(f: PixelState): nat
    requires WellFormed(f)
  {
    f.end.value - f.start.value + 1
  }

  /** Bits start-1 .. end-1 of `x`: the field `f` read back out of a channel value. */
  function FieldBits(x: nat, f: PixelState): nat
    requires WellFormed(f)
  {
    (x / Pow2(Offset(f))) % Pow2(Width(f))
  }

  /** Every field of channel `c` is well formed, and two different fields of it share no bit. */
  predicate DisjointChannel(spec: PixelSpecification, c: int) {
    && (forall k :: k in spec && spec[k].channel == c ==> WellFormed(spec[k]))
    && (forall k1, k2 :: k1 in spec && k2 in spec && k1 != k2 && spec[k1].channel == c && spec[k2].channel == c ==>
          spec[k1].end.value < spec[k2].start.value || spec[k2].end.value < spec[k1].start.value)
  }

  /** Every listed property whose field is in channel `c` has a value below 2^width. */
  predicate ValuesFit(entries: seq<Entry>, spec: PixelSpecification, c: int) {
    forall i :: 0 <= i < |entries| && Relevant(entries[i], spec, c) ==>
      WellFormed(spec[entries[i].0]) && entries[i].1 < Pow2(Width(spec[entries[i].0]))
  }

  /** Every listed field of channel `c` ends at or below bit `p` or starts above bit `q`. */
  predicate Banded(entries: seq<Entry>, spec: PixelSpecification, c: int, p: nat, q: nat) {
    forall i :: 0 <= i < |entries| && Relevant(entries[i], spec, c) ==>
      WellFormed(spec[entries[i].0]) && (spec[entries[i].0].end.value <= p || spec[entries[i].0].start.value > q)
  }

  /** (X + t) stays below L modulo Q when X's remainder is below B and t + B <= L <= Q. */
  lemma AddBelow(x: nat, t: nat, q: nat, b: nat, l: nat)
    requires q > 0 && x % q < b && t + b <= l <= q
    ensures (x + t) % q < l
  {
    DivModUnique(x + t, q, x / q, x % q + t);
  }

  /** A value that fits bits s..p, shifted to bit s-1, leaves room for everything below bit s-1. */
  lemma FieldValueBound(v: nat, s: nat, p: nat)
    requires 1 <= s <= p && v < Pow2(p - s + 1)
    ensures v * Pow2(s - 1) + Pow2(s - 1) <= Pow2(p)
  {
    Pow2Add(p - s + 1, s - 1);
    MulMonotone(v + 1, Pow2(p - s + 1), Pow2(s - 1));
  }

  /** Adding a value that fits bits s..p at bit s-1 to a remainder below bit s-1 stays below bit p. */
  lemma AddField(below: nat, v: nat, s: nat, p: nat, q: nat)
    requires 1 <= s <= p <= q && below % Pow2(q) < Pow2(s - 1) && v < Pow2(p - s + 1)
    ensures (below + v * Pow2(s - 1)) % Pow2(q) < Pow2(p)
  {
    FieldValueBound(v, s, p);
    Pow2Monotone(p, q);
    AddBelow(below, v * Pow2(s - 1), Pow2(q), Pow2(s - 1), Pow2(p));
  }

  /** Listing without its i-th element, index by index. */
  lemma RemoveIndex(s: seq<Entry>, i: nat, rest: seq<Entry>)
    requires i < |s| && rest == s[..i] + s[i + 1..]
    ensures |rest| == |s| - 1
    ensures forall k :: 0 <= k < i ==> rest[k] == s[k]
    ensures forall k :: i <= k < |rest| ==> rest[k] == s[k + 1]
  {
  }

  /** Adding a value shifted to bit s-1 >= q leaves the remainder modulo 2^q unchanged. */
  lemma AddAboveQ(x: nat, v: nat, s: nat, q: nat)
    requires 1 <= s && q <= s - 1
    ensures (x + v * Pow2(s - 1)) % Pow2(q) == x % Pow2(q)
  {
    Pow2Add(q, s - 1 - q);
    var m := v * Pow2(s - 1 - q);
    assert s - 1 == q + (s - 1 - q);
    MulRegroup(v, Pow2(q), Pow2(s - 1 - q));
    assert v * Pow2(s - 1) == m * Pow2(q);
    ModAddMultiple(x, m, Pow2(q));
  }

  /** Fields entirely above bit q contribute only multiples of 2^q. */
  lemma {:induction false} HighBitsVanish(entries: seq<Entry>, spec: PixelSpecification, c: int, q: nat)
    requires Banded(entries, spec, c, 0, q)
    ensures ChannelSum(entries, spec, c) % Pow2(q) == 0
    decreases |entries|
  {
    if |entries| > 0 {
      var init := entries[..|entries| - 1];
      var e := entries[|entries| - 1];
      BandedInit(entries, spec, c, 0, q);
      HighBitsVanish(init, spec, c, q);
      ContributionAbove(e, spec, c, q);
      ModSumZero(ChannelSum(init, spec, c), Contribution(e, spec, c), Pow2(q));
    } else {
      DivModUnique(0, Pow2(q), 0, 0);
    }
  }

  lemma BandedInit(entries: seq<Entry>, spec: PixelSpecification, c: int, p: nat, q: nat)
    requires |entries| > 0 && Banded(entries, spec, c, p, q)
    ensures Banded(entries[..|entries| - 1], spec, c, p, q)
  {
    var init := entries[..|entries| - 1];
    assert forall k :: 0 <= k < |init| ==> init[k] == entries[k];
  }

  /** A field starting above bit q contributes a multiple of 2^q. */
  lemma ContributionAbove(e: Entry, spec: PixelSpecification, c: int, q: nat)
    requires Relevant(e, spec, c) ==> WellFormed(spec[e.0]) && spec[e.0].start.value > q
    ensures Contribution(e, spec, c) % Pow2(q) == 0
  {
    if Relevant(e, spec, c) {
      var s := spec[e.0].start.value;
      ContributionValue(e, spec, c);
      MultipleAbove(e.1, s, q);
    } else {
      DivModUnique(0, Pow2(q), 0, 0);
    }
  }

  /** What a property of a well-formed field adds to its channel. */
  lemma ContributionValue(e: Entry, spec: PixelSpecification, c: int)
    requires Relevant(e, spec, c) && WellFormed(spec[e.0])
    ensures Contribution(e, spec, c) == e.1 * Pow2(spec[e.0].start.value - 1)
  {
    assert ShiftCount(spec[e.0].start) == spec[e.0].start.value - 1;
  }

  /** A value shifted to bit s-1 >= q is a multiple of 2^q. */
  lemma MultipleAbove(v: nat, s: nat, q: nat)
    requires 1 <= s && q <= s - 1
    ensures (v * Pow2(s - 1)) % Pow2(q) == 0
  {
    AddAboveQ(0, v, s, q);
    DivModUnique(0, Pow2(q), 0, 0);
  }

  lemma ModSumZero(a: nat, b: nat, d: nat)
    requires d > 0 && a % d == 0 && b % d == 0
    ensures (a + b) % d == 0
  {
    DivModUnique(a + b, d, a / d + b / d, 0);
  }

  /**
   * Taking out a field i that ends at bit p of a banded listing leaves a listing whose
   * fields all end below its start (or start above q), still distinct and fitting.
   */
  lemma RemoveField(entries: seq<Entry>, spec: PixelSpecification, c: int, i: nat, q: nat)
    requires i < |entries| && Relevant(entries[i], spec, c)
    requires DistinctKeys(entries) && DisjointChannel(spec, c) && ValuesFit(entries, spec, c)
    requires WellFormed(spec[entries[i].0]) && spec[entries[i].0].end.value <= q
    requires Banded(entries, spec, c, spec[entries[i].0].end.value, q)
    ensures var rest := entries[..i] + entries[i + 1..];
      && DistinctKeys(rest) && ValuesFit(rest, spec, c)
      && Banded(rest, spec, c, spec[entries[i].0].start.value - 1, q)
  {
    var rest := entries[..i] + entries[i + 1..];
    var s := spec[entries[i].0].start.value;
    RemoveIndex(entries, i, rest);
    forall k | 0 <= k < |rest| && Relevant(rest[k], spec, c)
      ensures WellFormed(spec[rest[k].0]) && (spec[rest[k].0].end.value <= s - 1 || spec[rest[k].0].start.value > q)
    {
      var m := if k < i then k else k + 1;
      assert rest[k] == entries[m] && entries[m].0 != entries[i].0;
    }
    forall k1, k2 | 0 <= k1 < k2 < |rest|
      ensures rest[k1].0 != rest[k2].0
    {
      var m1 := if k1 < i then k1 else k1 + 1;
      var m2 := if k2 < i then k2 else k2 + 1;
      assert rest[k1] == entries[m1] && rest[k2] == entries[m2];
    }
    forall k | 0 <= k < |rest| && Relevant(rest[k], spec, c)
      ensures WellFormed(spec[rest[k].0]) && rest[k].1 < Pow2(Width(spec[rest[k].0]))
    {
      var m := if k < i then k else k + 1;
      assert rest[k] == entries[m];
    }
  }

  /**
   * With disjoint fields whose values fit, the fields ending at or below bit p add up to less
   * than 2^p, even once the fields above bit q are added and the sum is reduced modulo 2^q.
   */
  lemma {:induction false} LowBits(entries: seq<Entry>, spec: PixelSpecification, c: int, p: nat, q: nat)
    requires p <= q
    requires DistinctKeys(entries) && DisjointChannel(spec, c) && ValuesFit(entries, spec, c)
    requires Banded(entries, spec, c, p, q)
    ensures ChannelSum(entries, spec, c) % Pow2(q) < Pow2(p)
    decreases p
  {
    if i :| 0 <= i < |entries| && Relevant(entries[i], spec, c) && spec[entries[i].0].end.value == p {
      var rest := entries[..i] + entries[i + 1..];
      RemoveField(entries, spec, c, i, q);
      LowBits(rest, spec, c, spec[entries[i].0].start.value - 1, q);
      LowBitsCombine(entries, spec, c, i, p, q);
    } else if p == 0 {
      HighBitsVanish(entries, spec, c, q);
    } else {
      BandedLower(entries, spec, c, p, q);
      LowBits(entries, spec, c, p - 1, q);
      Pow2Monotone(p - 1, p);
    }
  }

  /** With no field ending exactly at bit p, every field ending at or below p ends below it. */
  lemma BandedLower(entries: seq<Entry>, spec: PixelSpecification, c: int, p: nat, q: nat)
    requires p > 0 && Banded(entries, spec, c, p, q)
    requires forall i :: 0 <= i < |entries| && Relevant(entries[i], spec, c) ==> spec[entries[i].0].end.value != p
    ensures Banded(entries, spec, c, p - 1, q)
  {
  }

  /** The field ending at bit p, added to the rest that stays below its start, stays below bit p. */
  lemma LowBitsCombine(entries: seq<Entry>, spec: PixelSpecification, c: int, i: nat, p: nat, q: nat)
    requires i < |entries| && Relevant(entries[i], spec, c) && p <= q
    requires WellFormed(spec[entries[i].0]) && spec[entries[i].0].end.value == p
    requires entries[i].1 < Pow2(Width(spec[entries[i].0]))
    requires ChannelSum(entries[..i] + entries[i + 1..], spec, c) % Pow2(q) < Pow2(spec[entries[i].0].start.value - 1)
    ensures ChannelSum(entries, spec, c) % Pow2(q) < Pow2(p)
  {
    var s := spec[entries[i].0].start.value;
    var v := entries[i].1;
    ChannelSumRemove(entries, i, spec, c);
    assert Contribution(entries[i], spec, c) == v * Pow2(s - 1);
    AddField(ChannelSum(entries[..i] + entries[i + 1..], spec, c), v, s, p, q);
  }

  /** Bits of v placed above a remainder below P read back as v. */
  lemma ExtractArith(r: nat, v: nat, p: nat, w: nat)
    requires p > 0 && w > 0 && r % (p * w) < p && v < w
    ensures ((r + v * p) / p) % w == v
  {
    var a := r / (p * w);
    var r0 := r % (p * w);
    assert r == a * (p * w) + r0;
    assert r + v * p == (a * w + v) * p + r0;
    DivModUnique(r + v * p, p, a * w + v, r0);
    DivModUnique(a * w + v, w, a, v);
  }

  /**
   * Field extraction: when the fields of a channel share no bit and every value fits its
   * field, bits start-1 .. end-1 of the channel are exactly the property's value.
   */
  lemma FieldExtraction(entries: seq<Entry>, spec: PixelSpecification, t: nat)
    requires t < |entries| && entries[t].0 in spec
    requires DistinctKeys(entries)
    requires DisjointChannel(spec, spec[entries[t].0].channel)
    requires ValuesFit(entries, spec, spec[entries[t].0].channel)
    ensures WellFormed(spec[entries[t].0])
    ensures FieldBits(Encode(entries, spec)[spec[entries[t].0].channel], spec[entries[t].0]) == entries[t].1
  {
    var f := spec[entries[t].0];
    var c := f.channel;
    var s, e, v := f.start.value, f.end.value, entries[t].1;
    var rest := entries[..t] + entries[t + 1..];
    DisjointBanded(entries, spec, t);
    RemoveField(entries, spec, c, t, e);
    LowBits(rest, spec, c, s - 1, e);
    ChannelSumRemove(entries, t, spec, c);
    assert Contribution(entries[t], spec, c) == v * Pow2(s - 1);
    EncodeChannel(entries, spec, c);
    assert v < Pow2(Width(f));
    ExtractField(ChannelSum(entries, spec, c), ChannelSum(rest, spec, c), v, s, e);
  }

  /** A value placed at bit s-1 above a remainder that stays below bit s-1 reads back out of bits s-1..e-1. */
  lemma ExtractField(x: nat, below: nat, v: nat, s: nat, e: nat)
    requires 1 <= s <= e && x == below + v * Pow2(s - 1)
    requires below % Pow2(e) < Pow2(s - 1) && v < Pow2(e - s + 1)
    ensures (x / Pow2(s - 1)) % Pow2(e - s + 1) == v
  {
    Pow2Add(s - 1, e - s + 1);
    ExtractArith(below, v, Pow2(s - 1), Pow2(e - s + 1));
  }

  /** In a channel of disjoint fields, every other field ends below or starts above a given one. */
  lemma DisjointBanded(entries: seq<Entry>, spec: PixelSpecification, t: nat)
    requires t < |entries| && entries[t].0 in spec
    requires DistinctKeys(entries) && DisjointChannel(spec, spec[entries[t].0].channel)
    ensures Banded(entries, spec, spec[entries[t].0].channel, spec[entries[t].0].end.value, spec[entries[t].0].end.value)
  {
    var c, e := spec[entries[t].0].channel, spec[entries[t].0].end.value;
    forall k | 0 <= k < |entries| && Relevant(entries[k], spec, c)
      ensures WellFormed(spec[entries[k].0]) && (spec[entries[k].0].end.value <= e || spec[entries[k].0].start.value > e)
    {
      if k != t {
        DistinctAt(entries, k, t);
      }
    }
  }

  /** Dividing v * p by p * w is dividing v by w. */
  lemma DivScaled(v: nat, p: nat, w: nat)
    requires p > 0 && w > 0
    ensures (v * p) / (p * w) == v / w
  {
    var a, b := v / w, v % w;
    assert v == a * w + b;
    assert v * p == a * (p * w) + b * p;
    MulMonotone(b + 1, w, p);
    DivModUnique(v * p, p * w, a, b * p);
  }

  /**
   * No masking: a lone value too wide for its field keeps only its low bits inside the
   * field, and the rest of it lands in the bits above the field.
   */
  lemma OversizedValueSpills(k: string, v: nat, spec: PixelSpecification)
    requires k in spec && WellFormed(spec[k])
    ensures FieldBits(Encode([(k, v)], spec)[spec[k].channel], spec[k]) == v % Pow2(Width(spec[k]))
    ensures Encode([(k, v)], spec)[spec[k].channel] / Pow2(spec[k].end.value) == v / Pow2(Width(spec[k]))
  {
    var f := spec[k];
    var p, w := Pow2(Offset(f)), Pow2(Width(f));
    EncodeChannel([(k, v)], spec, f.channel);
    assert ChannelSum([(k, v)], spec, f.channel) == v * p by {
      assert [(k, v)][..0] == [];
    }
    DivModUnique(v * p, p, v, 0);
    Pow2Add(Offset(f), Width(f));
    DivScaled(v, p, w);
  }

  /** An oversized value corrupts its neighbour: 4 in a two-bit field reads back as 1 in the next field. */
  lemma OverflowCorruptsNeighbour()
    ensures var spec := map["low" := PixelState(0, Num(1), Num(2)), "high" := PixelState(0, Num(3), Num(4))];
            FieldBits(Encode([("low", 4), ("high", 0)], spec)[0], spec["high"]) == 1
  {
    var spec := map["low" := PixelState(0, Num(1), Num(2)), "high" := PixelState(0, Num(3), Num(4))];
    var entries := [("low", 4), ("high", 0)];
    assert entries[..1] == [("low", 4)];
    assert Pow2(2) == 4;
    assert ChannelSum(entries, spec, 0) == 4;
  }
}
