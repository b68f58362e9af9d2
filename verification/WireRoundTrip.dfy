/**
 Messages come back from their bytes, and fields the reader does not know, groups within
 groups included, change nothing wherever they stand between fields.
 */
module WireRoundTrip {
  import opened WireModel

  // ---- Numbers ----

  lemma PowTable()
    ensures Pow128(0) == 1 && Pow128(1) == 0x80 && Pow128(2) == 0x4000 && Pow128(3) == 0x20_0000
    ensures Pow128(4) == 0x1000_0000 && Pow128(5) == 0x8_0000_0000 && Pow128(6) == 0x400_0000_0000
    ensures Pow128(7) == 0x2_0000_0000_0000 && Pow128(8) == 0x100_0000_0000_0000
    ensures Pow128(9) == 0x8000_0000_0000_0000 && Pow128(10) == 0x40_0000_0000_0000_0000
  {
  }

  /** Ten bytes hold every number of 64 bits. */
  lemma PastTen(v: nat, k: nat)
    requires k >= 10 && v > 0
    ensures v * Pow128(k) >= TwoTo64
    decreases k
  {
    if k == 10 { PowTable(); } else { PastTen(128 * v, k - 1); }
  }

  /** The low seven bits of a number and the rest of it, at the place of the k-th byte. */
  lemma Digit(v: nat, k: nat)
    requires v * Pow128(k) < TwoTo64 && (k > 0 ==> v > 0)
    ensures v * Pow128(k) == (v % 128) * Pow128(k) + (v / 128) * Pow128(k + 1)
    ensures 0 <= (v % 128) * Pow128(k) < TwoTo64 && (v / 128) * Pow128(k + 1) < TwoTo64 && k < 10
  {
    if k >= 10 { PastTen(v, k); assert false; }
    var p, q, r := Pow128(k), v / 128, v % 128;
    assert v == 128 * q + r;
    assert v * p == q * (128 * p) + r * p;
    assert r * p >= 0 && q * (128 * p) >= 0;
  }

  /** A number is read back from what is written for it, whatever follows. */
  lemma {:induction false} VarintReads(v: nat, rest: Bytes, k: nat, acc: nat)
    requires v * Pow128(k) < TwoTo64 && (k > 0 ==> v > 0)
    ensures Varint(VarintBytes(v) + rest, k, acc) == Ok((acc + v * Pow128(k), rest))
    decreases v
  {
    Digit(v, k);
    VarintStep(v, rest, k, acc);
    if v >= 128 {
      VarintReads(v / 128, rest, k + 1, acc + (v % 128) * Pow128(k));
    }
  }

  /** The first byte of a number. */
  lemma VarintStep(v: nat, rest: Bytes, k: nat, acc: nat)
    requires (v % 128) * Pow128(k) < TwoTo64 && k < 10
    ensures var acc' := acc + (v % 128) * Pow128(k);
            Varint(VarintBytes(v) + rest, k, acc) ==
              if v < 128 then Ok((acc', rest)) else Varint(VarintBytes(v / 128) + rest, k + 1, acc')
  {
    FirstByte(v, rest);
    SmallMod((v % 128) * Pow128(k));
  }

  lemma SmallMod(p: nat)
    requires p < TwoTo64
    ensures p % TwoTo64 == p
  {
  }

  lemma LowBits(q: nat)
    requires q < 128
    ensures q % 128 == q && (q + 128) % 128 == q
  {
  }

  lemma FirstByte(v: nat, rest: Bytes)
    ensures var text := VarintBytes(v) + rest;
            && text[0] % 128 == v % 128 && (text[0] < 128 <==> v < 128)
            && text[1..] == if v < 128 then rest else VarintBytes(v / 128) + rest
  {
    LowBits(v % 128);
    if v < 128 {
      assert ([v] + rest)[1..] == rest;
    } else {
      var head, tail := [v % 128 + 128], VarintBytes(v / 128);
      assert (head + tail + rest)[1..] == tail + rest;
    }
  }

  lemma NumberReads(v: nat, rest: Bytes)
    requires v < TwoTo64
    ensures Varint(VarintBytes(v) + rest, 0, 0) == Ok((v, rest))
  {
    VarintReads(v, rest, 0, 0);
  }

  /** A number of 64 bits takes ten bytes at most, so it can be skipped as well. */
  lemma {:induction false} DigitsSkip(v: nat, rest: Bytes, k: nat, i: nat)
    requires v * Pow128(k) < TwoTo64 && (k > 0 ==> v > 0)
    ensures SkipDigits(VarintBytes(v) + rest, k, i) == Ok(i + |VarintBytes(v)|)
    decreases v
  {
    Digit(v, k);
    if v >= 128 {
      assert (VarintBytes(v) + rest)[1..] == VarintBytes(v / 128) + rest;
      DigitsSkip(v / 128, rest, k + 1, i + 1);
    }
  }

  // ---- Fields nobody asked for ----

  const MaxField := 0x2000_0000

  /** A field of any of the wire types; a group holds fields, and so groups, of its own. */
  datatype Field =
    | Number(number: nat, v: nat)
    | Fixed64(number: nat, data: Bytes)
    | Length(number: nat, data: Bytes)
    | Group(number: nat, body: seq<Field>)
    | Fixed32(number: nat, data: Bytes)

  ghost predicate Legal(f: Field) {
    && 1 <= f.number < MaxField
    && match f
       case Number(_, v) => v < TwoTo64
       case Fixed64(_, data) => |data| == 8
       case Length(_, _) => true
       case Group(_, body) => forall f' <- body :: Legal(f')
       case Fixed32(_, data) => |data| == 4
  }

  function Wire(f: Field): (w: Bytes)
    ensures w != []
  {
    match f
    case Number(n, v) => Tag(n, 0) + VarintBytes(v)
    case Fixed64(n, data) => Tag(n, 1) + data
    case Length(n, data) => Delimited(n, data)
    case Group(n, body) => Tag(n, 3) + (Wires(body) + Tag(n, 4))
    case Fixed32(n, data) => Tag(n, 5) + data
  }

  function Wires(fs: seq<Field>): Bytes {
    if fs == [] then [] else Wire(fs[0]) + Wires(fs[1..])
  }

  lemma TagReads(number: nat, wireType: nat, rest: Bytes)
    requires 1 <= number < MaxField && wireType < 8
    ensures Varint(Tag(number, wireType) + rest, 0, 0) == Ok((number * 8 + wireType, rest))
    ensures (number * 8 + wireType) % 8 == wireType && FieldNumber(number * 8 + wireType) == number
  {
    NumberReads(number * 8 + wireType, rest);
  }

  function WireType(f: Field): nat {
    match f
    case Number(_, _) => 0
    case Fixed64(_, _) => 1
    case Length(_, _) => 2
    case Group(_, _) => 3
    case Fixed32(_, _) => 5
  }

  /** What follows the tag of a field. */
  function Body(f: Field): Bytes {
    match f
    case Number(_, v) => VarintBytes(v)
    case Fixed64(_, data) => data
    case Length(_, data) => VarintBytes(|data|) + data
    case Group(n, body) => Wires(body) + Tag(n, 4)
    case Fixed32(_, data) => data
  }

  lemma FieldParts(f: Field, rest: Bytes)
    ensures Wire(f) == Tag(f.number, WireType(f)) + Body(f)
    ensures Wire(f) + rest == Tag(f.number, WireType(f)) + (Body(f) + rest)
  {
    var t, b := Tag(f.number, WireType(f)), Body(f);
    assert t + b + rest == t + (b + rest);
  }

  lemma LengthSkips(f: Field, rest: Bytes)
    requires Legal(f) && f.Length? && |Wire(f) + rest| < TwoTo63
    ensures SkipLength(Wire(f) + rest) == Ok(|Wire(f)|)
  {
    var n := |f.data|;
    FieldParts(f, rest);
    TagReads(f.number, 2, Body(f) + rest);
    assert Body(f) + rest == VarintBytes(n) + (f.data + rest);
    NumberReads(n, f.data + rest);
  }

  lemma NumberSkips(f: Field, rest: Bytes)
    requires Legal(f) && f.Number?
    ensures SkipLength(Wire(f) + rest) == Ok(|Wire(f)|)
  {
    FieldParts(f, rest);
    TagReads(f.number, 0, Body(f) + rest);
    DigitsSkip(f.v, rest, 0, |Tag(f.number, 0)|);
  }

  lemma FixedSkips(f: Field, rest: Bytes)
    requires Legal(f) && (f.Fixed64? || f.Fixed32?) && |Wire(f) + rest| < TwoTo63
    ensures SkipLength(Wire(f) + rest) == Ok(|Wire(f)|)
  {
    FieldParts(f, rest);
    TagReads(f.number, WireType(f), Body(f) + rest);
  }

  lemma GroupOpens(n: nat, body: seq<Field>, rest: Bytes)
    requires 1 <= n < MaxField
    ensures var f, start := Group(n, body), |Tag(n, 3)|;
            && |Wire(f)| == start + |Wires(body)| + |Tag(n, 4)|
            && SkipLength(Wire(f) + rest) == GroupLength(Wire(f) + rest, start)
            && (Wire(f) + rest)[start..] == Wires(body) + (Tag(n, 4) + rest)
  {
    var inside := Wires(body) + (Tag(n, 4) + rest);
    TagReads(n, 3, inside);
    assert Wire(Group(n, body)) + rest == Tag(n, 3) + inside;
  }

  /** A legal field is skipped exactly. */
  lemma {:induction false} FieldSkips(f: Field, rest: Bytes)
    requires Legal(f) && |Wire(f) + rest| < TwoTo63
    ensures SkipLength(Wire(f) + rest) == Ok(|Wire(f)|)
    decreases f, 1, 0
  {
    match f
    case Number(_, _) => NumberSkips(f, rest);
    case Length(_, _) => LengthSkips(f, rest);
    case Fixed64(_, _) => FixedSkips(f, rest);
    case Fixed32(_, _) => FixedSkips(f, rest);
    case Group(n, body) =>
      GroupOpens(n, body, rest);
      GroupSkips(Wire(f) + rest, |Tag(n, 3)|, body, n, rest, f, |Wire(f)|);
  }

  lemma GroupStep(d: Bytes, start: nat, f: Field, more: Bytes)
    requires start <= |d| < TwoTo63 && d[start..] == Wire(f) + more && Legal(f)
    requires SkipLength(Wire(f) + more) == Ok(|Wire(f)|)
    ensures GroupLength(d, start) == GroupLength(d, start + |Wire(f)|)
  {
    FieldParts(f, more);
    TagReads(f.number, WireType(f), Body(f) + more);
    GroupGoesOn(d, start, f.number * 8 + WireType(f), Body(f) + more, |Wire(f)|);
  }

  lemma GroupGoesOn(d: Bytes, start: nat, wire: nat, rest: Bytes, n: nat)
    requires start < |d| < TwoTo63 && Varint(d[start..], 0, 0) == Ok((wire, rest)) && wire % 8 != 4
    requires SkipLength(d[start..]) == Ok(n) && 1 <= n <= |d| - start
    ensures GroupLength(d, start) == GroupLength(d, start + n)
  {
  }

  lemma Behind(d: Bytes, start: nat, a: Bytes, b: Bytes)
    requires start <= |d| && d[start..] == a + b
    ensures start + |a| <= |d| && d[start + |a|..] == b
  {
    assert d[start + |a|..] == d[start..][|a|..];
  }

  lemma GroupEnds(d: Bytes, start: nat, n: nat, rest: Bytes)
    requires start <= |d| && d[start..] == Tag(n, 4) + rest && 1 <= n < MaxField
    ensures GroupLength(d, start) == Ok(start + |Tag(n, 4)|)
  {
    TagReads(n, 4, rest);
  }

  lemma FirstWire(fs: seq<Field>, end: Bytes)
    requires fs != []
    ensures Wires(fs) + end == Wire(fs[0]) + (Wires(fs[1..]) + end)
    ensures |Wires(fs)| == |Wire(fs[0])| + |Wires(fs[1..])|
  {
    assert Wires(fs) + end == Wire(fs[0]) + Wires(fs[1..]) + end;
  }

  /** The fields of a group from `start` on, and the tag that ends it before `end`. */
  ghost predicate GroupFrom(d: Bytes, start: nat, body: seq<Field>, n: nat, rest: Bytes, end: nat) {
    && start <= |d| < TwoTo63 && d[start..] == Wires(body) + (Tag(n, 4) + rest)
    && end == start + |Wires(body)| + |Tag(n, 4)|
  }

  /** What stands behind the first field of a group. */
  lemma GroupRest(d: Bytes, start: nat, body: seq<Field>, n: nat, rest: Bytes, end: nat)
    requires GroupFrom(d, start, body, n, rest, end) && body != []
    ensures var more := Wires(body[1..]) + (Tag(n, 4) + rest);
            d[start..] == Wire(body[0]) + more && |Wire(body[0]) + more| < TwoTo63
    ensures GroupFrom(d, start + |Wire(body[0])|, body[1..], n, rest, end)
  {
    var tail := Tag(n, 4) + rest;
    FirstWire(body, tail);
    Behind(d, start, Wire(body[0]), Wires(body[1..]) + tail);
  }

  lemma GroupLast(d: Bytes, start: nat, n: nat, rest: Bytes, end: nat)
    requires GroupFrom(d, start, [], n, rest, end) && 1 <= n < MaxField
    ensures GroupLength(d, start) == Ok(end)
  {
    assert [] + (Tag(n, 4) + rest) == Tag(n, 4) + rest;
    GroupEnds(d, start, n, rest);
  }

  lemma {:induction false} FieldInGroup(d: Bytes, start: nat, f: Field, more: Bytes)
    requires start <= |d| < TwoTo63 && d[start..] == Wire(f) + more && |Wire(f) + more| < TwoTo63 && Legal(f)
    ensures GroupLength(d, start) == GroupLength(d, start + |Wire(f)|)
    decreases f, 2, 0
  {
    FieldSkips(f, more);
    GroupStep(d, start, f, more);
  }

  lemma {:induction false} GroupSkips(d: Bytes, start: nat, body: seq<Field>, n: nat, rest: Bytes, whole: Field, end: nat)
    requires GroupFrom(d, start, body, n, rest, end) && 1 <= n < MaxField
    requires whole.Group? && forall f <- body :: Legal(f) && f in whole.body
    ensures GroupLength(d, start) == Ok(end)
    decreases whole, 0, |body|
  {
    if body == [] {
      GroupLast(d, start, n, rest, end);
    } else {
      var f, more := body[0], Wires(body[1..]) + (Tag(n, 4) + rest);
      GroupRest(d, start, body, n, rest, end);
      assert f in body;
      FieldInGroup(d, start, f, more);
      GroupSkips(d, start + |Wire(f)|, body[1..], n, rest, whole, end);
    }
  }

  // ---- A message of known and unknown fields ----

  /** What a message of these fields is read as: the known ones stored in their order. */
  function Stored<T>(s: Schema<T>, fs: seq<Field>, m: T): Decoded<T>
    requires forall f <- fs :: f.number <= s.known ==> f.Length?
  {
    if fs == [] then Ok(m)
    else if fs[0].number > s.known then Stored(s, fs[1..], m)
    else
      match s.put(fs[0].number, fs[0].data, m)
      case Failed(e) => Failed(e)
      case Panicked => Panicked
      case Ok(m') => Stored(s, fs[1..], m')
  }

  lemma KnownFieldReads<T>(s: Schema<T>, f: Field, rest: Bytes, l: nat, m: T)
    requires Legal(f) && f.Length? && f.number <= s.known && |Wire(f) + rest| <= l < TwoTo63
    ensures DecodeField(s, Wire(f) + rest, l, m) ==
            match s.put(f.number, f.data, m)
            case Failed(e) => Failed(e)
            case Panicked => Panicked
            case Ok(m') => Ok((m', rest))
  {
    var n := |f.data|;
    FieldParts(f, rest);
    TagReads(f.number, 2, Body(f) + rest);
    assert Body(f) + rest == VarintBytes(n) + (f.data + rest);
    NumberReads(n, f.data + rest);
    assert (f.data + rest)[..n] == f.data && (f.data + rest)[n..] == rest;
  }

  lemma UnknownFieldReads<T>(s: Schema<T>, f: Field, rest: Bytes, l: nat, m: T)
    requires Legal(f) && f.number > s.known && |Wire(f) + rest| <= l < TwoTo63
    ensures DecodeField(s, Wire(f) + rest, l, m) == Ok((m, rest))
  {
    FieldParts(f, rest);
    TagReads(f.number, WireType(f), Body(f) + rest);
    FieldSkips(f, rest);
    assert (Wire(f) + rest)[|Wire(f)|..] == rest;
  }

  /** Reading a message of legal fields stores the known ones and nothing else. */
  lemma {:induction false} FieldsRead<T>(s: Schema<T>, fs: seq<Field>, l: nat, m: T)
    requires forall f <- fs :: Legal(f) && (f.number <= s.known ==> f.Length?)
    requires |Wires(fs)| <= l < TwoTo63
    ensures Decode(s, Wires(fs), l, m) == Stored(s, fs, m)
  {
    if fs != [] {
      var f, rest := fs[0], Wires(fs[1..]);
      if f.number > s.known {
        UnknownFieldReads(s, f, rest, l, m);
        FieldsRead(s, fs[1..], l, m);
      } else {
        KnownFieldReads(s, f, rest, l, m);
        var r := s.put(f.number, f.data, m);
        if r.Ok? { FieldsRead(s, fs[1..], l, r.value); }
      }
    }
  }

  /** The fields of a message without those it does not know. */
  function Known(known: nat, fs: seq<Field>): seq<Field> {
    if fs == [] then []
    else (if fs[0].number <= known then [fs[0]] else []) + Known(known, fs[1..])
  }

  lemma {:induction false} KnownOf(known: nat, fs: seq<Field>)
    ensures forall f <- Known(known, fs) :: f in fs && f.number <= known
  {
    if fs != [] { KnownOf(known, fs[1..]); }
  }

  lemma {:induction false} StoredKnown<T>(s: Schema<T>, fs: seq<Field>, m: T)
    requires forall f <- fs :: f.number <= s.known ==> f.Length?
    ensures (forall f <- Known(s.known, fs) :: f.Length?) && Stored(s, fs, m) == Stored(s, Known(s.known, fs), m)
  {
    KnownOf(s.known, fs);
    if fs != [] {
      var f, more := fs[0], Known(s.known, fs[1..]);
      if f.number > s.known {
        assert Known(s.known, fs) == more;
        StoredKnown(s, fs[1..], m);
      } else {
        assert Known(s.known, fs) == [f] + more && ([f] + more)[1..] == more;
        var r := s.put(f.number, f.data, m);
        if r.Ok? { StoredKnown(s, fs[1..], r.value); }
      }
    }
  }

  lemma {:induction false} MemberFits(fs: seq<Field>, f: Field)
    requires f in fs
    ensures |Wire(f)| <= |Wires(fs)| && (f.Length? ==> |f.data| < |Wires(fs)|)
  {
    if f != fs[0] { MemberFits(fs[1..], f); }
  }

  lemma {:induction false} StoredMore<T>(s: Schema<T>, a: seq<Field>, b: seq<Field>, m: T)
    requires forall f <- a + b :: f.number <= s.known ==> f.Length?
    ensures Stored(s, a + b, m) ==
            match Stored(s, a, m)
            case Failed(e) => Failed(e)
            case Panicked => Panicked
            case Ok(m') => Stored(s, b, m')
  {
    if a == [] {
      assert a + b == b;
    } else {
      assert (a + b)[0] == a[0] && (a + b)[1..] == a[1..] + b;
      if a[0].number > s.known {
        StoredMore(s, a[1..], b, m);
      } else {
        var r := s.put(a[0].number, a[0].data, m);
        if r.Ok? { StoredMore(s, a[1..], b, r.value); }
      }
    }
  }

  // ---- The fields a message is written as ----

  function OptionalField(number: nat, data: Bytes): seq<Field> {
    if data == [] then [] else [Length(number, data)]
  }

  function ListFields(number: nat, data: seq<Bytes>): seq<Field> {
    seq(|data|, i requires 0 <= i < |data| => Length(number, data[i]))
  }

  function SpecFields(m: Spec): seq<Field> {
    OptionalField(1, m.key) + (OptionalField(2, m.operator) + ListFields(3, m.values))
  }

  function EncodeSpec(m: Spec): Bytes {
    Wires(SpecFields(m))
  }

  function EncodeSpecs(specs: seq<Spec>): seq<Bytes> {
    seq(|specs|, i requires 0 <= i < |specs| => EncodeSpec(specs[i]))
  }

  function EncodeFilter(m: Filter): Bytes {
    Wires(ListFields(1, EncodeSpecs(m.specs)))
  }

  function EncodeWatchSpec(m: WatchSpec): Bytes {
    Wires(OptionalField(1, m.refVersion) + ListFields(2, EncodeSpecs(m.specs)))
  }

  // ---- Specs ----

  /** Legal fields, of which the known ones carry bytes. */
  ghost predicate LegalFields(known: nat, fs: seq<Field>) {
    forall f <- fs :: Legal(f) && (f.number <= known ==> f.Length?)
  }

  /** The fields of a spec with unknown ones put in anywhere between them. */
  ghost predicate SpecFrom(fs: seq<Field>, m: Spec) {
    LegalFields(3, fs) && Known(3, fs) == SpecFields(m)
  }

  lemma {:induction false} ValuesStored(values: seq<Bytes>, i: nat, m: Spec)
    requires i <= |values| && m.values == values[..i]
    ensures Stored(SpecSchema, ListFields(3, values)[i..], m) == Ok(m.(values := values))
    decreases |values| - i
  {
    var fs := ListFields(3, values);
    if i < |values| {
      assert fs[i..][0] == Length(3, values[i]) && fs[i..][1..] == fs[i + 1..];
      assert values[..i] + [values[i]] == values[..i + 1];
      ValuesStored(values, i + 1, m.(values := m.values + [values[i]]));
    } else {
      assert values[..i] == values && fs[i..] == [];
    }
  }

  lemma SpecStored(m: Spec)
    ensures Stored(SpecSchema, SpecFields(m), EmptySpec) == Ok(m)
  {
    var a, b, c := OptionalField(1, m.key), OptionalField(2, m.operator), ListFields(3, m.values);
    StoredMore(SpecSchema, a, b + c, EmptySpec);
    assert Stored(SpecSchema, a, EmptySpec) == Ok(EmptySpec.(key := m.key));
    StoredMore(SpecSchema, b, c, EmptySpec.(key := m.key));
    ValuesStored(m.values, 0, Spec(m.key, m.operator, []));
    assert c[0..] == c;
  }

  /** A spec is read from its fields, whatever unknown fields stand between them. */
  lemma SpecReads(fs: seq<Field>, m: Spec)
    requires SpecFrom(fs, m) && |Wires(fs)| < TwoTo63
    ensures DecodeSpec(Wires(fs), EmptySpec) == Ok(m)
  {
    FieldsRead(SpecSchema, fs, |Wires(fs)|, EmptySpec);
    StoredKnown(SpecSchema, fs, EmptySpec);
    SpecStored(m);
  }

  // ---- Messages that hold specs ----

  /** Each spec in bytes of its own, with unknown fields put in anywhere between its fields. */
  ghost predicate SpecsFrom(inner: seq<seq<Field>>, specs: seq<Spec>) {
    |inner| == |specs| && forall i | 0 <= i < |specs| :: SpecFrom(inner[i], specs[i])
  }

  function AllWires(inner: seq<seq<Field>>): seq<Bytes> {
    seq(|inner|, i requires 0 <= i < |inner| => Wires(inner[i]))
  }

  ghost predicate AllFit(inner: seq<seq<Field>>) {
    forall i | 0 <= i < |inner| :: |Wires(inner[i])| < TwoTo63
  }

  ghost predicate FilterFrom(fs: seq<Field>, inner: seq<seq<Field>>, m: Filter) {
    LegalFields(1, fs) && Known(1, fs) == ListFields(1, AllWires(inner)) && SpecsFrom(inner, m.specs)
  }

  ghost predicate WatchSpecFrom(fs: seq<Field>, inner: seq<seq<Field>>, m: WatchSpec) {
    && LegalFields(2, fs) && SpecsFrom(inner, m.specs)
    && Known(2, fs) == OptionalField(1, m.refVersion) + ListFields(2, AllWires(inner))
  }

  /** What is nested in a message is shorter than the message. */
  lemma NestedFit(known: nat, fs: seq<Field>, a: seq<Field>, number: nat, inner: seq<seq<Field>>)
    requires Known(known, fs) == a + ListFields(number, AllWires(inner)) && |Wires(fs)| < TwoTo63
    ensures AllFit(inner)
  {
    KnownOf(known, fs);
    forall i | 0 <= i < |inner| ensures |Wires(inner[i])| < TwoTo63 {
      var f := Length(number, Wires(inner[i]));
      assert Known(known, fs)[|a| + i] == f;
      MemberFits(fs, f);
    }
  }

  lemma {:induction false} FilterStored(inner: seq<seq<Field>>, specs: seq<Spec>, i: nat)
    requires SpecsFrom(inner, specs) && AllFit(inner) && i <= |specs|
    ensures Stored(FilterSchema, ListFields(1, AllWires(inner))[i..], Filter(specs[..i])) == Ok(Filter(specs))
    decreases |specs| - i
  {
    var fs := ListFields(1, AllWires(inner));
    if i < |specs| {
      assert fs[i..][0] == Length(1, Wires(inner[i])) && fs[i..][1..] == fs[i + 1..];
      SpecReads(inner[i], specs[i]);
      assert specs[..i] + [specs[i]] == specs[..i + 1];
      FilterStored(inner, specs, i + 1);
    } else {
      assert specs[..i] == specs && fs[i..] == [];
    }
  }

  lemma {:induction false} WatchSpecStored(inner: seq<seq<Field>>, m: WatchSpec, i: nat)
    requires SpecsFrom(inner, m.specs) && AllFit(inner) && i <= |m.specs|
    ensures Stored(WatchSpecSchema, ListFields(2, AllWires(inner))[i..], m.(specs := m.specs[..i])) == Ok(m)
    decreases |m.specs| - i
  {
    var fs, specs := ListFields(2, AllWires(inner)), m.specs;
    if i < |specs| {
      assert fs[i..][0] == Length(2, Wires(inner[i])) && fs[i..][1..] == fs[i + 1..];
      SpecReads(inner[i], specs[i]);
      assert specs[..i] + [specs[i]] == specs[..i + 1];
      WatchSpecStored(inner, m, i + 1);
    } else {
      assert specs[..i] == specs && fs[i..] == [];
    }
  }

  /** A filter is read from its fields, whatever unknown fields stand in it or in its specs. */
  lemma FilterReads(fs: seq<Field>, inner: seq<seq<Field>>, m: Filter)
    requires FilterFrom(fs, inner, m) && |Wires(fs)| < TwoTo63
    ensures Decode(FilterSchema, Wires(fs), |Wires(fs)|, Filter([])) == Ok(m)
  {
    var ks := ListFields(1, AllWires(inner));
    assert ks == [] + ks && ks[0..] == ks;
    NestedFit(1, fs, [], 1, inner);
    FieldsRead(FilterSchema, fs, |Wires(fs)|, Filter([]));
    StoredKnown(FilterSchema, fs, Filter([]));
    FilterStored(inner, m.specs, 0);
  }

  lemma WatchSpecReads(fs: seq<Field>, inner: seq<seq<Field>>, m: WatchSpec)
    requires WatchSpecFrom(fs, inner, m) && |Wires(fs)| < TwoTo63
    ensures Decode(WatchSpecSchema, Wires(fs), |Wires(fs)|, WatchSpec([], [])) == Ok(m)
  {
    var a, ks := OptionalField(1, m.refVersion), ListFields(2, AllWires(inner));
    var empty := WatchSpec([], []);
    assert ks[0..] == ks;
    NestedFit(2, fs, a, 2, inner);
    FieldsRead(WatchSpecSchema, fs, |Wires(fs)|, empty);
    StoredKnown(WatchSpecSchema, fs, empty);
    StoredMore(WatchSpecSchema, a, ks, empty);
    assert Stored(WatchSpecSchema, a, empty) == Ok(WatchSpec(m.refVersion, []));
    WatchSpecStored(inner, m, 0);
  }

  // ---- Round trips ----

  lemma {:induction false} KnownAll(known: nat, fs: seq<Field>)
    requires forall f <- fs :: f.number <= known
    ensures Known(known, fs) == fs
  {
    if fs != [] {
      KnownAll(known, fs[1..]);
      assert fs == [fs[0]] + fs[1..];
    }
  }

  /** Fields that carry bytes under numbers the message knows. */
  ghost predicate AllKnown(known: nat, fs: seq<Field>) {
    forall f <- fs :: f.Length? && 1 <= f.number <= known
  }

  lemma BothKnown(known: nat, a: seq<Field>, b: seq<Field>)
    requires AllKnown(known, a) && AllKnown(known, b)
    ensures AllKnown(known, a + b)
  {
  }

  lemma AllKnownLegal(known: nat, fs: seq<Field>)
    requires AllKnown(known, fs) && known < MaxField
    ensures LegalFields(known, fs) && Known(known, fs) == fs
  {
    KnownAll(known, fs);
  }

  lemma SpecFieldsFrom(m: Spec)
    ensures SpecFrom(SpecFields(m), m)
  {
    var a, b, c := OptionalField(1, m.key), OptionalField(2, m.operator), ListFields(3, m.values);
    BothKnown(3, b, c);
    BothKnown(3, a, b + c);
    AllKnownLegal(3, SpecFields(m));
  }

  function AllSpecFields(specs: seq<Spec>): seq<seq<Field>> {
    seq(|specs|, i requires 0 <= i < |specs| => SpecFields(specs[i]))
  }

  lemma SpecsFieldsFrom(specs: seq<Spec>)
    ensures SpecsFrom(AllSpecFields(specs), specs) && AllWires(AllSpecFields(specs)) == EncodeSpecs(specs)
  {
    forall i | 0 <= i < |specs| ensures SpecFrom(AllSpecFields(specs)[i], specs[i]) { SpecFieldsFrom(specs[i]); }
  }

  lemma SpecRoundTrip(m: Spec)
    requires |EncodeSpec(m)| < TwoTo63
    ensures DecodeSpec(EncodeSpec(m), EmptySpec) == Ok(m)
  {
    SpecFieldsFrom(m);
    SpecReads(SpecFields(m), m);
  }

  lemma FilterRoundTrip(m: Filter)
    requires |EncodeFilter(m)| < TwoTo63
    ensures Decode(FilterSchema, EncodeFilter(m), |EncodeFilter(m)|, Filter([])) == Ok(m)
  {
    var fs := ListFields(1, EncodeSpecs(m.specs));
    SpecsFieldsFrom(m.specs);
    AllKnownLegal(1, fs);
    FilterReads(fs, AllSpecFields(m.specs), m);
  }

  lemma WatchSpecRoundTrip(m: WatchSpec)
    requires |EncodeWatchSpec(m)| < TwoTo63
    ensures Decode(WatchSpecSchema, EncodeWatchSpec(m), |EncodeWatchSpec(m)|, WatchSpec([], [])) == Ok(m)
  {
    var fs := OptionalField(1, m.refVersion) + ListFields(2, EncodeSpecs(m.specs));
    SpecsFieldsFrom(m.specs);
    BothKnown(2, OptionalField(1, m.refVersion), ListFields(2, EncodeSpecs(m.specs)));
    AllKnownLegal(2, fs);
    WatchSpecReads(fs, AllSpecFields(m.specs), m);
  }
}
