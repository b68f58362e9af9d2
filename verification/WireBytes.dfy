/**
 What the decoder does with bytes that no encoder wrote: numbers of any length, tags it does
 not expect, and messages that are cut off.
 */
module WireBytes {
  import opened WireModel
  import opened WireRoundTrip

  // ---- Numbers ----

  /** How many bytes in front say that another one follows. */
  function Continued(d: Bytes): (n: nat)
    ensures n <= |d| && (n < |d| ==> d[n] < 128)
  {
    if d == [] || d[0] < 128 then 0 else 1 + Continued(d[1..])
  }

  /** The number that bytes of seven bits make, the first ones being the lowest. */
  function Number128(d: Bytes): nat {
    if d == [] then 0 else d[0] % 128 + 128 * Number128(d[1..])
  }

  /** The same sum as the decoder adds it up, from byte k on, each summand in 64 bits. */
  function Summed(d: Bytes, k: nat): nat {
    if d == [] then 0 else (d[0] % 128 * Pow128(k)) % TwoTo64 + Summed(d[1..], k + 1)
  }

  lemma {:induction false} VarintFrom(d: Bytes, k: nat, acc: nat)
    requires k <= 10
    ensures var n := Continued(d);
            Varint(d, k, acc) ==
              if k + n >= 10 then Failed(IntOverflow)
              else if n == |d| then Failed(UnexpectedEof)
              else Ok((acc + Summed(d[..n + 1], k), d[n + 1..]))
    decreases |d|
  {
    var n := Continued(d);
    if k < 10 && d != [] {
      if d[0] < 128 {
        assert d[..1][1..] == [];
      } else {
        VarintFrom(d[1..], k + 1, acc + (d[0] % 128 * Pow128(k)) % TwoTo64);
        if n < |d| { OneByteFurther(d, n, k); }
      }
    }
  }

  lemma OneByteFurther(d: Bytes, n: nat, k: nat)
    requires 0 < n < |d|
    ensures Summed(d[..n + 1], k) == (d[0] % 128 * Pow128(k)) % TwoTo64 + Summed(d[1..][..n], k + 1)
    ensures d[n + 1..] == d[1..][n..]
  {
    assert d[..n + 1][1..] == d[1..][..n];
  }

  lemma Remainder(x: nat, q: nat, r: nat)
    requires r < TwoTo64 && x == q * TwoTo64 + r
    ensures x % TwoTo64 == r
  {
  }

  lemma Divided(v: nat, c: nat) returns (q: nat, r: nat)
    requires c > 0
    ensures v == q * c + r && r < c
  {
    q, r := v / c, v % c;
  }

  lemma Distributed(q: nat, c: nat, r: nat, p: nat)
    requires r < c
    ensures (q * c + r) * p == q * (p * c) + r * p && r * p <= p * c - p
  {
    assert (q * c) * p == q * (p * c);
    assert (c - 1 - r) * p >= 0;
    assert p * c - p - r * p == (c - 1 - r) * p;
  }

  /** A summand below p and a multiple of p, where p divides the modulus. */
  lemma NoCarry(low: nat, v: nat, p: nat, c: nat)
    requires low < p && c > 0 && p * c == TwoTo64
    ensures (low + v * p) % TwoTo64 == low + (v * p) % TwoTo64
  {
    var q, r := Divided(v, c);
    Distributed(q, c, r, p);
    Remainder(v * p, q, r * p);
    Remainder(low + v * p, q, low + r * p);
  }

  lemma {:induction false} PowSplits(a: nat, b: nat)
    ensures Pow128(a) * Pow128(b) == Pow128(a + b) && Pow128(a) > 0
  {
    if a > 0 { PowSplits(a - 1, b); }
  }

  lemma HighestPower()
    ensures 2 * Pow128(9) == TwoTo64
  {
    PowTable();
  }

  lemma PowerDivides(k: nat) returns (c: nat)
    requires k < 9
    ensures c > 0 && Pow128(k + 1) * c == TwoTo64 && Pow128(k + 1) == 128 * Pow128(k) && Pow128(k) > 0
  {
    c := 2 * Pow128(8 - k);
    PowSplits(k + 1, 8 - k);
    PowSplits(k, 0);
    PowSplits(8 - k, 0);
    HighestPower();
  }

  lemma DigitBelow(q: nat, v: nat, p: nat)
    requires q < 128 && p > 0
    ensures q * p < 128 * p && (q + 128 * v) * p == q * p + v * (128 * p)
  {
    assert (q + 128 * v) * p == q * p + (128 * v) * p;
    assert (128 * v) * p == v * (128 * p);
  }

  lemma DigitAndMore(q: nat, v: nat, k: nat)
    requires q < 128 && k < 9
    ensures (q * Pow128(k)) % TwoTo64 + (v * Pow128(k + 1)) % TwoTo64 == ((q + 128 * v) * Pow128(k)) % TwoTo64
  {
    var c := PowerDivides(k);
    DigitSum(q, v, Pow128(k), Pow128(k + 1), c);
  }

  lemma DigitSum(q: nat, v: nat, p: nat, p': nat, c: nat)
    requires q < 128 && p > 0 && p' == 128 * p && c > 0 && p' * c == TwoTo64
    ensures (q * p) % TwoTo64 + (v * p') % TwoTo64 == ((q + 128 * v) * p) % TwoTo64
  {
    DigitBelow(q, v, p);
    NoCarry(q * p, v, p', c);
    assert p' * 1 <= p' * c;
    SmallMod(q * p);
  }

  lemma {:induction false} SummedIs(d: Bytes, k: nat)
    requires |d| + k <= 10
    ensures Summed(d, k) == (Number128(d) * Pow128(k)) % TwoTo64
  {
    if d != [] {
      SummedIs(d[1..], k + 1);
      if k < 9 {
        DigitAndMore(d[0] % 128, Number128(d[1..]), k);
      } else {
        assert d[1..] == [];
      }
    }
  }

  /**
   Any bytes read as a number: the bytes up to the first that is not continued make it, in 64
   bits. Ten that are continued are too many, and if none ends the number it is cut off.
   */
  lemma VarintAny(d: Bytes)
    ensures var n := Continued(d);
            Varint(d, 0, 0) ==
              if n >= 10 then Failed(IntOverflow)
              else if n == |d| then Failed(UnexpectedEof)
              else Ok((Number128(d[..n + 1]) % TwoTo64, d[n + 1..]))
  {
    VarintAnyFrom(d, 0);
  }

  lemma VarintAnyFrom(d: Bytes, k: nat)
    requires k == 0
    ensures var n := Continued(d);
            Varint(d, k, k) ==
              if n >= 10 then Failed(IntOverflow)
              else if n == |d| then Failed(UnexpectedEof)
              else Ok((Number128(d[..n + 1]) % TwoTo64, d[n + 1..]))
  {
    var n := Continued(d);
    VarintSum(d, k);
    if n < 10 && n < |d| { WholeSum(d[..n + 1], k); }
  }

  lemma VarintSum(d: Bytes, k: nat)
    requires k == 0
    ensures var n := Continued(d);
            Varint(d, k, k) ==
              if n >= 10 then Failed(IntOverflow)
              else if n == |d| then Failed(UnexpectedEof)
              else Ok((Summed(d[..n + 1], k), d[n + 1..]))
  {
    VarintFrom(d, k, k);
  }

  lemma WholeSum(d: Bytes, k: nat)
    requires |d| <= 10 && k == 0
    ensures Summed(d, k) == Number128(d) % TwoTo64
  {
    SummedIs(d, k);
    assert Pow128(k) == 1;
  }

  // ---- The bytes that are written ----

  /** A field that carries bytes: its tag, the length and the bytes; nothing for an empty value that is optional. */
  function Tagged(tag: Byte, data: Bytes): Bytes {
    [tag] + (VarintBytes(|data|) + data)
  }

  function TaggedAll(tag: Byte, data: seq<Bytes>): Bytes {
    if data == [] then [] else Tagged(tag, data[0]) + TaggedAll(tag, data[1..])
  }

  lemma OneByteTag(number: nat)
    requires 1 <= number <= 15
    ensures Tag(number, 2) == [number * 8 + 2]
  {
  }

  lemma OptionalBytes(number: nat, data: Bytes, more: seq<Field>)
    requires 1 <= number <= 15
    ensures Wires(OptionalField(number, data) + more) == (if data == [] then [] else Tagged(number * 8 + 2, data)) + Wires(more)
  {
    OneByteTag(number);
    if data == [] {
      assert OptionalField(number, data) + more == more;
    } else {
      assert (OptionalField(number, data) + more)[1..] == more;
    }
  }

  lemma {:induction false} ListBytes(number: nat, data: seq<Bytes>)
    requires 1 <= number <= 15
    ensures Wires(ListFields(number, data)) == TaggedAll(number * 8 + 2, data)
  {
    OneByteTag(number);
    if data != [] {
      assert ListFields(number, data)[1..] == ListFields(number, data[1..]);
      ListBytes(number, data[1..]);
    }
  }

  /** The bytes of the messages: tags 0x0A, 0x12 and 0x1A for the fields 1, 2 and 3. */
  lemma SpecBytes(m: Spec)
    ensures EncodeSpec(m) == (if m.key == [] then [] else Tagged(0x0A, m.key)) +
                             ((if m.operator == [] then [] else Tagged(0x12, m.operator)) + TaggedAll(0x1A, m.values))
  {
    var values := ListFields(3, m.values);
    OptionalBytes(1, m.key, OptionalField(2, m.operator) + values);
    OptionalBytes(2, m.operator, values);
    ListBytes(3, m.values);
  }

  lemma MessageBytes(f: Filter, w: WatchSpec)
    ensures EncodeFilter(f) == TaggedAll(0x0A, EncodeSpecs(f.specs))
    ensures EncodeWatchSpec(w) == (if w.refVersion == [] then [] else Tagged(0x0A, w.refVersion)) +
                                  TaggedAll(0x12, EncodeSpecs(w.specs))
  {
    ListBytes(1, EncodeSpecs(f.specs));
    OptionalBytes(1, w.refVersion, ListFields(2, EncodeSpecs(w.specs)));
    ListBytes(2, EncodeSpecs(w.specs));
  }

  // ---- Tags that are not expected ----

  /** The number of a field is kept in 32 bits with a sign. */
  lemma FieldNumberIs(number: nat, wireType: nat)
    requires number < TwoTo32 && wireType < 8
    ensures FieldNumber(number * 8 + wireType) == if number < TwoTo31 then number else number - TwoTo32
    ensures (number * 8 + wireType) % 8 == wireType
  {
    assert (number * 8 + wireType) / 8 == number;
  }

  /** The end of a group that was not begun, a field 0, a negative one, and a known one of another wire type are refused. */
  lemma UnexpectedTag(known: nat, number: nat, wireType: nat, more: Bytes, l: nat)
    requires number < TwoTo32 && wireType < 8
    ensures var r := NextField(known, Tag(number, wireType) + more, l);
            && (wireType == 4 ==> r == Failed(EndGroupOutside))
            && (wireType != 4 && (number == 0 || number >= TwoTo31) ==> r == Failed(IllegalTag))
            && (wireType != 4 && wireType != 2 && 1 <= number <= known && number < TwoTo31 ==> r == Failed(WrongWireType))
  {
    NumberReads(number * 8 + wireType, more);
    FieldNumberIs(number, wireType);
  }

  /** A field that is not known is skipped, unless its wire type does not exist. */
  lemma UnknownWireType(known: nat, number: nat, wireType: nat, more: Bytes, l: nat)
    requires known < number < MaxField && 6 <= wireType < 8
    ensures NextField(known, Tag(number, wireType) + more, l) == Failed(IllegalWireType)
  {
    TagReads(number, wireType, more);
  }

  /** The length of a field is within 63 bits, and its bytes within those that are left. */
  lemma PayloadOutcome(n: nat, more: Bytes, l: nat)
    requires n < TwoTo64
    ensures Payload(VarintBytes(n) + more, l) ==
            if n >= TwoTo63 then Failed(InvalidLength)
            else if l - |more| + n >= TwoTo63 then Panicked
            else if n > |more| then Failed(UnexpectedEof)
            else Ok((more[..n], more[n..]))
  {
    NumberReads(n, more);
  }

  /** The same for the length of a field that is not known. */
  lemma UnknownLength(known: nat, number: nat, n: nat, more: Bytes, l: nat)
    requires known < number < MaxField && n < TwoTo64
    requires |Tag(number, 2) + (VarintBytes(n) + more)| <= l && (n < TwoTo63 ==> l - |more| + n < TwoTo63)
    ensures NextField(known, Tag(number, 2) + (VarintBytes(n) + more), l) ==
            if n >= TwoTo63 then Failed(InvalidLength)
            else if n > |more| then Failed(UnexpectedEof)
            else Ok((Other, more[n..]))
  {
    var body := VarintBytes(n) + more;
    TagReads(number, 2, body);
    NumberReads(n, more);
    if n <= |more| && n < TwoTo63 {
      assert (Tag(number, 2) + body)[|Tag(number, 2)| + |VarintBytes(n)| + n..] == more[n..];
    }
  }

  // ---- What a failure leaves ----

  /** The fields read before a failure are in the message. */
  lemma {:induction false} LeftBehind<T>(s: Schema<T>, fs: seq<Field>, rest: Bytes, l: nat, m: T)
    requires LegalFields(s.known, fs) && Stored(s, fs, m).Ok? && |Wires(fs) + rest| <= l < TwoTo63
    ensures Left(s, Wires(fs) + rest, l, m) == Left(s, rest, l, Stored(s, fs, m).value)
  {
    if fs == [] {
      assert Wires(fs) + rest == rest;
    } else {
      var f, more := fs[0], Wires(fs[1..]) + rest;
      assert f in fs && Wires(fs) + rest == Wire(f) + more;
      FieldNext(s.known, f, more, l);
      LeftBehind(s, fs[1..], rest, l, if f.number > s.known then m else s.put(f.number, f.data, m).value);
    }
  }

  lemma FieldNext(known: nat, f: Field, rest: Bytes, l: nat)
    requires Legal(f) && (f.number <= known ==> f.Length?) && |Wire(f) + rest| <= l < TwoTo63
    ensures NextField(known, Wire(f) + rest, l) == Ok((if f.number > known then Other else Carried(f.number, f.data), rest))
  {
    FieldParts(f, rest);
    TagReads(f.number, WireType(f), Body(f) + rest);
    if f.number > known {
      FieldSkips(f, rest);
      assert (Wire(f) + rest)[|Wire(f)|..] == rest;
    } else {
      assert Body(f) + rest == VarintBytes(|f.data|) + (f.data + rest);
      PayloadOutcome(|f.data|, f.data + rest, l);
      assert (f.data + rest)[..|f.data|] == f.data && (f.data + rest)[|f.data|..] == rest;
    }
  }

  /** A spec that is not understood is left in the message with what could be read of it, behind those before it. */
  lemma BadSpecLeft(fs: seq<Field>, bad: Bytes, rest: Bytes, l: nat, m: Filter, w: WatchSpec)
    requires !DecodeSpec(bad, EmptySpec).Ok?
    ensures LegalFields(1, fs) && Stored(FilterSchema, fs, m).Ok? &&
            |Wires(fs) + (Wire(Length(1, bad)) + rest)| <= l < TwoTo63 ==>
              Left(FilterSchema, Wires(fs) + (Wire(Length(1, bad)) + rest), l, m) ==
                Filter(Stored(FilterSchema, fs, m).value.specs + [LeftSpec(bad)])
    ensures LegalFields(2, fs) && Stored(WatchSpecSchema, fs, w).Ok? &&
            |Wires(fs) + (Wire(Length(2, bad)) + rest)| <= l < TwoTo63 ==>
              var w' := Stored(WatchSpecSchema, fs, w).value;
              Left(WatchSpecSchema, Wires(fs) + (Wire(Length(2, bad)) + rest), l, w) == w'.(specs := w'.specs + [LeftSpec(bad)])
  {
    if LegalFields(1, fs) && Stored(FilterSchema, fs, m).Ok? && |Wires(fs) + (Wire(Length(1, bad)) + rest)| <= l < TwoTo63 {
      LeftBehind(FilterSchema, fs, Wire(Length(1, bad)) + rest, l, m);
      FieldNext(1, Length(1, bad), rest, l);
    }
    if LegalFields(2, fs) && Stored(WatchSpecSchema, fs, w).Ok? && |Wires(fs) + (Wire(Length(2, bad)) + rest)| <= l < TwoTo63 {
      LeftBehind(WatchSpecSchema, fs, Wire(Length(2, bad)) + rest, l, w);
      FieldNext(2, Length(2, bad), rest, l);
    }
  }

  // ---- Messages that are cut off ----

  lemma {:induction false} AllContinued(v: nat, cut: nat)
    requires cut < |VarintBytes(v)|
    ensures Continued(VarintBytes(v)[..cut]) == cut
    decreases v
  {
    if cut > 0 {
      var d := VarintBytes(v)[..cut];
      assert d[0] == v % 128 + 128 && d[1..] == VarintBytes(v / 128)[..cut - 1];
      AllContinued(v / 128, cut - 1);
    }
  }

  lemma {:induction false} TenBytes(v: nat, k: nat)
    requires k < 10 && v * Pow128(k) < TwoTo64
    ensures |VarintBytes(v)| <= 10 - k
    decreases v
  {
    if v >= 128 {
      Digit(v, k);
      Digit(v / 128, k + 1);
      TenBytes(v / 128, k + 1);
    }
  }

  /** A number of which the end is missing. */
  lemma NumberCut(v: nat, cut: nat)
    requires v < TwoTo64 && cut < |VarintBytes(v)|
    ensures Varint(VarintBytes(v)[..cut], 0, 0) == Failed(UnexpectedEof)
  {
    AllContinued(v, cut);
    TenBytesAt(v, 0);
    VarintAny(VarintBytes(v)[..cut]);
  }

  lemma TenBytesAt(v: nat, k: nat)
    requires k == 0 && v < TwoTo64
    ensures |VarintBytes(v)| <= 10
  {
    assert Pow128(k) == 1;
    TenBytes(v, k);
  }

  /** A known field of which the end is missing. */
  lemma FieldCut(known: nat, f: Field, cut: nat, l: nat)
    requires Legal(f) && f.Length? && f.number <= known && 0 < cut < |Wire(f)| && cut <= l && l - cut + |Wire(f)| < TwoTo63
    ensures NextField(known, Wire(f)[..cut], l) == Failed(UnexpectedEof)
  {
    var tag, n := Tag(f.number, 2), |f.data|;
    var size := VarintBytes(n);
    FieldParts(f, []);
    assert Wire(f) == tag + (size + f.data);
    if cut < |tag| {
      assert Wire(f)[..cut] == tag[..cut];
      NumberCut(f.number * 8 + 2, cut);
    } else {
      var rest := (size + f.data)[..cut - |tag|];
      assert Wire(f)[..cut] == tag + rest;
      TagReads(f.number, 2, rest);
      PayloadCut(f.data, cut - |tag|, l);
    }
  }

  lemma PayloadCut(data: Bytes, cut: nat, l: nat)
    requires var all := VarintBytes(|data|) + data; cut < |all| && cut <= l && l - cut + |all| < TwoTo63
    ensures Payload((VarintBytes(|data|) + data)[..cut], l) == Failed(UnexpectedEof)
  {
    var size := VarintBytes(|data|);
    if cut < |size| {
      assert (size + data)[..cut] == size[..cut];
      NumberCut(|data|, cut);
    } else {
      assert (size + data)[..cut] == size + data[..cut - |size|];
      PayloadOutcome(|data|, data[..cut - |size|], l);
    }
  }

  /** Where one of the fields ends, or the first begins. */
  ghost predicate AtBoundary(fs: seq<Field>, cut: nat) {
    exists j | 0 <= j <= |fs| :: |Wires(fs[..j])| == cut
  }

  lemma BoundaryAtStart(fs: seq<Field>, cut: nat)
    requires cut == 0
    ensures AtBoundary(fs, cut)
  {
    assert fs[..cut] == [] && |Wires(fs[..cut])| == cut;
  }

  lemma {:induction false} BoundaryBehind(fs: seq<Field>, cut: nat)
    requires fs != []
    ensures cut > 0 && AtBoundary(fs, cut) <==> cut >= |Wire(fs[0])| && AtBoundary(fs[1..], cut - |Wire(fs[0])|)
  {
    if cut > 0 && AtBoundary(fs, cut) {
      var j :| 0 <= j <= |fs| && |Wires(fs[..j])| == cut;
      assert fs[..j][1..] == fs[1..][..j - 1];
      assert |Wires(fs[1..][..j - 1])| == cut - |Wire(fs[0])|;
    }
    if cut >= |Wire(fs[0])| && AtBoundary(fs[1..], cut - |Wire(fs[0])|) {
      var j :| 0 <= j <= |fs[1..]| && |Wires(fs[1..][..j])| == cut - |Wire(fs[0])|;
      assert fs[..j + 1][1..] == fs[1..][..j];
      assert |Wires(fs[..j + 1])| == cut;
    }
  }

  lemma CutWithin(fs: seq<Field>, cut: nat)
    requires fs != [] && cut <= |Wires(fs)|
    ensures var w := Wire(fs[0]);
            Wires(fs)[..cut] == if cut < |w| then w[..cut] else w + Wires(fs[1..])[..cut - |w|]
  {
  }

  lemma CutInFirst<T>(s: Schema<T>, fs: seq<Field>, cut: nat, l: nat, m: T)
    requires fs != [] && Legal(fs[0]) && fs[0].Length? && fs[0].number <= s.known && 0 < cut < |Wire(fs[0])|
    requires cut <= l && l - cut + |Wires(fs)| < TwoTo63
    ensures Decode(s, Wires(fs)[..cut], l, m) == Failed(UnexpectedEof)
  {
    CutWithin(fs, cut);
    FieldCut(s.known, fs[0], cut, l);
  }

  lemma CutBehindFirst<T>(s: Schema<T>, fs: seq<Field>, cut: nat, l: nat, m: T)
    requires fs != [] && Legal(fs[0]) && fs[0].Length? && fs[0].number <= s.known && |Wire(fs[0])| <= cut <= |Wires(fs)|
    requires cut <= l < TwoTo63 && s.put(fs[0].number, fs[0].data, m).Ok?
    ensures Decode(s, Wires(fs)[..cut], l, m) ==
            Decode(s, Wires(fs[1..])[..cut - |Wire(fs[0])|], l, s.put(fs[0].number, fs[0].data, m).value)
  {
    var more := Wires(fs[1..])[..cut - |Wire(fs[0])|];
    CutWithin(fs, cut);
    KnownFieldReads(s, fs[0], more, l, m);
    assert Decode(s, Wire(fs[0]) + more, l, m) == Decode(s, more, l, s.put(fs[0].number, fs[0].data, m).value);
  }

  /** It is read exactly if the cut is between fields. */
  ghost predicate CutRead<T>(fs: seq<Field>, cut: nat, r: Decoded<T>) {
    if AtBoundary(fs, cut) then r.Ok? else r == Failed(UnexpectedEof)
  }

  lemma CutReadFirst<T>(fs: seq<Field>, cut: nat, r: Decoded<T>)
    requires fs != [] && 0 < cut < |Wire(fs[0])| && r == Failed(UnexpectedEof)
    ensures CutRead(fs, cut, r)
  {
    BoundaryBehind(fs, cut);
  }

  lemma CutReadBehind<T>(fs: seq<Field>, cut: nat, r: Decoded<T>)
    requires fs != [] && cut >= |Wire(fs[0])| && CutRead(fs[1..], cut - |Wire(fs[0])|, r)
    ensures CutRead(fs, cut, r)
  {
    BoundaryBehind(fs, cut);
  }

  /** A message of known fields that can all be stored, cut off somewhere. */
  lemma {:induction false} MessageCut<T>(s: Schema<T>, fs: seq<Field>, cut: nat, l: nat, m: T)
    requires s.known < MaxField && AllKnown(s.known, fs) && Stored(s, fs, m).Ok?
    requires cut <= |Wires(fs)| && cut <= l && l - cut + |Wires(fs)| < TwoTo63
    ensures CutRead(fs, cut, Decode(s, Wires(fs)[..cut], l, m))
    decreases |fs|
  {
    if cut == 0 {
      BoundaryAtStart(fs, cut);
    } else {
      var f, n := fs[0], |Wire(fs[0])|;
      assert f in fs;
      if cut < n {
        CutInFirst(s, fs, cut, l, m);
        CutReadFirst(fs, cut, Decode(s, Wires(fs)[..cut], l, m));
      } else {
        CutBehindFirst(s, fs, cut, l, m);
        MessageCut(s, fs[1..], cut - n, l, s.put(f.number, f.data, m).value);
        CutReadBehind(fs, cut, Decode(s, Wires(fs)[..cut], l, m));
      }
    }
  }

  /** An encoded message that is cut off is refused, unless the cut is between two of its fields. */
  lemma SpecCut(m: Spec, cut: nat)
    requires cut <= |EncodeSpec(m)| < TwoTo63
    ensures CutRead(SpecFields(m), cut, DecodeSpec(EncodeSpec(m)[..cut], EmptySpec))
  {
    var fs := SpecFields(m);
    var a, b, c := OptionalField(1, m.key), OptionalField(2, m.operator), ListFields(3, m.values);
    BothKnown(3, b, c);
    BothKnown(3, a, b + c);
    SpecStored(m);
    MessageCut(SpecSchema, fs, cut, cut, EmptySpec);
  }

  lemma FilterCut(m: Filter, cut: nat)
    requires cut <= |EncodeFilter(m)| < TwoTo63
    ensures CutRead(ListFields(1, EncodeSpecs(m.specs)), cut, Decode(FilterSchema, EncodeFilter(m)[..cut], cut, Filter([])))
  {
    var fs := ListFields(1, EncodeSpecs(m.specs));
    AllKnownLegal(1, fs);
    FilterRoundTrip(m);
    FieldsRead(FilterSchema, fs, |Wires(fs)|, Filter([]));
    MessageCut(FilterSchema, fs, cut, cut, Filter([]));
  }

  lemma WatchSpecCut(m: WatchSpec, cut: nat)
    requires cut <= |EncodeWatchSpec(m)| < TwoTo63
    ensures var fs := OptionalField(1, m.refVersion) + ListFields(2, EncodeSpecs(m.specs));
            CutRead(fs, cut, Decode(WatchSpecSchema, EncodeWatchSpec(m)[..cut], cut, WatchSpec([], [])))
  {
    var fs := OptionalField(1, m.refVersion) + ListFields(2, EncodeSpecs(m.specs));
    BothKnown(2, OptionalField(1, m.refVersion), ListFields(2, EncodeSpecs(m.specs)));
    AllKnownLegal(2, fs);
    WatchSpecRoundTrip(m);
    FieldsRead(WatchSpecSchema, fs, |Wires(fs)|, WatchSpec([], []));
    MessageCut(WatchSpecSchema, fs, cut, cut, WatchSpec([], []));
  }

  // ---- Fields in any order, and more than once ----

  /** What a field that occurs any number of times carries, in order. */
  function AllOf(number: nat, fs: seq<Field>): seq<Bytes> {
    if fs == [] then []
    else (if fs[0].Length? && fs[0].number == number then [fs[0].data] else []) + AllOf(number, fs[1..])
  }

  /** What a single-valued field ends up with: what its last occurrence carries, if it occurs. */
  function LastOf(number: nat, fs: seq<Field>, before: Bytes): Bytes {
    if AllOf(number, fs) == [] then before else AllOf(number, fs)[|AllOf(number, fs)| - 1]
  }

  lemma {:induction false} LastOfFirst(number: nat, fs: seq<Field>, before: Bytes)
    requires fs != []
    ensures LastOf(number, fs, before) ==
            LastOf(number, fs[1..], if fs[0].Length? && fs[0].number == number then fs[0].data else before)
  {
  }

  lemma {:induction false} AllOfFirst(number: nat, fs: seq<Field>)
    requires fs != []
    ensures AllOf(number, fs) ==
            if fs[0].Length? && fs[0].number == number then [fs[0].data] + AllOf(number, fs[1..]) else AllOf(number, fs[1..])
  {
  }

  lemma Appended<T>(a: seq<T>, x: T, b: seq<T>)
    ensures a + [x] + b == a + ([x] + b) && a + [] == a
  {
  }

  lemma {:induction false} SpecMerged(fs: seq<Field>, m: Spec)
    requires LegalFields(3, fs)
    ensures Stored(SpecSchema, fs, m) == Ok(Spec(LastOf(1, fs, m.key), LastOf(2, fs, m.operator), m.values + AllOf(3, fs)))
  {
    if fs == [] {
      assert m.values + [] == m.values;
    } else {
      var f, more := fs[0], fs[1..];
      LastOfFirst(1, fs, m.key);
      LastOfFirst(2, fs, m.operator);
      AllOfFirst(3, fs);
      if f.number > 3 {
        SpecMerged(more, m);
      } else {
        assert f in fs && Legal(f) && f.Length?;
        SpecMerged(more, PutSpec(f.number, f.data, m).value);
        Appended(m.values, f.data, AllOf(3, more));
      }
    }
  }

  /**
   Legal fields in any order, read into any spec: of the key and the operator the last
   occurrence counts, and every occurrence of a value is added, in the order they come.
   */
  lemma SpecFieldsRead(fs: seq<Field>, m: Spec)
    requires LegalFields(3, fs) && |Wires(fs)| < TwoTo63
    ensures DecodeSpec(Wires(fs), m) == Ok(Spec(LastOf(1, fs, m.key), LastOf(2, fs, m.operator), m.values + AllOf(3, fs)))
  {
    FieldsRead(SpecSchema, fs, |Wires(fs)|, m);
    SpecMerged(fs, m);
  }

  /** Specs read from these bytes, one from each. */
  ghost predicate SpecsRead(payloads: seq<Bytes>, specs: seq<Spec>) {
    |specs| == |payloads| && forall i | 0 <= i < |specs| :: DecodeSpec(payloads[i], EmptySpec) == Ok(specs[i])
  }

  lemma SpecsReadFirst(payload: Bytes, payloads: seq<Bytes>, spec: Spec, specs: seq<Spec>)
    requires DecodeSpec(payload, EmptySpec) == Ok(spec) && SpecsRead(payloads, specs)
    ensures SpecsRead([payload] + payloads, [spec] + specs)
  {
  }

  lemma {:induction false} WatchSpecMerged(fs: seq<Field>, m: WatchSpec) returns (specs: seq<Spec>)
    requires LegalFields(2, fs) && Stored(WatchSpecSchema, fs, m).Ok?
    ensures Stored(WatchSpecSchema, fs, m) == Ok(WatchSpec(LastOf(1, fs, m.refVersion), m.specs + specs))
    ensures SpecsRead(AllOf(2, fs), specs)
  {
    if fs == [] {
      specs := [];
      assert m.specs + specs == m.specs;
    } else {
      var f, more := fs[0], fs[1..];
      LastOfFirst(1, fs, m.refVersion);
      AllOfFirst(2, fs);
      if f.number > 2 {
        specs := WatchSpecMerged(more, m);
      } else {
        assert f in fs && Legal(f) && f.Length?;
        specs := WatchSpecMerged(more, PutWatchSpec(f.number, f.data, m).value);
        if f.number == 2 {
          var first := DecodeSpec(f.data, EmptySpec).value;
          Appended(m.specs, first, specs);
          SpecsReadFirst(f.data, AllOf(2, more), first, specs);
          specs := [first] + specs;
        }
      }
    }
  }

  /** The same for a watch specification that is read: its version is the last one, its specs are all of them in order. */
  lemma WatchSpecFieldsRead(fs: seq<Field>, m: WatchSpec) returns (specs: seq<Spec>)
    requires LegalFields(2, fs) && |Wires(fs)| < TwoTo63 && Decode(WatchSpecSchema, Wires(fs), |Wires(fs)|, m).Ok?
    ensures Decode(WatchSpecSchema, Wires(fs), |Wires(fs)|, m) == Ok(WatchSpec(LastOf(1, fs, m.refVersion), m.specs + specs))
    ensures SpecsRead(AllOf(2, fs), specs)
  {
    FieldsRead(WatchSpecSchema, fs, |Wires(fs)|, m);
    specs := WatchSpecMerged(fs, m);
  }

  lemma {:induction false} FilterMerged(fs: seq<Field>, m: Filter) returns (specs: seq<Spec>)
    requires LegalFields(1, fs) && Stored(FilterSchema, fs, m).Ok?
    ensures Stored(FilterSchema, fs, m) == Ok(Filter(m.specs + specs)) && SpecsRead(AllOf(1, fs), specs)
  {
    if fs == [] {
      specs := [];
      assert m.specs + specs == m.specs;
    } else {
      var f, more := fs[0], fs[1..];
      AllOfFirst(1, fs);
      if f.number > 1 {
        specs := FilterMerged(more, m);
      } else {
        assert f in fs && Legal(f) && f.Length?;
        var first := DecodeSpec(f.data, EmptySpec).value;
        specs := FilterMerged(more, Filter(m.specs + [first]));
        Appended(m.specs, first, specs);
        SpecsReadFirst(f.data, AllOf(1, more), first, specs);
        specs := [first] + specs;
      }
    }
  }

  lemma FilterFieldsRead(fs: seq<Field>, m: Filter) returns (specs: seq<Spec>)
    requires LegalFields(1, fs) && |Wires(fs)| < TwoTo63 && Decode(FilterSchema, Wires(fs), |Wires(fs)|, m).Ok?
    ensures Decode(FilterSchema, Wires(fs), |Wires(fs)|, m) == Ok(Filter(m.specs + specs)) && SpecsRead(AllOf(1, fs), specs)
  {
    FieldsRead(FilterSchema, fs, |Wires(fs)|, m);
    specs := FilterMerged(fs, m);
  }
}
