/**
 The codec as it works: sizes counted up, bytes written into a buffer by index, and messages
 read by an index that moves through the bytes.
 */
module WireCodec {
  import opened WireModel
  import opened WireRoundTrip

  // ---- Sizes ----

  method Sov(v: nat) returns (n: nat)
    ensures n == |VarintBytes(v)|
  {
    n := 0;
    var x := v;
    while true
      invariant n + |VarintBytes(x)| == |VarintBytes(v)|
      decreases x
    {
      n := n + 1;
      x := x / 128;
      if x == 0 { break; }
    }
  }

  lemma {:induction false} WiresMore(a: seq<Field>, b: seq<Field>)
    ensures Wires(a + b) == Wires(a) + Wires(b)
  {
    if a == [] {
      assert a + b == b;
    } else {
      assert (a + b)[0] == a[0] && (a + b)[1..] == a[1..] + b;
      WiresMore(a[1..], b);
    }
  }

  lemma WiresOne(a: seq<Field>, f: Field)
    ensures Wires(a + [f]) == Wires(a) + Wire(f) && Wires([f]) == Wire(f)
  {
    assert Wires([f]) == Wire(f) + Wires([]) && Wire(f) + [] == Wire(f);
    WiresMore(a, [f]);
  }

  lemma ListPrefix(number: nat, data: seq<Bytes>, i: nat)
    requires i < |data|
    ensures ListFields(number, data[..i + 1]) == ListFields(number, data[..i]) + [Length(number, data[i])]
  {
  }

  lemma SmallTag(number: nat)
    requires 1 <= number <= 3
    ensures Tag(number, 2) == [number * 8 + 2]
  {
  }

  method DelimitedSize(number: nat, data: Bytes) returns (n: nat)
    requires 1 <= number <= 3
    ensures n == |Wire(Length(number, data))|
  {
    var s := Sov(|data|);
    SmallTag(number);
    n := 1 + |data| + s;
  }

  method ListSize(number: nat, data: seq<Bytes>) returns (n: nat)
    requires 1 <= number <= 3
    ensures n == |Wires(ListFields(number, data))|
  {
    n := 0;
    assert ListFields(number, data[..0]) == [];
    for i := 0 to |data|
      invariant n == |Wires(ListFields(number, data[..i]))|
    {
      var s := DelimitedSize(number, data[i]);
      ListPrefix(number, data, i);
      WiresOne(ListFields(number, data[..i]), Length(number, data[i]));
      n := n + s;
    }
    assert data[..|data|] == data;
  }

  method OptionalSize(number: nat, data: Bytes) returns (n: nat)
    requires 1 <= number <= 3
    ensures n == |Wires(OptionalField(number, data))|
  {
    n := 0;
    if |data| > 0 {
      n := DelimitedSize(number, data);
      WiresOne([], Length(number, data));
    }
  }

  /** The size of a spec is the number of bytes it is written in. */
  method SpecSize(m: Spec) returns (n: nat)
    ensures n == |EncodeSpec(m)|
  {
    var a := OptionalSize(1, m.key);
    var b := OptionalSize(2, m.operator);
    var c := ListSize(3, m.values);
    SpecWires(m);
    n := a + b + c;
  }

  lemma SpecWires(m: Spec)
    ensures EncodeSpec(m) ==
            Wires(OptionalField(1, m.key)) + (Wires(OptionalField(2, m.operator)) + Wires(ListFields(3, m.values)))
  {
    WiresMore(OptionalField(2, m.operator), ListFields(3, m.values));
    WiresMore(OptionalField(1, m.key), OptionalField(2, m.operator) + ListFields(3, m.values));
  }

  method SpecsSize(number: nat, specs: seq<Spec>) returns (n: nat)
    requires 1 <= number <= 3
    ensures n == |Wires(ListFields(number, EncodeSpecs(specs)))|
  {
    n := 0;
    ghost var data := EncodeSpecs(specs);
    assert ListFields(number, data[..0]) == [];
    for i := 0 to |specs|
      invariant n == |Wires(ListFields(number, data[..i]))|
    {
      var l := SpecSize(specs[i]);
      var s := Sov(l);
      SmallTag(number);
      ListPrefix(number, data, i);
      WiresOne(ListFields(number, data[..i]), Length(number, data[i]));
      n := n + (1 + l + s);
    }
    assert data[..|data|] == data;
  }

  method FilterSize(m: Filter) returns (n: nat)
    ensures n == |EncodeFilter(m)|
  {
    n := SpecsSize(1, m.specs);
  }

  method WatchSpecSize(m: WatchSpec) returns (n: nat)
    ensures n == |EncodeWatchSpec(m)|
  {
    var a := OptionalSize(1, m.refVersion);
    var b := SpecsSize(2, m.specs);
    WiresMore(OptionalField(1, m.refVersion), ListFields(2, EncodeSpecs(m.specs)));
    n := a + b;
  }

  // ---- Writing ----

  /** A buffer with these bytes put in at an index, and nothing else changed. */
  ghost function Patched(buffer: Bytes, at: nat, bytes: Bytes): (after: Bytes)
    requires at + |bytes| <= |buffer|
    ensures |after| == |buffer|
  {
    buffer[..at] + bytes + buffer[at + |bytes|..]
  }

  lemma PatchedMore(buffer: Bytes, at: nat, a: Bytes, b: Bytes)
    requires at + |a| + |b| <= |buffer|
    ensures Patched(Patched(buffer, at, a), at + |a|, b) == Patched(buffer, at, a + b)
  {
  }

  method PutByte(a: array<Byte>, at: nat, b: Byte)
    requires at < a.Length
    modifies a
    ensures a[..] == Patched(old(a[..]), at, [b])
  {
    a[at] := b;
  }

  method Copy(a: array<Byte>, at: nat, bytes: Bytes)
    requires at + |bytes| <= a.Length
    modifies a
    ensures a[..] == Patched(old(a[..]), at, bytes)
  {
    forall i | 0 <= i < |bytes| { a[at + i] := bytes[i]; }
  }

  /** One more byte behind those already put in. */
  method PutNext(a: array<Byte>, at: nat, b: Byte, ghost before: Bytes, ghost done: Bytes, next: nat)
    requires next == at + |done| < a.Length == |before| && a[..] == Patched(before, at, done)
    modifies a
    ensures a[..] == Patched(before, at, done + [b])
  {
    PutByte(a, next, b);
    PatchedMore(before, at, done, [b]);
  }

  lemma VarintSplit(done: Bytes, x: nat)
    requires x >= 128
    ensures done + VarintBytes(x) == done + [x % 128 + 128] + VarintBytes(x / 128)
  {
  }

  method EncodeVarint(a: array<Byte>, at: nat, v: nat) returns (next: nat)
    requires at + |VarintBytes(v)| <= a.Length
    modifies a
    ensures next == at + |VarintBytes(v)| && a[..] == Patched(old(a[..]), at, VarintBytes(v))
  {
    ghost var before, done: Bytes := a[..], [];
    var x := v;
    next := at;
    assert before == Patched(before, at, []);
    while x >= 128
      invariant done + VarintBytes(x) == VarintBytes(v) && next == at + |done|
      invariant a[..] == Patched(before, at, done)
    {
      VarintSplit(done, x);
      PutNext(a, at, x % 128 + 128, before, done, next);
      done := done + [x % 128 + 128];
      x := x / 128;
      next := next + 1;
    }
    PutNext(a, at, x, before, done, next);
    next := next + 1;
  }

  /** The buffer holds these fields from an index on. */
  ghost predicate Holds(before: Bytes, after: Bytes, at: nat, fs: seq<Field>, next: nat) {
    next == at + |Wires(fs)| <= |before| && after == Patched(before, at, Wires(fs))
  }

  lemma HoldsMore(b0: Bytes, b1: Bytes, b2: Bytes, at: nat, fs: seq<Field>, more: seq<Field>, mid: nat, next: nat)
    requires Holds(b0, b1, at, fs, mid) && Holds(b1, b2, mid, more, next)
    ensures Holds(b0, b2, at, fs + more, next)
  {
    WiresMore(fs, more);
    PatchedMore(b0, at, Wires(fs), Wires(more));
  }

  lemma HoldsNone(b: Bytes, at: nat)
    requires at <= |b|
    ensures Holds(b, b, at, [], at)
  {
    assert b == Patched(b, at, []);
  }

  /** A tag and a length, with room behind them for what they announce. */
  method PutHead(a: array<Byte>, at: nat, number: nat, length: nat) returns (next: nat)
    requires 1 <= number <= 3 && at + 1 + |VarintBytes(length)| <= a.Length
    modifies a
    ensures next == at + 1 + |VarintBytes(length)|
    ensures a[..] == Patched(old(a[..]), at, Tag(number, 2) + VarintBytes(length))
  {
    SmallTag(number);
    PutByte(a, at, number * 8 + 2);
    next := EncodeVarint(a, at + 1, length);
    PatchedMore(old(a[..]), at, [number * 8 + 2], VarintBytes(length));
  }

  lemma HoldsOne(b0: Bytes, b1: Bytes, b2: Bytes, at: nat, number: nat, data: Bytes)
    requires at + |Wire(Length(number, data))| <= |b0|
    requires var head := Tag(number, 2) + VarintBytes(|data|);
             b1 == Patched(b0, at, head) && b2 == Patched(b1, at + |head|, data)
    ensures Holds(b0, b2, at, [Length(number, data)], at + |Wire(Length(number, data))|)
  {
    var head := Tag(number, 2) + VarintBytes(|data|);
    PatchedMore(b0, at, head, data);
    WiresOne([], Length(number, data));
    assert head + data == Wire(Length(number, data));
  }

  method PutField(a: array<Byte>, at: nat, number: nat, data: Bytes) returns (next: nat)
    requires 1 <= number <= 3 && at + |Wire(Length(number, data))| <= a.Length
    modifies a
    ensures Holds(old(a[..]), a[..], at, [Length(number, data)], next)
  {
    SmallTag(number);
    next := PutHead(a, at, number, |data|);
    ghost var b1 := a[..];
    Copy(a, next, data);
    HoldsOne(old(a[..]), b1, a[..], at, number, data);
    next := next + |data|;
  }

  method PutOptional(a: array<Byte>, at: nat, number: nat, data: Bytes) returns (next: nat)
    requires 1 <= number <= 3 && at + |Wires(OptionalField(number, data))| <= a.Length
    modifies a
    ensures Holds(old(a[..]), a[..], at, OptionalField(number, data), next)
  {
    if |data| > 0 {
      WiresOne([], Length(number, data));
      next := PutField(a, at, number, data);
    } else {
      HoldsNone(a[..], at);
      next := at;
    }
  }

  lemma PrefixFits(number: nat, data: seq<Bytes>, i: nat)
    requires i < |data|
    ensures |Wires(ListFields(number, data[..i]))| + |Wire(Length(number, data[i]))| <= |Wires(ListFields(number, data))|
  {
    ListPrefix(number, data, i);
    var done := ListFields(number, data[..i]);
    WiresOne(done, Length(number, data[i]));
    var fs := ListFields(number, data);
    assert fs == ListFields(number, data[..i + 1]) + fs[i + 1..];
    WiresMore(ListFields(number, data[..i + 1]), fs[i + 1..]);
  }

  method PutList(a: array<Byte>, at: nat, number: nat, data: seq<Bytes>) returns (next: nat)
    requires 1 <= number <= 3 && at + |Wires(ListFields(number, data))| <= a.Length
    modifies a
    ensures Holds(old(a[..]), a[..], at, ListFields(number, data), next)
  {
    next := at;
    assert ListFields(number, data[..0]) == [];
    HoldsNone(a[..], at);
    for i := 0 to |data|
      invariant Holds(old(a[..]), a[..], at, ListFields(number, data[..i]), next)
    {
      PrefixFits(number, data, i);
      ghost var b1, mid := a[..], next;
      next := PutField(a, next, number, data[i]);
      ListPrefix(number, data, i);
      HoldsMore(old(a[..]), b1, a[..], at, ListFields(number, data[..i]), [Length(number, data[i])], mid, next);
    }
    assert data[..|data|] == data;
  }

  /** A spec is written in exactly its bytes, and the buffer is otherwise left alone. */
  method MarshalSpecTo(a: array<Byte>, at: nat, m: Spec) returns (next: nat)
    requires at + |EncodeSpec(m)| <= a.Length
    modifies a
    ensures Holds(old(a[..]), a[..], at, SpecFields(m), next)
  {
    ghost var f1, f2, f3 := OptionalField(1, m.key), OptionalField(2, m.operator), ListFields(3, m.values);
    SpecWires(m);
    var i := PutOptional(a, at, 1, m.key);
    ghost var b1 := a[..];
    var j := PutOptional(a, i, 2, m.operator);
    ghost var b2 := a[..];
    next := PutList(a, j, 3, m.values);
    HoldsMore(b1, b2, a[..], i, f2, f3, j, next);
    HoldsMore(old(a[..]), b1, a[..], at, f1, f2 + f3, i, next);
  }

  method PutSpec(a: array<Byte>, at: nat, number: nat, m: Spec) returns (next: nat)
    requires 1 <= number <= 3 && at + |Wire(Length(number, EncodeSpec(m)))| <= a.Length
    modifies a
    ensures Holds(old(a[..]), a[..], at, [Length(number, EncodeSpec(m))], next)
  {
    SmallTag(number);
    var size := SpecSize(m);
    var i := PutHead(a, at, number, size);
    ghost var b1 := a[..];
    next := MarshalSpecTo(a, i, m);
    HoldsOne(old(a[..]), b1, a[..], at, number, EncodeSpec(m));
  }

  method PutSpecs(a: array<Byte>, at: nat, number: nat, specs: seq<Spec>) returns (next: nat)
    requires 1 <= number <= 3 && at + |Wires(ListFields(number, EncodeSpecs(specs)))| <= a.Length
    modifies a
    ensures Holds(old(a[..]), a[..], at, ListFields(number, EncodeSpecs(specs)), next)
  {
    ghost var data := EncodeSpecs(specs);
    next := at;
    assert ListFields(number, data[..0]) == [];
    HoldsNone(a[..], at);
    for i := 0 to |specs|
      invariant Holds(old(a[..]), a[..], at, ListFields(number, data[..i]), next)
    {
      PrefixFits(number, data, i);
      ghost var b1, mid := a[..], next;
      next := PutSpec(a, next, number, specs[i]);
      ListPrefix(number, data, i);
      HoldsMore(old(a[..]), b1, a[..], at, ListFields(number, data[..i]), [Length(number, data[i])], mid, next);
    }
    assert data[..|data|] == data;
  }

  method MarshalFilterTo(a: array<Byte>, m: Filter) returns (next: nat)
    requires |EncodeFilter(m)| <= a.Length
    modifies a
    ensures next == |EncodeFilter(m)| && a[..] == EncodeFilter(m) + old(a[next..])
  {
    next := PutSpecs(a, 0, 1, m.specs);
  }

  method MarshalWatchSpecTo(a: array<Byte>, m: WatchSpec) returns (next: nat)
    requires |EncodeWatchSpec(m)| <= a.Length
    modifies a
    ensures next == |EncodeWatchSpec(m)| && a[..] == EncodeWatchSpec(m) + old(a[next..])
  {
    ghost var f1, f2 := OptionalField(1, m.refVersion), ListFields(2, EncodeSpecs(m.specs));
    WiresMore(f1, f2);
    var i := PutOptional(a, 0, 1, m.refVersion);
    ghost var b1 := a[..];
    next := PutSpecs(a, i, 2, m.specs);
    HoldsMore(old(a[..]), b1, a[..], 0, f1, f2, i, next);
  }

  /** A buffer of the message's size is filled to its end. */
  method MarshalSpec(m: Spec) returns (data: Bytes)
    ensures data == EncodeSpec(m)
  {
    var size := SpecSize(m);
    var a := new Byte[size];
    var n := MarshalSpecTo(a, 0, m);
    data := a[..n];
  }

  method MarshalFilter(m: Filter) returns (data: Bytes)
    ensures data == EncodeFilter(m)
  {
    var size := FilterSize(m);
    var a := new Byte[size];
    var n := MarshalFilterTo(a, m);
    data := a[..n];
  }

  method MarshalWatchSpec(m: WatchSpec) returns (data: Bytes)
    ensures data == EncodeWatchSpec(m)
  {
    var size := WatchSpecSize(m);
    var a := new Byte[size];
    var n := MarshalWatchSpecTo(a, m);
    data := a[..n];
  }
}
