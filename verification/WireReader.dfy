/**
 Reading messages: an index moves through the bytes, and the fields of a message object are
 set as they are met. A slice is shorter than 2^63 bytes.
 */
module WireReader {
  import opened WireModel
  import opened WireRoundTrip

  /** A number and what follows it, with the index for what follows. */
  ghost predicate ReadTo<T>(d: Bytes, spec: Decoded<(T, Bytes)>, r: Decoded<(T, nat)>) {
    match spec
    case Failed(e) => r == Failed(e)
    case Panicked => r == Panicked
    case Ok((v, rest)) => r.Ok? && r.value.0 == v && r.value.1 <= |d| && rest == d[r.value.1..]
  }

  method ReadVarint(d: Bytes, i: nat) returns (r: Decoded<(nat, nat)>)
    requires i <= |d|
    ensures ReadTo(d, Varint(d[i..], 0, 0), r) && !r.Panicked?
  {
    var index, v: nat, shift, place := i, 0, 0, 1;
    ghost var k := 0;
    while true
      invariant i <= index <= |d| && shift == 7 * k && place == Pow128(k)
      invariant Varint(d[index..], k, v) == Varint(d[i..], 0, 0)
      decreases |d| - index
    {
      if shift >= 64 { return Failed(IntOverflow); }
      if index >= |d| { return Failed(UnexpectedEof); }
      var b := d[index];
      assert d[index..][1..] == d[index + 1..];
      index := index + 1;
      v := v + (b % 128 * place) % TwoTo64;
      if b < 128 { return Ok((v, index)); }
      shift, place := shift + 7, 128 * place;
      k := k + 1;
    }
  }

  method PassVarint(d: Bytes, i: nat) returns (r: Decoded<int>)
    requires i <= |d|
    ensures r == SkipDigits(d[i..], 0, i)
  {
    var index, shift := i, 0;
    ghost var k := 0;
    while true
      invariant i <= index <= |d| && shift == 7 * k
      invariant SkipDigits(d[index..], k, index) == SkipDigits(d[i..], 0, i)
      decreases |d| - index
    {
      if shift >= 64 { return Failed(IntOverflow); }
      if index >= |d| { return Failed(UnexpectedEof); }
      assert d[index..][1..] == d[index + 1..];
      index := index + 1;
      if d[index - 1] < 128 { return Ok(index); }
      shift := shift + 7;
      k := k + 1;
    }
  }

  /** In a slice a field is skipped forwards, or its end has wrapped around to below zero. */
  lemma SkipBounds(d: Bytes)
    requires |d| < TwoTo63 && SkipLength(d).Ok?
    ensures var n := SkipLength(d).value; 1 <= n < TwoTo63 || n < |d| - TwoTo63
  {
    var (wire, rest) := Varint(d, 0, 0).value;
    var i := |d| - |rest|;
    if wire % 8 == 2 {
      var (n, rest') := Varint(rest, 0, 0).value;
      WrappedBounds(|d| - |rest'| + n, |d|);
    } else {
      WrappedBounds(i + 8, |d|);
      WrappedBounds(i + 4, |d|);
    }
  }

  lemma WrappedBounds(end: nat, size: nat)
    requires 1 <= end < size + TwoTo63
    ensures 1 <= Wrapped(end) < TwoTo63 || Wrapped(end) < size - TwoTo63
  {
  }

  method Skip(d: Bytes) returns (r: Decoded<int>)
    requires |d| < TwoTo63
    ensures r == SkipLength(d)
    decreases |d|, 1
  {
    if |d| == 0 { return Panicked; }
    var tag := ReadVarint(d, 0);
    assert d[0..] == d;
    if tag.Failed? { return Failed(tag.error); }
    var wire, i := tag.value.0, tag.value.1;
    match wire % 8
    case 0 => r := PassVarint(d, i);
    case 1 => r := Ok(Wrapped(i + 8));
    case 2 =>
      var length := ReadVarint(d, i);
      if length.Failed? { return Failed(length.error); }
      var (n, next) := length.value;
      r := if n >= TwoTo63 then Failed(InvalidLength) else Ok(Wrapped(next + n));
    case 3 => r := SkipGroup(d, i);
    case 4 => r := Ok(i);
    case 5 => r := Ok(Wrapped(i + 4));
    case _ => r := Failed(IllegalWireType);
  }

  /** The fields of a group up to the tag that ends it. */
  method SkipGroup(d: Bytes, i: nat) returns (r: Decoded<int>)
    requires 0 < i <= |d| < TwoTo63
    ensures r == GroupLength(d, i)
    decreases |d|, 0
  {
    var start := i;
    while true
      invariant 0 < start && GroupLength(d, start) == GroupLength(d, i)
      decreases |d| - start
    {
      if start >= |d| { return Failed(UnexpectedEof); }
      var tag := ReadVarint(d, start);
      if tag.Failed? { return Failed(tag.error); }
      if tag.value.0 % 8 == 4 { return Ok(tag.value.1); }
      var next := Skip(d[start..]);
      if !next.Ok? { return next; }
      SkipBounds(d[start..]);
      var index := Wrapped(start + next.value);
      if index < 0 { return Panicked; }
      start := index;
    }
  }

  method ReadPayload(d: Bytes, i: nat) returns (r: Decoded<(Bytes, nat)>)
    requires i <= |d| < TwoTo63
    ensures ReadTo(d, Payload(d[i..], |d|), r)
  {
    var length := ReadVarint(d, i);
    if length.Failed? { return Failed(length.error); }
    var (n, next) := length.value;
    if n >= TwoTo63 { return Failed(InvalidLength); }
    var post := Wrapped(next + n);
    if post > |d| { return Failed(UnexpectedEof); }
    if post < next { return Panicked; }
    assert d[next..][..n] == d[next..post] && d[next..][n..] == d[post..];
    r := Ok((d[next..post], post));
  }

  method PassField(d: Bytes, i: nat) returns (r: Decoded<(Seen, nat)>)
    requires i < |d| < TwoTo63
    ensures ReadTo(d, match Skipped(d[i..], |d|)
                      case Failed(e) => Failed(e)
                      case Panicked => Panicked
                      case Ok(rest) => Ok((Other, rest)), r)
  {
    var skippy := Skip(d[i..]);
    if skippy.Failed? { return Failed(skippy.error); }
    if skippy.Panicked? { return Panicked; }
    SkipBounds(d[i..]);
    if skippy.value < 0 { return Failed(InvalidLength); }
    var post := Wrapped(i + skippy.value);
    if post > |d| { return Failed(UnexpectedEof); }
    if post < 0 { return Panicked; }
    assert d[i..][skippy.value..] == d[post..];
    r := Ok((Other, post));
  }

  /** The next field; `begun` is its number when it is known and its bytes cannot be sliced. */
  method ReadField(known: nat, d: Bytes, i: nat) returns (r: Decoded<(Seen, nat)>, begun: nat)
    requires i < |d| < TwoTo63
    ensures ReadTo(d, NextField(known, d[i..], |d|), r)
    ensures r.Panicked? ==> begun == BegunField(known, d[i..])
  {
    begun := 0;
    var tag := ReadVarint(d, i);
    if tag.Failed? { return Failed(tag.error), 0; }
    var (wire, next) := tag.value;
    var field := FieldNumber(wire);
    if wire % 8 == 4 { return Failed(EndGroupOutside), 0; }
    if field <= 0 { return Failed(IllegalTag), 0; }
    if field > known {
      r := PassField(d, i);
    } else if wire % 8 != 2 {
      r := Failed(WrongWireType);
    } else {
      var payload := ReadPayload(d, next);
      match payload
      case Failed(e) => r := Failed(e);
      case Panicked => r, begun := Panicked, field;
      case Ok((bytes, post)) => r := Ok((Carried(field, bytes), post));
    }
  }

  /** How a message object that is read into ends up, also when reading it fails. */
  ghost predicate Became<T>(spec: Decoded<T>, left: T, r: Decoded<()>, m: T) {
    && m == left
    && match spec
       case Failed(e) => r == Failed(e)
       case Panicked => r == Panicked
       case Ok(m') => r.Ok? && m == m'
  }

  /** One field, for the message as reading leaves it. */
  lemma LeftStep<T>(s: Schema<T>, d: Bytes, i: nat, m: T, r: Decoded<(Seen, nat)>)
    requires i < |d| && ReadTo(d, NextField(s.known, d[i..], |d|), r)
    ensures r.Failed? ==> Left(s, d[i..], |d|, m) == m
    ensures r.Panicked? ==> Left(s, d[i..], |d|, m) == LeftBegun(s, d[i..], m)
    ensures r.Ok? ==> i < r.value.1 <= |d|
    ensures r.Ok? && r.value.0.Other? ==> Left(s, d[i..], |d|, m) == Left(s, d[r.value.1..], |d|, m)
    ensures r.Ok? && r.value.0.Carried? ==>
              Left(s, d[i..], |d|, m) == LeftAfter(s, r.value.0.number, r.value.0.payload, m, d, r.value.1)
  {
  }

  ghost function LeftAfter<T>(s: Schema<T>, number: nat, payload: Bytes, m: T, d: Bytes, i: nat): T
    requires i <= |d|
  {
    var r := s.put(number, payload, m);
    if r.Ok? then Left(s, d[i..], |d|, r.value) else s.left(number, payload, m)
  }

  /** One field read into a message. */
  lemma ReadStep<T>(s: Schema<T>, d: Bytes, i: nat, m: T, r: Decoded<(Seen, nat)>)
    requires i < |d| && ReadTo(d, NextField(s.known, d[i..], |d|), r)
    ensures r.Failed? ==> Decode(s, d[i..], |d|, m) == Failed(r.error)
    ensures r.Panicked? ==> Decode(s, d[i..], |d|, m) == Panicked
    ensures r.Ok? ==> i < r.value.1 <= |d|
    ensures r.Ok? && r.value.0.Other? ==> Decode(s, d[i..], |d|, m) == Decode(s, d[r.value.1..], |d|, m)
    ensures r.Ok? && r.value.0.Carried? ==>
              && |r.value.0.payload| <= |d|
              && Decode(s, d[i..], |d|, m) == Continued(s, s.put(r.value.0.number, r.value.0.payload, m), d, r.value.1)
  {
  }

  /** What is read when a field has been stored, or not, and the rest is still to be read. */
  ghost function Continued<T>(s: Schema<T>, stored: Decoded<T>, d: Bytes, i: nat): Decoded<T>
    requires i <= |d|
  {
    match stored
    case Failed(e) => Failed(e)
    case Panicked => Panicked
    case Ok(m) => Decode(s, d[i..], |d|, m)
  }

  class SpecMessage {
    var key: Bytes
    var operator: Bytes
    var values: seq<Bytes>

    constructor ()
      ensures Value() == EmptySpec
    {
      key, operator, values := [], [], [];
    }

    function Value(): Spec
      reads this
    {
      Spec(key, operator, values)
    }

    /** The bytes are read into the message; a message of its own bytes is read back whole. */
    method Unmarshal(d: Bytes) returns (r: Decoded<()>)
      requires |d| < TwoTo63
      modifies this
      ensures Became(DecodeSpec(d, old(Value())), Left(SpecSchema, d, |d|, old(Value())), r, Value())
    {
      var i := 0;
      assert d[0..] == d;
      while i < |d|
        invariant i <= |d| && Decode(SpecSchema, d[i..], |d|, Value()) == DecodeSpec(d, old(Value()))
        invariant Left(SpecSchema, d[i..], |d|, Value()) == Left(SpecSchema, d, |d|, old(Value()))
      {
        var field, begun := ReadField(3, d, i);
        ReadStep(SpecSchema, d, i, Value(), field);
        LeftStep(SpecSchema, d, i, Value(), field);
        match field {
          case Failed(e) => return Failed(e);
          case Panicked => return Panicked;
          case Ok((seen, post)) =>
            if seen.Carried? {
              match seen.number {
                case 1 => key := seen.payload;
                case 2 => operator := seen.payload;
                case _ => values := values + [seen.payload];
              }
            }
            i := post;
        }
      }
      r := Ok(());
    }
  }

  class FilterMessage {
    var specs: seq<Spec>

    constructor ()
      ensures Value() == Filter([])
    {
      specs := [];
    }

    function Value(): Filter
      reads this
    {
      Filter(specs)
    }

    method Unmarshal(d: Bytes) returns (r: Decoded<()>)
      requires |d| < TwoTo63
      modifies this
      ensures Became(Decode(FilterSchema, d, |d|, old(Value())), Left(FilterSchema, d, |d|, old(Value())), r, Value())
    {
      var i := 0;
      assert d[0..] == d;
      while i < |d|
        invariant i <= |d|
        invariant Decode(FilterSchema, d[i..], |d|, Value()) == Decode(FilterSchema, d, |d|, old(Value()))
        invariant Left(FilterSchema, d[i..], |d|, Value()) == Left(FilterSchema, d, |d|, old(Value()))
      {
        var field, begun := ReadField(1, d, i);
        ReadStep(FilterSchema, d, i, Value(), field);
        LeftStep(FilterSchema, d, i, Value(), field);
        match field {
          case Failed(e) => return Failed(e);
          case Panicked =>
            if begun == 1 { specs := specs + [EmptySpec]; }
            return Panicked;
          case Ok((seen, post)) =>
            if seen.Carried? {
              var spec := new SpecMessage();
              r := spec.Unmarshal(seen.payload);
              specs := specs + [spec.Value()];
              if !r.Ok? { return; }
            }
            i := post;
        }
      }
      r := Ok(());
    }
  }

  class WatchSpecMessage {
    var refVersion: Bytes
    var specs: seq<Spec>

    constructor ()
      ensures Value() == WatchSpec([], [])
    {
      refVersion, specs := [], [];
    }

    function Value(): WatchSpec
      reads this
    {
      WatchSpec(refVersion, specs)
    }

    method Unmarshal(d: Bytes) returns (r: Decoded<()>)
      requires |d| < TwoTo63
      modifies this
      ensures Became(Decode(WatchSpecSchema, d, |d|, old(Value())), Left(WatchSpecSchema, d, |d|, old(Value())), r, Value())
    {
      var i := 0;
      assert d[0..] == d;
      while i < |d|
        invariant i <= |d|
        invariant Decode(WatchSpecSchema, d[i..], |d|, Value()) == Decode(WatchSpecSchema, d, |d|, old(Value()))
        invariant Left(WatchSpecSchema, d[i..], |d|, Value()) == Left(WatchSpecSchema, d, |d|, old(Value()))
      {
        var field, begun := ReadField(2, d, i);
        ReadStep(WatchSpecSchema, d, i, Value(), field);
        LeftStep(WatchSpecSchema, d, i, Value(), field);
        match field {
          case Failed(e) => return Failed(e);
          case Panicked =>
            if begun == 2 { specs := specs + [EmptySpec]; }
            return Panicked;
          case Ok((seen, post)) =>
            if seen.Carried? && seen.number == 1 {
              refVersion := seen.payload;
            } else if seen.Carried? {
              var spec := new SpecMessage();
              r := spec.Unmarshal(seen.payload);
              specs := specs + [spec.Value()];
              if !r.Ok? { return; }
            }
            i := post;
        }
      }
      r := Ok(());
    }
  }
}
