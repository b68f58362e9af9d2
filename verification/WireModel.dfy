/**
 The Protocol Buffers wire format of the API's filter messages: what is written, and what
 the decoder does with any bytes at all.
 */
module WireModel {
  type Byte = b: int | 0 <= b < 256

  type Bytes = seq<Byte>

  /** Strings are bytes here: nothing looks at their encoding. */
  datatype Spec = Spec(key: Bytes, operator: Bytes, values: seq<Bytes>)

  datatype Filter = Filter(specs: seq<Spec>)

  datatype WatchSpec = WatchSpec(refVersion: Bytes, specs: seq<Spec>)

  const TwoTo31 := 0x8000_0000
  const TwoTo32 := 0x1_0000_0000
  const TwoTo63 := 0x8000_0000_0000_0000
  const TwoTo64 := 0x1_0000_0000_0000_0000

  datatype Error =
    | IntOverflow | UnexpectedEof | InvalidLength
    | EndGroupOutside | IllegalTag | WrongWireType | IllegalWireType

  /** A slice or an index out of range is a panic. */
  datatype Decoded<+T> = Ok(value: T) | Failed(error: Error) | Panicked

  // ---- Writing ----

  function VarintBytes(v: nat): (b: Bytes)
    ensures b != []
  {
    if v < 128 then [v] else [v % 128 + 128] + VarintBytes(v / 128)
  }

  function Tag(field: nat, wireType: nat): Bytes {
    VarintBytes(field * 8 + wireType)
  }

  /** A length-delimited field. */
  function Delimited(field: nat, payload: Bytes): Bytes {
    Tag(field, 2) + (VarintBytes(|payload|) + payload)
  }

  // ---- Reading numbers ----

  function Pow128(k: nat): nat {
    if k == 0 then 1 else 128 * Pow128(k - 1)
  }

  /** A number of which k bytes, making `acc`, are read: seven bits a byte, in 64 bits, in ten bytes at most. */
  function Varint(rest: Bytes, k: nat, acc: nat): (r: Decoded<(nat, Bytes)>)
    ensures !r.Panicked? && (r.Ok? ==> |r.value.1| < |rest|)
    decreases |rest|
  {
    if k >= 10 then Failed(IntOverflow)
    else if rest == [] then Failed(UnexpectedEof)
    else
      var acc' := acc + (rest[0] % 128 * Pow128(k)) % TwoTo64;
      if rest[0] < 128 then Ok((acc', rest[1..])) else Varint(rest[1..], k + 1, acc')
  }

  /** A sum of machine integers. */
  function Wrapped(x: int): int {
    if x >= TwoTo63 then x - TwoTo64 else x
  }

  function FieldNumber(wire: nat): int {
    var n := wire / 8 % TwoTo32;
    if n >= TwoTo31 then n - TwoTo32 else n
  }

  // ---- Skipping a field ----

  /** Where in `d` the field that starts it ends; that may be past the end of `d`. */
  function SkipLength(d: Bytes): Decoded<int>
    decreases |d|, 0
  {
    if d == [] then Panicked
    else
      match Varint(d, 0, 0)
      case Failed(e) => Failed(e)
      case Panicked => Panicked
      case Ok((wire, rest)) =>
        var i := |d| - |rest|;
        match wire % 8
        case 0 => SkipDigits(rest, 0, i)
        case 1 => Ok(Wrapped(i + 8))
        case 2 => (
          match Varint(rest, 0, 0)
          case Failed(e) => Failed(e)
          case Panicked => Panicked
          case Ok((n, rest')) => if n >= TwoTo63 then Failed(InvalidLength) else Ok(Wrapped(|d| - |rest'| + n)))
        case 3 => GroupLength(d, i)
        case 4 => Ok(i)
        case 5 => Ok(Wrapped(i + 4))
        case _ => Failed(IllegalWireType)
  }

  /** The end of a number whose value does not matter. */
  function SkipDigits(rest: Bytes, k: nat, i: nat): (r: Decoded<int>)
    ensures r.Ok? ==> i < r.value <= i + |rest|
    decreases |rest|
  {
    if k >= 10 then Failed(IntOverflow)
    else if rest == [] then Failed(UnexpectedEof)
    else if rest[0] < 128 then Ok(i + 1)
    else SkipDigits(rest[1..], k + 1, i + 1)
  }

  /**
   The end of a group whose fields from `start` on are still to be skipped. In a slice, which
   is shorter than 2^63, only a sum that wrapped around is not past `start`, and it is negative.
   */
  function GroupLength(d: Bytes, start: nat): (r: Decoded<int>)
    ensures r.Ok? ==> start < r.value <= |d|
    decreases if start <= |d| then |d| - start else 0, 1
  {
    if start >= |d| then Failed(UnexpectedEof)
    else
      match Varint(d[start..], 0, 0)
      case Failed(e) => Failed(e)
      case Panicked => Panicked
      case Ok((wire, rest)) =>
        if wire % 8 == 4 then Ok(|d| - |rest|)
        else
          match SkipLength(d[start..])
          case Failed(e) => Failed(e)
          case Panicked => Panicked
          case Ok(n) =>
            if Wrapped(start + n) <= start then Panicked else GroupLength(d, Wrapped(start + n))
  }

  // ---- Reading a message ----

  /**
   A message: its fields are numbered from 1 to `known`, `put` stores what one of them carries,
   `left` is the message when that fails, and `begun` when not even its bytes can be sliced.
   */
  datatype Schema<!T> = Schema(
    known: nat,
    put: (nat, Bytes, T) -> Decoded<T>,
    left: (nat, Bytes, T) -> T,
    begun: (nat, T) -> T)

  /** The bytes of a length-delimited field, in a message of length `l`. */
  function Payload(rest: Bytes, l: nat): (r: Decoded<(Bytes, Bytes)>)
    ensures r.Ok? ==> |r.value.1| < |rest|
  {
    match Varint(rest, 0, 0)
    case Failed(e) => Failed(e)
    case Panicked => Panicked
    case Ok((n, rest')) =>
      if n >= TwoTo63 then Failed(InvalidLength)
      else if l - |rest'| + n >= TwoTo63 then Panicked
      else if n > |rest'| then Failed(UnexpectedEof)
      else Ok((rest'[..n], rest'[n..]))
  }

  /** What follows a field that is skipped. */
  function Skipped(rest: Bytes, l: nat): (r: Decoded<Bytes>)
    requires rest != []
    ensures r.Ok? ==> |r.value| < |rest|
  {
    match SkipLength(rest)
    case Failed(e) => Failed(e)
    case Panicked => Panicked
    case Ok(n) =>
      if n <= 0 then Failed(InvalidLength)
      else if l - |rest| + n >= TwoTo63 then Panicked
      else if n > |rest| then Failed(UnexpectedEof)
      else Ok(rest[n..])
  }

  /** A field: one the message knows, with its bytes, or another. */
  datatype Seen = Carried(number: nat, payload: Bytes) | Other

  /** The field at the start of the rest of a message of length `l`, and what follows it. */
  function NextField(known: nat, rest: Bytes, l: nat): (r: Decoded<(Seen, Bytes)>)
    requires rest != []
    ensures r.Ok? ==> |r.value.1| < |rest|
  {
    match Varint(rest, 0, 0)
    case Failed(e) => Failed(e)
    case Panicked => Panicked
    case Ok((wire, rest')) =>
      var field := FieldNumber(wire);
      if wire % 8 == 4 then Failed(EndGroupOutside)
      else if field <= 0 then Failed(IllegalTag)
      else if field > known then
        match Skipped(rest, l)
        case Failed(e) => Failed(e)
        case Panicked => Panicked
        case Ok(rest'') => Ok((Other, rest''))
      else if wire % 8 != 2 then Failed(WrongWireType)
      else
        match Payload(rest', l)
        case Failed(e) => Failed(e)
        case Panicked => Panicked
        case Ok((payload, rest'')) => Ok((Carried(field, payload), rest''))
  }

  function DecodeField<T>(s: Schema<T>, rest: Bytes, l: nat, m: T): (r: Decoded<(T, Bytes)>)
    requires rest != []
    ensures r.Ok? ==> |r.value.1| < |rest|
  {
    match NextField(s.known, rest, l)
    case Failed(e) => Failed(e)
    case Panicked => Panicked
    case Ok((Other, rest')) => Ok((m, rest'))
    case Ok((Carried(number, payload), rest')) =>
      match s.put(number, payload, m)
      case Failed(e) => Failed(e)
      case Panicked => Panicked
      case Ok(m') => Ok((m', rest'))
  }

  /** The rest of a message of length `l` read into `m`. */
  function Decode<T>(s: Schema<T>, rest: Bytes, l: nat, m: T): Decoded<T>
    decreases |rest|
  {
    if rest == [] then Ok(m)
    else
      match DecodeField(s, rest, l, m)
      case Failed(e) => Failed(e)
      case Panicked => Panicked
      case Ok((m', rest')) => Decode(s, rest', l, m')
  }

  /** The known field that the rest of a message starts with, or 0. */
  function BegunField(known: nat, rest: Bytes): nat {
    match Varint(rest, 0, 0)
    case Ok((wire, _)) => if 1 <= FieldNumber(wire) <= known then FieldNumber(wire) else 0
    case Failed(_) => 0
    case Panicked => 0
  }

  function LeftBegun<T>(s: Schema<T>, rest: Bytes, m: T): T {
    if BegunField(s.known, rest) > 0 then s.begun(BegunField(s.known, rest), m) else m
  }

  /** The message as reading leaves it, whether it fails or not. */
  function Left<T>(s: Schema<T>, rest: Bytes, l: nat, m: T): T
    decreases |rest|
  {
    if rest == [] then m
    else
      match NextField(s.known, rest, l)
      case Failed(_) => m
      case Panicked => LeftBegun(s, rest, m)
      case Ok((Other, rest')) => Left(s, rest', l, m)
      case Ok((Carried(number, payload), rest')) =>
        match s.put(number, payload, m)
        case Ok(m') => Left(s, rest', l, m')
        case Failed(_) => s.left(number, payload, m)
        case Panicked => s.left(number, payload, m)
  }

  // ---- The messages ----

  const EmptySpec := Spec([], [], [])

  function PutSpec(field: nat, payload: Bytes, m: Spec): Decoded<Spec> {
    Ok(match field
       case 1 => m.(key := payload)
       case 2 => m.(operator := payload)
       case _ => m.(values := m.values + [payload]))
  }

  const SpecSchema := Schema(3, PutSpec, (_, _, m) => m, (_, m) => m)

  function DecodeSpec(d: Bytes, m: Spec): Decoded<Spec> {
    Decode(SpecSchema, d, |d|, m)
  }

  function PutFilter(field: nat, payload: Bytes, m: Filter): Decoded<Filter> {
    match DecodeSpec(payload, EmptySpec)
    case Failed(e) => Failed(e)
    case Panicked => Panicked
    case Ok(spec) => Ok(Filter(m.specs + [spec]))
  }

  /** A spec is appended before it is read, so a failure leaves it half read. */
  function LeftSpec(payload: Bytes): Spec {
    Left(SpecSchema, payload, |payload|, EmptySpec)
  }

  function LeftFilter(field: nat, payload: Bytes, m: Filter): Filter {
    Filter(m.specs + [LeftSpec(payload)])
  }

  function BegunFilter(field: nat, m: Filter): Filter {
    Filter(m.specs + [EmptySpec])
  }

  const FilterSchema := Schema(1, PutFilter, LeftFilter, BegunFilter)

  function PutWatchSpec(field: nat, payload: Bytes, m: WatchSpec): Decoded<WatchSpec> {
    if field == 1 then Ok(m.(refVersion := payload))
    else
      match DecodeSpec(payload, EmptySpec)
      case Failed(e) => Failed(e)
      case Panicked => Panicked
      case Ok(spec) => Ok(m.(specs := m.specs + [spec]))
  }

  function LeftWatchSpec(field: nat, payload: Bytes, m: WatchSpec): WatchSpec {
    m.(specs := m.specs + [LeftSpec(payload)])
  }

  function BegunWatchSpec(field: nat, m: WatchSpec): WatchSpec {
    if field == 1 then m else m.(specs := m.specs + [EmptySpec])
  }

  const WatchSpecSchema := Schema(2, PutWatchSpec, LeftWatchSpec, BegunWatchSpec)
}
