/** `encode` and `parse` of src/parser.rs as total functions on a type tree. A panic of the
    Rust code (an `unwrap`, an `assert_eq!`) is the outcome Err(Panic(..)). */
module Codec {
  import opened Wrappers
  import opened Bytes
  import opened Types
  import Utf8

  function Zeros(n: nat): (z: Bytes)
    ensures |z| == n && forall i :: 0 <= i < n ==> z[i] == 0
  {
    seq(n, _ => 0)
  }

  /** The u32 length prefix of a variable-width Array element, after `as u32`. */
  function U32Prefix(n: nat): (b: Bytes)
    ensures |b| == 4
  {
    LE(n % TwoTo32, 4)
  }

  /** The Int arm of `encode`: `as_u128`/`as_i128`, then the narrowing `try_into().unwrap()`. */
  function EncodeInt(signed: bool, w: IntWidth, v: Value): (r: Result<Bytes>)
    ensures r.Ok? ==> |r.value| == IntBytes(w)
  {
    if !v.Number? then Err(InvalidValue)
    else if signed then
      if !InI128(v.n) then Err(InvalidValue)
      else if !IntFits(true, w, v.n) then Err(Panic(IntOverflow))
      else Ok(LE(Twos(v.n, IntBytes(w)), IntBytes(w)))
    else
      if !InU128(v.n) then Err(InvalidValue)
      else if !IntFits(false, w, v.n) then Err(Panic(IntOverflow))
      else Ok(LE(v.n, IntBytes(w)))
  }

  /** The Slice arm of `encode`: each element must be a u64 number, then a byte. */
  function EncodeSlice(xs: seq<Value>): (r: Result<Bytes>)
  {
    if xs == [] then Ok([])
    else if !xs[0].Number? || !(0 <= xs[0].n < Pow256(8)) then Err(InvalidValue)
    else if xs[0].n >= 256 then Err(ByteOutOfRange)
    else
      var rest :- EncodeSlice(xs[1..]);
      Ok([xs[0].n as byte] + rest)
  }

  function Encode(t: Ty, v: Value): Result<Bytes>
    decreases Depth(t), 1, 0
  {
    match t
    case Bool =>
      if !v.Boolean? then Err(Panic(NotBool)) else Ok(if v.b then [1] else [0])
    case Char =>
      if !v.Str? then Err(Panic(NotString))
      else if |v.s| != 1 then Err(NotOneCodepoint)
      else Ok(CharBytes(v.s[0]))
    case Int(s, w) => EncodeInt(s, w, v)
    case Float(w) =>
      if v.FloatBits? && |v.raw| == FloatBytes(w) then Ok(v.raw) else Err(InvalidValue)
    case String =>
      if !v.Str? then Err(InvalidValue) else Ok(Utf8.Encode(v.s))
    case Slice =>
      if !v.List? then Err(InvalidValue) else EncodeSlice(v.items)
    case Array(e, n) =>
      if !v.List? then Err(InvalidValue)
      else if |v.items| != n then Err(ArrayLengthMismatch)
      else EncodeRepeat(e, v.items, false)
    case Vec(e) =>
      if !v.List? then Err(InvalidValue)
      else
        var b :- EncodeRepeat(e, v.items, true);
        Ok(PutVarint(|v.items|) + b)
    case Optional(i) =>
      if v.Null? then Ok([0] + (if Width(i).Some? then Zeros(Width(i).value) else []))
      else
        var b :- Encode(i, v);
        Ok([1] + b)
    case Tuple(ts) =>
      var items :- if v.Null? then Ok([]) else if v.List? then Ok(v.items) else Err(InvalidValue);
      if |items| != |ts| then Err(Panic(TupleArity))
      else
        var hb :- EncodeMembers(Members(t), Oks(items));
        Ok(hb.0 + hb.1)
    case Struct(_, fs) =>
      if !v.Object? then Err(Panic(NotObject))
      else
        var fv := FieldValues(fs, v.entries);
        var hb :- EncodeMembers(Members(t), fv.0);
        if fv.1 != map[] then Err(UndefinedField) else Ok(hb.0 + hb.1)
  }

  /** The element loop of the Array (u32 prefixes) and Vec (varint prefixes) arms: a
      variable-width element is preceded by the length of its own encoding. */
  function EncodeRepeat(e: Ty, xs: seq<Value>, varint: bool): Result<Bytes>
    decreases Depth(e), 2, |xs|
  {
    if xs == [] then Ok([])
    else
      var b :- Encode(e, xs[0]);
      var rest :- EncodeRepeat(e, xs[1..], varint);
      Ok(LengthPrefix(e, varint, |b|) + b + rest)
  }

  /** What precedes an Array or Vec element of n bytes: nothing for a fixed-width element,
      else its length as a varint (Vec) or a u32 (Array). */
  function LengthPrefix(e: Ty, varint: bool, n: nat): Bytes
  {
    if Width(e).Some? then [] else if varint then PutVarint(n) else U32Prefix(n)
  }

  /** The member loop of the Tuple and Struct arms: (header, body), where the header holds
      the varint length of every variable-width member but the last. A member whose value
      is an error (a missing struct field) stops the loop at that member. */
  function EncodeMembers(ms: seq<Ty>, vals: seq<Result<Value>>): Result<(Bytes, Bytes)>
    requires |vals| == |ms|
    decreases DepthOfAll(ms), 2, |ms|
  {
    if ms == [] then Ok(([], []))
    else
      var v :- vals[0];
      var b :- Encode(ms[0], v);
      var rest :- EncodeMembers(ms[1..], vals[1..]);
      Ok((HeaderLength(ms[0], |ms| == 1, |b|) + rest.0, b + rest.1))
  }

  function Oks(xs: seq<Value>): (r: seq<Result<Value>>)
    ensures |r| == |xs| && forall i :: 0 <= i < |xs| ==> r[i] == Ok(xs[i])
  {
    seq(|xs|, i requires 0 <= i < |xs| => Ok(xs[i]))
  }

  /** The header entry of a member of n bytes: its varint length when it is variable-width
      and not the last member, else nothing. */
  function HeaderLength(m: Ty, last: bool, n: nat): Bytes
  {
    if Width(m).None? && !last then PutVarint(n) else []
  }

  /** The field lookups of the Struct arm on the cloned map: each field is removed from the
      map; a missing `Option` field stands for Null, any other missing field is an error.
      Also returns what is left of the map afterwards. */
  function FieldValues(fs: seq<Field>, m: map<string, Value>): (r: (seq<Result<Value>>, map<string, Value>))
    ensures |r.0| == |fs|
  {
    if fs == [] then ([], m)
    else
      var name := fs[0].name;
      var v := if name in m then Ok(m[name]) else if fs[0].ty.Optional? then Ok(Null) else Err(MissingField(name));
      var rest := FieldValues(fs[1..], m - {name});
      ([v] + rest.0, rest.1)
  }

  // ---------------------------------------------------------------------------------------
  // parse

  function Decode(t: Ty, d: Bytes): Result<(Value, Bytes)>
    decreases Depth(t), 1, 0
  {
    match t
    case Bool =>
      var p :- TakeU8(d);
      if p.0 == 0 then Ok((Boolean(false), p.1))
      else if p.0 == 1 then Ok((Boolean(true), p.1))
      else Err(BadBool(p.0))
    case Char =>
      var p :- TakeN(d, CharWidth);
      var c := CharFromBytes(p.0);
      if c.None? then Err(Panic(InvalidChar)) else Ok((Str([c.value]), p.1))
    case Int(s, w) =>
      var p :- TakeN(d, IntBytes(w));
      Ok((Number(if s then FromLESigned(p.0) else FromLE(p.0)), p.1))
    case Float(w) =>
      var p :- TakeN(d, FloatBytes(w));
      Ok((FloatBits(p.0), p.1))
    case String =>
      var s := Utf8.Decode(d);
      if s.None? then Err(Panic(InvalidUtf8)) else Ok((Str(s.value), []))
    case Slice =>
      Ok((List(seq(|d|, i requires 0 <= i < |d| => Number(d[i]))), []))
    case Array(e, n) =>
      var p :- DecodeRepeat(e, n, d, false);
      Ok((List(p.0), p.1))
    case Vec(e) =>
      var n :- TakeVarint(d);
      var p :- DecodeRepeat(e, n.0, n.1, true);
      Ok((List(p.0), p.1))
    case Optional(i) =>
      var p :- TakeU8(d);
      if p.0 == 0 then
        if Width(i).Some? then
          var q :- TakeN(p.1, Width(i).value);
          Ok((Null, q.1))
        else Ok((Null, p.1))
      else if p.0 == 1 then Decode(i, p.1)
      else Err(BadDiscriminant(p.0))
    case Tuple(ts) =>
      var h :- DecodeHeader(Members(t), d);
      var b :- DecodeBody(Members(t), h.0, h.1);
      Ok((if b.0 == [] then Null else List(b.0), b.1))
    case Struct(_, fs) =>
      var h :- DecodeHeader(Members(t), d);
      var b :- DecodeBody(Members(t), h.0, h.1);
      Ok((Object(Insert(map[], fs, b.0)), b.1))
  }

  /** The element loop of the Array and Vec arms: n elements, each parsed from a slice of
      its fixed width or of the length read before it. */
  function DecodeRepeat(e: Ty, n: nat, d: Bytes, varint: bool): Result<(seq<Value>, Bytes)>
    decreases Depth(e), 2, n
  {
    if n == 0 then Ok(([], d))
    else
      var x :- ElementSpec(e, varint, d);
      var rest :- DecodeRepeat(e, n - 1, x.1, varint);
      Ok(([x.0] + rest.0, rest.1))
  }

  /** One element of the Array and Vec loops: its length, the slice of that length, and the
      element decoded from the slice; (the element, the rest). */
  function ElementSpec(e: Ty, varint: bool, d: Bytes): Result<(Value, Bytes)>
    decreases Depth(e), 1, 1
  {
    var len :- ElementLength(e, varint, d);
    var sub :- TakeN(len.1, len.0);
    var x :- Decode(e, sub.0);
    Ok((x.0, sub.1))
  }

  /** The length of the next Array or Vec element: the fixed width, or the u32 (Array) or
      varint (Vec) prefix before it. */
  function ElementLength(e: Ty, varint: bool, d: Bytes): Result<(nat, Bytes)>
  {
    if Width(e).Some? then Ok((Width(e).value, d))
    else if varint then TakeVarint(d)
    else TakeU32Len(d)
  }

  /** The first loop of the Tuple and Struct arms: the slice length of each member, read
      from the header for variable-width members but the last (None: the rest). */
  function DecodeHeader(ms: seq<Ty>, d: Bytes): (r: Result<(seq<Option<nat>>, Bytes)>)
    ensures r.Ok? ==> |r.value.0| == |ms|
  {
    if ms == [] then Ok(([], d))
    else
      var size :- HeaderEntry(ms[0], |ms| == 1, d);
      var rest :- DecodeHeader(ms[1..], size.1);
      Ok(([size.0] + rest.0, rest.1))
  }

  /** The slice length of one member: its fixed width, the varint read from the header for
      a variable-width member that is not the last, or None (all the rest) for the last. */
  function HeaderEntry(m: Ty, last: bool, d: Bytes): Result<(Option<nat>, Bytes)>
  {
    if Width(m).None? && !last then
      var p :- TakeVarint(d);
      Ok((Some(p.0), p.1))
    else Ok((Width(m), d))
  }

  /** The second loop of the Tuple and Struct arms: each member parsed from its slice. */
  function DecodeBody(ms: seq<Ty>, sizes: seq<Option<nat>>, d: Bytes): (r: Result<(seq<Value>, Bytes)>)
    requires |sizes| == |ms|
    ensures r.Ok? ==> |r.value.0| == |ms|
    decreases DepthOfAll(ms), 2, |ms|
  {
    if ms == [] then Ok(([], d))
    else
      var len := if sizes[0].Some? then sizes[0].value else |d|;
      var sub :- TakeN(d, len);
      var x :- Decode(ms[0], sub.0);
      var rest :- DecodeBody(ms[1..], sizes[1..], sub.1);
      Ok(([x.0] + rest.0, rest.1))
  }

  /** `map.insert` of each (field name, value) in order. */
  function Insert(m: map<string, Value>, fs: seq<Field>, vals: seq<Value>): map<string, Value>
    requires |vals| == |fs|
    decreases |fs|
  {
    if fs == [] then m else Insert(m[fs[0].name := vals[0]], fs[1..], vals[1..])
  }
}
