/** The imperative shape of src/parser.rs: `encode` appends to a byte buffer (using a
    scratch buffer per element or member) and `parse` advances a byte cursor. Each method
    is proved to produce exactly what the functions of module Codec specify. */
module CodecImpl {
  import opened Wrappers
  import opened Bytes
  import Spec = Bytes
  import opened Types
  import opened Codec
  import Utf8

  // ---------------------------------------------------------------------------------------
  // How a method's effect is tied to the specification function

  /** `encode` on success appends exactly the specified bytes; on failure it reports the
      specified error and the old contents stay a prefix (partial output may follow). */
  predicate Emitted(r: Result<()>, before: Bytes, after: Bytes, spec: Result<Bytes>)
  {
    match spec
    case Ok(b) => r == Ok(()) && after == before + b
    case Err(e) => r == Err(e) && before <= after
  }

  /** `parse` on success returns the specified value and leaves the cursor on the specified
      rest; on failure it reports the specified error. */
  predicate Follows<T(==)>(r: Result<T>, rest: Bytes, spec: Result<(T, Bytes)>)
  {
    match spec
    case Ok(p) => r == Ok(p.0) && rest == p.1
    case Err(e) => r == Err(e)
  }

  /** The bytes already written, followed by what the rest of a loop will write. */
  function Then(done: Bytes, r: Result<Bytes>): Result<Bytes>
  {
    if r.Ok? then Ok(done + r.value) else r
  }

  /** The header and body already written, followed by those of the remaining members. */
  function ThenPair(h: Bytes, b: Bytes, r: Result<(Bytes, Bytes)>): Result<(Bytes, Bytes)>
  {
    if r.Ok? then Ok((h + r.value.0, b + r.value.1)) else r
  }

  /** The items already read, followed by those the rest of a loop will read. */
  function ThenItems<T>(xs: seq<T>, r: Result<(seq<T>, Bytes)>): Result<(seq<T>, Bytes)>
  {
    if r.Ok? then Ok((xs + r.value.0, r.value.1)) else r
  }

  lemma ThenStep(done: Bytes, piece: Bytes, r: Result<Bytes>)
    ensures Then(done, Then(piece, r)) == Then(done + piece, r)
  {
    if r.Ok? {
      ConcatAssoc(done, piece, r.value);
    }
  }

  lemma ThenPairStep(h: Bytes, b: Bytes, h1: Bytes, b1: Bytes, r: Result<(Bytes, Bytes)>)
    ensures ThenPair(h, b, ThenPair(h1, b1, r)) == ThenPair(h + h1, b + b1, r)
  {
    if r.Ok? {
      ConcatAssoc(h, h1, r.value.0);
      ConcatAssoc(b, b1, r.value.1);
    }
  }

  lemma ThenItemsStep<T>(xs: seq<T>, x: T, r: Result<(seq<T>, Bytes)>)
    ensures ThenItems(xs, ThenItems([x], r)) == ThenItems(xs + [x], r)
  {
    if r.Ok? {
      assert xs + ([x] + r.value.0) == xs + [x] + r.value.0;
    }
  }

  // ---------------------------------------------------------------------------------------
  // The output buffer (`buf: &mut Vec<u8>`)

  class Buffer {
    var bytes: Bytes

    constructor ()
      ensures bytes == []
    {
      bytes := [];
    }

    method Push(b: byte)
      modifies this
      ensures bytes == old(bytes) + [b]
    {
      bytes := bytes + [b];
    }

    method Extend(bs: Bytes)
      modifies this
      ensures bytes == old(bytes) + bs
    {
      bytes := bytes + bs;
    }

    method Clear()
      modifies this
      ensures bytes == []
    {
      bytes := [];
    }

    /** `put_varint(len, buf)` */
    method PutVarint(n: nat)
      modifies this
      ensures bytes == old(bytes) + Spec.PutVarint(n)
    {
      if n < 254 {
        Push(n);
      } else if n <= 0xFFFF {
        Push(254);
        Extend(LE(n, 2));
      } else {
        Push(255);
        Extend(LE(n % TwoTo32, 4));
      }
    }
  }

  // ---------------------------------------------------------------------------------------
  // The input cursor (`data: &mut &[u8]`)

  class Cursor {
    var data: Bytes

    constructor (d: Bytes)
      ensures data == d
    {
      data := d;
    }

    /** `take_n`: a failure leaves the cursor where it was. */
    method TakeN(len: nat) returns (r: Result<Bytes>)
      modifies this
      ensures Follows(r, data, Spec.TakeN(old(data), len))
      ensures r.Err? ==> data == old(data)
    {
      if len > |data| {
        return Err(OffBuffer);
      }
      r := Ok(data[..len]);
      data := data[len..];
    }

    /** `take_all` */
    method TakeAll() returns (b: Bytes)
      modifies this
      ensures b == old(data) && data == []
    {
      b := data;
      data := [];
    }

    /** `take_u8` */
    method TakeU8() returns (r: Result<byte>)
      modifies this
      ensures Follows(r, data, Spec.TakeU8(old(data)))
      ensures r.Err? ==> data == old(data)
    {
      var b :- TakeN(1);
      return Ok(b[0]);
    }

    /** `take_u32_len` */
    method TakeU32Len() returns (r: Result<nat>)
      modifies this
      ensures Follows(r, data, Spec.TakeU32Len(old(data)))
      ensures r.Err? ==> data == old(data)
    {
      var b :- TakeN(4);
      return Ok(FromLE(b));
    }

    /** `take_varint`: when the tag byte is present but its payload is not, the tag stays
        consumed. */
    method TakeVarint() returns (r: Result<nat>)
      modifies this
      ensures Follows(r, data, Spec.TakeVarint(old(data)))
    {
      var tag :- TakeU8();
      if tag <= 253 {
        return Ok(tag);
      } else if tag == 254 {
        var b :- TakeN(2);
        return Ok(FromLE(b));
      } else {
        var b :- TakeN(4);
        return Ok(FromLE(b));
      }
    }
  }

  // ---------------------------------------------------------------------------------------
  // encode

  /** `encode(p, val, buf)`: the dispatch on the rule of the type tree. */
  method EncodeInto(t: Ty, v: Value, buf: Buffer) returns (r: Result<()>)
    modifies buf
    ensures Emitted(r, old(buf.bytes), buf.bytes, Encode(t, v))
    decreases Depth(t), 2
  {
    match t
    case Int(signed, w) =>
      r := EncodeIntInto(signed, w, v, buf);
    case Slice =>
      r := EncodeSliceInto(v, buf);
    case Array(_, _) =>
      r := EncodeArrayInto(t, v, buf);
    case Vec(_) =>
      r := EncodeVecInto(t, v, buf);
    case Optional(_) =>
      r := EncodeOptionInto(t, v, buf);
    case Tuple(_) =>
      r := EncodeTupleInto(t, v, buf);
    case Struct(_, _) =>
      r := EncodeStructInto(t, v, buf);
    case _ =>
      r := EncodeScalarInto(t, v, buf);
  }

  /** The Bool, Char, Float and String arms. */
  method EncodeScalarInto(t: Ty, v: Value, buf: Buffer) returns (r: Result<()>)
    requires t.Bool? || t.Char? || t.Float? || t.String?
    modifies buf
    ensures Emitted(r, old(buf.bytes), buf.bytes, Encode(t, v))
  {
    if t.Bool? {
      if !v.Boolean? {
        return Err(Panic(NotBool));
      }
      buf.Push(if v.b then 1 else 0);
    } else if t.Char? {
      if !v.Str? {
        return Err(Panic(NotString));
      }
      if |v.s| != 1 {
        return Err(NotOneCodepoint);
      }
      buf.Extend(CharBytes(v.s[0]));
    } else if t.Float? {
      if !v.FloatBits? || |v.raw| != FloatBytes(t.fwidth) {
        return Err(InvalidValue);
      }
      buf.Extend(v.raw);
    } else {
      if !v.Str? {
        return Err(InvalidValue);
      }
      buf.Extend(Utf8.Encode(v.s));
    }
    return Ok(());
  }

  /** The Int arm: `as_u128`/`as_i128`, the narrowing `try_into().unwrap()`, `to_le_bytes`. */
  method EncodeIntInto(signed: bool, w: IntWidth, v: Value, buf: Buffer) returns (r: Result<()>)
    modifies buf
    ensures Emitted(r, old(buf.bytes), buf.bytes, EncodeInt(signed, w, v))
  {
    if !v.Number? {
      return Err(InvalidValue);
    }
    if signed {
      r := EncodeSignedInto(w, v.n, buf);
    } else {
      r := EncodeUnsignedInto(w, v.n, buf);
    }
  }

  /** The signed half of the Int arm: `as_i128`, then two's complement at the width. */
  method EncodeSignedInto(w: IntWidth, n: int, buf: Buffer) returns (r: Result<()>)
    modifies buf
    ensures Emitted(r, old(buf.bytes), buf.bytes, EncodeInt(true, w, Number(n)))
  {
    if !InI128(n) {
      return Err(InvalidValue);
    }
    if !IntFits(true, w, n) {
      return Err(Panic(IntOverflow));
    }
    var k := IntBytes(w);
    buf.Extend(LE(Twos(n, k), k));
    return Ok(());
  }

  /** The unsigned half of the Int arm: `as_u128`, then the little-endian bytes. */
  method EncodeUnsignedInto(w: IntWidth, n: int, buf: Buffer) returns (r: Result<()>)
    modifies buf
    ensures Emitted(r, old(buf.bytes), buf.bytes, EncodeInt(false, w, Number(n)))
  {
    if !InU128(n) {
      return Err(InvalidValue);
    }
    if !IntFits(false, w, n) {
      return Err(Panic(IntOverflow));
    }
    var k := IntBytes(w);
    buf.Extend(LE(n, k));
    return Ok(());
  }

  /** The Slice arm: one byte per element. */
  method EncodeSliceInto(v: Value, buf: Buffer) returns (r: Result<()>)
    modifies buf
    ensures Emitted(r, old(buf.bytes), buf.bytes, Encode(Slice, v))
  {
    if !v.List? {
      return Err(InvalidValue);
    }
    var xs := v.items;
    ghost var done: Bytes := [];
    ThenNil(EncodeSlice(xs));
    var i := 0;
    while i < |xs|
      invariant 0 <= i <= |xs| && buf.bytes == old(buf.bytes) + done
      invariant EncodeSlice(xs) == Then(done, EncodeSlice(xs[i..]))
    {
      assert xs[i..][1..] == xs[i + 1..];
      if !xs[i].Number? || !(0 <= xs[i].n < Pow256(8)) {
        return Err(InvalidValue);
      }
      if xs[i].n >= 256 {
        return Err(ByteOutOfRange);
      }
      buf.Push(xs[i].n);
      ThenStep(done, [xs[i].n], EncodeSlice(xs[i + 1..]));
      ConcatAssoc(old(buf.bytes), done, [xs[i].n]);
      done := done + [xs[i].n];
      i := i + 1;
    }
    assert xs[i..] == [];
    return Ok(());
  }

  /** The Array arm. */
  method EncodeArrayInto(t: Ty, v: Value, buf: Buffer) returns (r: Result<()>)
    requires t.Array?
    modifies buf
    ensures Emitted(r, old(buf.bytes), buf.bytes, Encode(t, v))
    decreases Depth(t), 1
  {
    if !v.List? {
      return Err(InvalidValue);
    }
    if |v.items| != t.len {
      return Err(ArrayLengthMismatch);
    }
    r := EncodeRepeatInto(t.elem, v.items, false, buf);
  }

  /** The Vec arm: the varint count is written before the elements. */
  method EncodeVecInto(t: Ty, v: Value, buf: Buffer) returns (r: Result<()>)
    requires t.Vec?
    modifies buf
    ensures Emitted(r, old(buf.bytes), buf.bytes, Encode(t, v))
    decreases Depth(t), 1
  {
    if !v.List? {
      return Err(InvalidValue);
    }
    buf.PutVarint(|v.items|);
    r := EncodeRepeatInto(t.elem, v.items, true, buf);
    if r.Ok? {
      ConcatAssoc(old(buf.bytes), PutVarint(|v.items|), EncodeRepeat(t.elem, v.items, true).value);
    }
  }

  /** The Option arm: a zero tag padded to the inner width, or a one tag and the inner value. */
  method EncodeOptionInto(t: Ty, v: Value, buf: Buffer) returns (r: Result<()>)
    requires t.Optional?
    modifies buf
    ensures Emitted(r, old(buf.bytes), buf.bytes, Encode(t, v))
    decreases Depth(t), 1
  {
    var i := t.inner;
    if v.Null? {
      buf.Push(0);
      var pad: Bytes := [];
      if Width(i).Some? {
        pad := Zeros(Width(i).value);
        buf.Extend(pad);
      }
      ConcatAssoc(old(buf.bytes), [0], pad);
      return Ok(());
    }
    buf.Push(1);
    r := EncodeInto(i, v, buf);
    if r.Ok? {
      ConcatAssoc(old(buf.bytes), [1], Encode(i, v).value);
    }
  }

  /** The element loops of the Array and Vec arms: each element is encoded into a cleared
      scratch buffer, then its length (if variable-width) and its bytes are appended. */
  method EncodeRepeatInto(e: Ty, xs: seq<Value>, varint: bool, buf: Buffer) returns (r: Result<()>)
    modifies buf
    ensures Emitted(r, old(buf.bytes), buf.bytes, EncodeRepeat(e, xs, varint))
    decreases Depth(e), 4
  {
    var size := Width(e);
    var vec := new Buffer();
    ghost var done: Bytes := [];
    ThenNil(EncodeRepeat(e, xs, varint));
    assert xs[0..] == xs;
    var i := 0;
    while i < |xs|
      invariant 0 <= i <= |xs| && buf.bytes == old(buf.bytes) + done && fresh(vec)
      invariant EncodeRepeat(e, xs, varint) == Then(done, EncodeRepeat(e, xs[i..], varint))
    {
      r, done := EncodeElementAt(e, size, xs[i], varint, xs, i, old(buf.bytes), done, vec, buf);
      if r.Err? {
        return;
      }
      i := i + 1;
    }
    assert xs[i..] == [];
    return Ok(());
  }

  /** Element i of the Array and Vec loops, with the loop's invariant carried over it:
      `before` is the buffer as the loop found it, `done` what the loop has written. */
  method EncodeElementAt(e: Ty, size: Option<nat>, x: Value, varint: bool, ghost xs: seq<Value>, ghost i: nat, ghost before: Bytes, ghost done: Bytes, vec: Buffer, buf: Buffer)
    returns (r: Result<()>, ghost done1: Bytes)
    requires size == Width(e) && i < |xs| && x == xs[i] && vec != buf
    requires buf.bytes == before + done
    requires EncodeRepeat(e, xs, varint) == Then(done, EncodeRepeat(e, xs[i..], varint))
    modifies vec, buf
    ensures r.Ok? ==> buf.bytes == before + done1
    ensures r.Ok? ==> EncodeRepeat(e, xs, varint) == Then(done1, EncodeRepeat(e, xs[i + 1..], varint))
    ensures r.Err? ==> EncodeRepeat(e, xs, varint) == Err(r.error) && before <= buf.bytes
    decreases Depth(e), 3
  {
    RepeatUnfold(e, xs, varint, i);
    done1 := done;
    vec.Clear();
    r := EncodeInto(e, x, vec);
    if r.Err? {
      return;
    }
    assert vec.bytes == Encode(e, x).value;
    ghost var prefix := LengthPrefix(e, varint, |vec.bytes|);
    ghost var piece := prefix + vec.bytes;
    if size.None? {
      if varint {
        buf.PutVarint(|vec.bytes|);
      } else {
        buf.Extend(U32Prefix(|vec.bytes|));
      }
    }
    assert buf.bytes == before + done + prefix;
    buf.Extend(vec.bytes);
    ThenStep(done, piece, EncodeRepeat(e, xs[i + 1..], varint));
    AppendStep(before, done, prefix, vec.bytes);
    done1 := done + piece;
  }

  /** The Tuple arm: members are encoded one after another into a scratch buffer, the
      header lengths go straight to `buf`, and the scratch buffer is appended last. */
  method EncodeTupleInto(t: Ty, v: Value, buf: Buffer) returns (r: Result<()>)
    requires t.Tuple?
    modifies buf
    ensures Emitted(r, old(buf.bytes), buf.bytes, Encode(t, v))
    decreases Depth(t), 1
  {
    var items: seq<Value>;
    if v.Null? {
      items := [];
    } else if v.List? {
      items := v.items;
    } else {
      return Err(InvalidValue);
    }
    if |items| != |t.elems| {
      return Err(Panic(TupleArity));
    }
    var ms := Members(t);
    r := EncodeMembersInto(t, ms, Oks(items), buf);
    TupleArm(t, v, items);
  }

  /** The Struct arm: the fields are encoded from a copy of the object, and a field left
      over in the copy is an error, reported after the members have been written. */
  method EncodeStructInto(t: Ty, v: Value, buf: Buffer) returns (r: Result<()>)
    requires t.Struct?
    modifies buf
    ensures Emitted(r, old(buf.bytes), buf.bytes, Encode(t, v))
    decreases Depth(t), 1
  {
    if !v.Object? {
      return Err(Panic(NotObject));
    }
    var rest;
    r, rest := EncodeFieldsInto(t, v.entries, buf);
    StructArm(t, v.entries);
    if r.Err? {
      return;
    }
    if rest != map[] {
      return Err(UndefinedField);
    }
  }

  /** The field loop of the Struct arm: each field is removed from the copy of the object (a
      missing `Option` field stands for Null) and encoded as a Tuple member would be. */
  method EncodeFieldsInto(t: Ty, m: map<string, Value>, buf: Buffer) returns (r: Result<()>, rest: map<string, Value>)
    requires t.Struct?
    modifies buf
    ensures var fv := FieldValues(t.fields, m);
      match EncodeMembers(Members(t), fv.0)
      case Ok(hb) => r == Ok(()) && buf.bytes == old(buf.bytes) + (hb.0 + hb.1) && rest == fv.1
      case Err(e) => r == Err(e) && old(buf.bytes) <= buf.bytes
    decreases Depth(t), 0
  {
    var fs := t.fields;
    var ms := Members(t);
    ghost var fv := FieldValues(fs, m);
    rest := m;
    var vec := new Buffer();
    ghost var h: Bytes := [];
    ThenPairNil(EncodeMembers(ms, fv.0));
    assert fs[0..] == fs && fv.0[0..] == fv.0 && ms[0..] == ms;
    var i := 0;
    while i < |fs|
      invariant 0 <= i <= |fs| && buf.bytes == old(buf.bytes) + h && fresh(vec)
      invariant FieldValues(fs[i..], rest) == (fv.0[i..], fv.1)
      invariant EncodeMembers(ms, fv.0) == ThenPair(h, vec.bytes, EncodeMembers(ms[i..], fv.0[i..]))
    {
      MemberDepth(ms, i);
      FieldsStep(fs, rest, fv.0, fv.1, i);
      var x;
      x, rest := TakeField(fs[i], rest);
      r, h := EncodeMemberAt(ms, fv.0, x, i, old(buf.bytes), h, vec, buf);
      if r.Err? {
        return;
      }
      i := i + 1;
    }
    assert fs[i..] == [];
    MembersDone(ms, fv.0, h, vec.bytes);
    buf.Extend(vec.bytes);
    ConcatAssoc(old(buf.bytes), h, vec.bytes);
    return Ok(()), rest;
  }

  /** One member of the Tuple and Struct loops: its bytes go to the scratch buffer `vec`,
      and its length to the header in `buf` when it is variable-width and not the last. */
  method EncodeMemberInto(m: Ty, x: Result<Value>, last: bool, vec: Buffer, buf: Buffer) returns (r: Result<()>)
    requires vec != buf
    modifies vec, buf
    ensures match MemberStep(m, x, last)
      case Ok(hb) => r == Ok(()) && buf.bytes == old(buf.bytes) + hb.0 && vec.bytes == old(vec.bytes) + hb.1
      case Err(e) => r == Err(e) && old(buf.bytes) <= buf.bytes
    decreases Depth(m), 3
  {
    var value :- x;
    var lastLen := |vec.bytes|;
    var _ :- EncodeInto(m, value, vec);
    if Width(m).None? && !last {
      buf.PutVarint(|vec.bytes| - lastLen);
    } else {
      assert buf.bytes == old(buf.bytes) + [];
    }
    assert vec.bytes[lastLen..] == Encode(m, value).value;
    return Ok(());
  }

  /** Member i of the Tuple and Struct loops, with the loop's invariant carried over it:
      `before` is the buffer as the loop found it, `h` the header written so far. */
  method EncodeMemberAt(ms: seq<Ty>, ghost vals: seq<Result<Value>>, x: Result<Value>, i: nat, ghost before: Bytes, ghost h: Bytes, vec: Buffer, buf: Buffer)
    returns (r: Result<()>, ghost h1: Bytes)
    requires |vals| == |ms| && i < |ms| && x == vals[i] && vec != buf
    requires buf.bytes == before + h
    requires EncodeMembers(ms, vals) == ThenPair(h, vec.bytes, EncodeMembers(ms[i..], vals[i..]))
    modifies vec, buf
    ensures r.Ok? ==> buf.bytes == before + h1
    ensures r.Ok? ==> EncodeMembers(ms, vals) == ThenPair(h1, vec.bytes, EncodeMembers(ms[i + 1..], vals[i + 1..]))
    ensures r.Err? ==> EncodeMembers(ms, vals) == Err(r.error) && before <= buf.bytes
    decreases Depth(ms[i]), 4
  {
    MembersLoopStep(ms, vals, i, h, vec.bytes);
    h1 := h;
    r := EncodeMemberInto(ms[i], x, i + 1 == |ms|, vec, buf);
    if r.Ok? {
      ghost var hb := MemberStep(ms[i], x, i + 1 == |ms|).value;
      ConcatAssoc(before, h, hb.0);
      h1 := h + hb.0;
    }
  }

  /** `val.remove(name).or_else(..Null for an Option..)`: the field's value, and the copy
      without it. */
  method TakeField(f: Field, m: map<string, Value>) returns (x: Result<Value>, rest: map<string, Value>)
    ensures x == Lookup(f, m)
    ensures rest == m - {f.name}
  {
    if f.name in m {
      x := Ok(m[f.name]);
    } else if f.ty.Optional? {
      x := Ok(Null);
    } else {
      x := Err(MissingField(f.name));
    }
    rest := m - {f.name};
  }

  /** The member loop of the Tuple arm, over values already at hand: header lengths to
      `buf`, member bytes to a scratch buffer appended at the end. */
  method EncodeMembersInto(t: Ty, ms: seq<Ty>, vals: seq<Result<Value>>, buf: Buffer) returns (r: Result<()>)
    requires t.Tuple? && ms == t.elems && |vals| == |ms|
    modifies buf
    ensures match EncodeMembers(ms, vals)
      case Ok(hb) => r == Ok(()) && buf.bytes == old(buf.bytes) + (hb.0 + hb.1)
      case Err(e) => r == Err(e) && old(buf.bytes) <= buf.bytes
    decreases Depth(t), 0
  {
    var vec := new Buffer();
    ghost var h: Bytes := [];
    ThenPairNil(EncodeMembers(ms, vals));
    assert ms[0..] == ms && vals[0..] == vals;
    var i := 0;
    while i < |ms|
      invariant 0 <= i <= |ms| && buf.bytes == old(buf.bytes) + h && fresh(vec)
      invariant EncodeMembers(ms, vals) == ThenPair(h, vec.bytes, EncodeMembers(ms[i..], vals[i..]))
    {
      MemberDepth(ms, i);
      r, h := EncodeMemberAt(ms, vals, vals[i], i, old(buf.bytes), h, vec, buf);
      if r.Err? {
        return;
      }
      i := i + 1;
    }
    MembersDone(ms, vals, h, vec.bytes);
    buf.Extend(vec.bytes);
    ConcatAssoc(old(buf.bytes), h, vec.bytes);
    return Ok(());
  }

  // ---------------------------------------------------------------------------------------
  // parse

  /** `parse(p, data)`: the dispatch on the rule of the type tree. */
  method Parse(t: Ty, cur: Cursor) returns (r: Result<Value>)
    modifies cur
    ensures Follows(r, cur.data, Decode(t, old(cur.data)))
    decreases Depth(t), 2
  {
    match t
    case Int(signed, w) =>
      r := ParseInt(signed, w, cur);
    case Array(_, _) =>
      r := ParseArray(t, cur);
    case Vec(_) =>
      r := ParseVec(t, cur);
    case Optional(_) =>
      r := ParseOption(t, cur);
    case Tuple(_) =>
      r := ParseTuple(t, cur);
    case Struct(_, _) =>
      r := ParseStruct(t, cur);
    case _ =>
      r := ParseScalar(t, cur);
  }

  /** The Bool, Char, Float, String and Slice arms. */
  method ParseScalar(t: Ty, cur: Cursor) returns (r: Result<Value>)
    requires t.Bool? || t.Char? || t.Float? || t.String? || t.Slice?
    modifies cur
    ensures Follows(r, cur.data, Decode(t, old(cur.data)))
  {
    if t.Bool? {
      var b :- cur.TakeU8();
      if b == 0 {
        return Ok(Boolean(false));
      } else if b == 1 {
        return Ok(Boolean(true));
      }
      return Err(BadBool(b));
    } else if t.Char? {
      var p :- cur.TakeN(CharWidth);
      var c := CharFromBytes(p);
      if c.None? {
        return Err(Panic(InvalidChar));
      }
      return Ok(Str([c.value]));
    } else if t.Float? {
      var p :- cur.TakeN(FloatBytes(t.fwidth));
      return Ok(FloatBits(p));
    } else if t.String? {
      var all := cur.TakeAll();
      var s := Utf8.Decode(all);
      if s.None? {
        return Err(Panic(InvalidUtf8));
      }
      return Ok(Str(s.value));
    } else {
      var all := cur.TakeAll();
      return Ok(List(seq(|all|, i requires 0 <= i < |all| => Number(all[i]))));
    }
  }

  /** The Int arm: `from_le_bytes` of the declared width, widened to 128 bits. */
  method ParseInt(signed: bool, w: IntWidth, cur: Cursor) returns (r: Result<Value>)
    modifies cur
    ensures Follows(r, cur.data, Decode(Int(signed, w), old(cur.data)))
  {
    var p :- cur.TakeN(IntBytes(w));
    return Ok(Number(if signed then FromLESigned(p) else FromLE(p)));
  }

  /** The Array arm. */
  method ParseArray(t: Ty, cur: Cursor) returns (r: Result<Value>)
    requires t.Array?
    modifies cur
    ensures Follows(r, cur.data, Decode(t, old(cur.data)))
    decreases Depth(t), 1
  {
    var xs :- ParseRepeat(t.elem, t.len, false, cur);
    return Ok(List(xs));
  }

  /** The Vec arm: the varint count, then the elements. */
  method ParseVec(t: Ty, cur: Cursor) returns (r: Result<Value>)
    requires t.Vec?
    modifies cur
    ensures Follows(r, cur.data, Decode(t, old(cur.data)))
    decreases Depth(t), 1
  {
    var n :- cur.TakeVarint();
    var xs :- ParseRepeat(t.elem, n, true, cur);
    return Ok(List(xs));
  }

  /** The Option arm: a zero tag skips the padding of a fixed-width inner type. */
  method ParseOption(t: Ty, cur: Cursor) returns (r: Result<Value>)
    requires t.Optional?
    modifies cur
    ensures Follows(r, cur.data, Decode(t, old(cur.data)))
    decreases Depth(t), 1
  {
    var tag :- cur.TakeU8();
    if tag == 0 {
      if Width(t.inner).Some? {
        var _ :- cur.TakeN(Width(t.inner).value);
      }
      return Ok(Null);
    } else if tag == 1 {
      r := Parse(t.inner, cur);
    } else {
      return Err(BadDiscriminant(tag));
    }
  }

  /** The element length of the Array and Vec loops: the fixed width, or the u32 (Array) or
      varint (Vec) length read before the element. */
  method ElementLengthFrom(e: Ty, varint: bool, cur: Cursor) returns (r: Result<nat>)
    modifies cur
    ensures Follows(r, cur.data, ElementLength(e, varint, old(cur.data)))
  {
    var size := Width(e);
    if size.Some? {
      return Ok(size.value);
    } else if varint {
      r := cur.TakeVarint();
    } else {
      r := cur.TakeU32Len();
    }
  }

  /** The element loops of the Array and Vec arms: each element is parsed from a slice of
      its length taken off the cursor. */
  method ParseRepeat(e: Ty, n: nat, varint: bool, cur: Cursor) returns (r: Result<seq<Value>>)
    modifies cur
    ensures Follows(r, cur.data, DecodeRepeat(e, n, old(cur.data), varint))
    decreases Depth(e), 5
  {
    var vec: seq<Value> := [];
    ghost var whole := DecodeRepeat(e, n, cur.data, varint);
    ThenItemsNil(whole);
    var i := 0;
    while i < n
      invariant 0 <= i <= n
      invariant whole == ThenItems(vec, DecodeRepeat(e, n - i, cur.data, varint))
    {
      var x := ParseElementAt(e, varint, n - i, whole, vec, cur);
      if x.Err? {
        return Err(x.error);
      }
      vec := vec + [x.value];
      i := i + 1;
    }
    ThenItemsDone(vec, cur.data);
    return Ok(vec);
  }

  /** One round of the Array and Vec loops with the loop's invariant carried over it: `k`
      elements are left, `whole` is what the loop is to yield and `vec` holds those read. */
  method ParseElementAt(e: Ty, varint: bool, ghost k: nat, ghost whole: Result<(seq<Value>, Bytes)>, ghost vec: seq<Value>, cur: Cursor)
    returns (r: Result<Value>)
    requires k > 0 && whole == ThenItems(vec, DecodeRepeat(e, k, cur.data, varint))
    modifies cur
    ensures r.Ok? ==> whole == ThenItems(vec + [r.value], DecodeRepeat(e, k - 1, cur.data, varint))
    ensures r.Err? ==> whole == Err(r.error)
    decreases Depth(e), 4
  {
    RepeatLoopStep(e, k, varint, cur.data, whole, vec);
    r := ParseElement(e, varint, cur);
  }

  /** One element of the Array and Vec loops: its length, the slice of that length taken
      off the cursor, and the element parsed from a cursor of its own over that slice. */
  method ParseElement(e: Ty, varint: bool, cur: Cursor) returns (r: Result<Value>)
    modifies cur
    ensures Follows(r, cur.data, ElementSpec(e, varint, old(cur.data)))
    decreases Depth(e), 3
  {
    var len :- ElementLengthFrom(e, varint, cur);
    var piece :- cur.TakeN(len);
    var sub := new Cursor(piece);
    r := Parse(e, sub);
  }

  /** One member of the Tuple and Struct loops: the slice of its size (or all that is left)
      taken off the cursor, and the member parsed from a cursor of its own over that slice. */
  method ParseMember(m: Ty, size: Option<nat>, cur: Cursor) returns (r: Result<Value>)
    modifies cur
    ensures Follows(r, cur.data, MemberSpec(m, size, old(cur.data)))
    decreases Depth(m), 3
  {
    var len := if size.Some? then size.value else |cur.data|;
    var piece :- cur.TakeN(len);
    var sub := new Cursor(piece);
    r := Parse(m, sub);
  }

  /** The Tuple arm: the header loop, then the member loop; no members is Null. */
  method ParseTuple(t: Ty, cur: Cursor) returns (r: Result<Value>)
    requires t.Tuple?
    modifies cur
    ensures Follows(r, cur.data, Decode(t, old(cur.data)))
    decreases Depth(t), 1
  {
    var ms := Members(t);
    var sizes :- ParseHeader(ms, cur);
    var vals :- ParseBody(t, ms, sizes, cur);
    return Ok(if vals == [] then Null else List(vals));
  }

  /** The Struct arm: the header loop, then the member loop inserting each field. */
  method ParseStruct(t: Ty, cur: Cursor) returns (r: Result<Value>)
    requires t.Struct?
    modifies cur
    ensures Follows(r, cur.data, Decode(t, old(cur.data)))
    decreases Depth(t), 1
  {
    var ms := Members(t);
    var sizes :- ParseHeader(ms, cur);
    var m :- ParseFields(t, sizes, cur);
    return Ok(Object(m));
  }

  /** The header loop of the Tuple and Struct arms: a variable-width member that is not the
      last has its varint length read here. */
  method ParseHeader(ms: seq<Ty>, cur: Cursor) returns (r: Result<seq<Option<nat>>>)
    modifies cur
    ensures Follows(r, cur.data, DecodeHeader(ms, old(cur.data)))
  {
    var sizes: seq<Option<nat>> := [];
    ThenItemsNil(DecodeHeader(ms, cur.data));
    assert ms[0..] == ms;
    var i := 0;
    while i < |ms|
      invariant 0 <= i <= |ms|
      invariant DecodeHeader(ms, old(cur.data)) == ThenItems(sizes, DecodeHeader(ms[i..], cur.data))
    {
      HeaderLoopStep(ms, i, cur.data, DecodeHeader(ms, old(cur.data)), sizes);
      var size := Width(ms[i]);
      if i + 1 < |ms| && size.None? {
        var n :- cur.TakeVarint();
        size := Some(n);
      }
      sizes := sizes + [size];
      i := i + 1;
    }
    assert ms[i..] == [];
    ThenItemsDone(sizes, cur.data);
    return Ok(sizes);
  }

  /** The member loop of the Tuple arm: each member is parsed from a slice of its size, or
      of all that is left for a member without one. */
  method ParseBody(t: Ty, ms: seq<Ty>, sizes: seq<Option<nat>>, cur: Cursor) returns (r: Result<seq<Value>>)
    requires (t.Tuple? || t.Struct?) && ms == Members(t) && |sizes| == |ms|
    modifies cur
    ensures Follows(r, cur.data, DecodeBody(ms, sizes, old(cur.data)))
    decreases Depth(t), 0
  {
    var vec: seq<Value> := [];
    ThenItemsNil(DecodeBody(ms, sizes, cur.data));
    assert ms[0..] == ms && sizes[0..] == sizes;
    var i := 0;
    while i < |ms|
      invariant 0 <= i <= |ms|
      invariant DecodeBody(ms, sizes, old(cur.data)) == ThenItems(vec, DecodeBody(ms[i..], sizes[i..], cur.data))
    {
      MemberDepth(ms, i);
      BodyLoopStep(ms, sizes, i, cur.data, DecodeBody(ms, sizes, old(cur.data)), vec);
      var x :- ParseMember(ms[i], sizes[i], cur);
      vec := vec + [x];
      i := i + 1;
    }
    assert ms[i..] == [] && sizes[i..] == [];
    ThenItemsDone(vec, cur.data);
    return Ok(vec);
  }

  /** The member loop of the Struct arm: as for a Tuple, each value inserted under its
      field name. */
  method ParseFields(t: Ty, sizes: seq<Option<nat>>, cur: Cursor) returns (r: Result<map<string, Value>>)
    requires t.Struct? && |sizes| == |t.fields|
    modifies cur
    ensures match DecodeBody(Members(t), sizes, old(cur.data))
      case Ok(b) => r == Ok(Insert(map[], t.fields, b.0)) && cur.data == b.1
      case Err(e) => r == Err(e)
    decreases Depth(t), 0
  {
    var fs := t.fields;
    var ms := Members(t);
    var m: map<string, Value> := map[];
    ghost var vec: seq<Value> := [];
    ThenItemsNil(DecodeBody(ms, sizes, cur.data));
    assert ms[0..] == ms && sizes[0..] == sizes;
    var i := 0;
    while i < |fs|
      invariant 0 <= i <= |fs| && |vec| == i
      invariant m == Insert(map[], fs[..i], vec)
      invariant DecodeBody(ms, sizes, old(cur.data)) == ThenItems(vec, DecodeBody(ms[i..], sizes[i..], cur.data))
    {
      MemberDepth(ms, i);
      BodyLoopStep(ms, sizes, i, cur.data, DecodeBody(ms, sizes, old(cur.data)), vec);
      var x :- ParseMember(ms[i], sizes[i], cur);
      InsertSnoc(fs, i, vec, x);
      m := m[fs[i].name := x];
      vec := vec + [x];
      i := i + 1;
    }
    assert ms[i..] == [] && sizes[i..] == [] && fs[..i] == fs;
    ThenItemsDone(vec, cur.data);
    return Ok(m);
  }

  // ---------------------------------------------------------------------------------------
  // Steps of the parse loops

  lemma ThenItemsNil<T>(r: Result<(seq<T>, Bytes)>)
    ensures ThenItems([], r) == r
  {
    if r.Ok? {
      assert [] + r.value.0 == r.value.0;
    }
  }

  lemma ThenItemsDone<T>(xs: seq<T>, d: Bytes)
    ensures ThenItems(xs, Ok(([], d))) == Ok((xs, d))
  {
    assert xs + [] == xs;
  }

  /** What one member of the Tuple and Struct loops reads: (the member, the rest). */
  function MemberSpec(m: Ty, size: Option<nat>, d: Bytes): Result<(Value, Bytes)>
  {
    var len := if size.Some? then size.value else |d|;
    var sub :- TakeN(d, len);
    var x :- Decode(m, sub.0);
    Ok((x.0, sub.1))
  }

  /** The invariant of the element loop carried over one element (k elements left). */
  lemma RepeatLoopStep(e: Ty, k: nat, varint: bool, d: Bytes, whole: Result<(seq<Value>, Bytes)>, vec: seq<Value>)
    requires k > 0 && whole == ThenItems(vec, DecodeRepeat(e, k, d, varint))
    ensures match ElementSpec(e, varint, d)
      case Err(err) => whole == Err(err)
      case Ok(x) => whole == ThenItems(vec + [x.0], DecodeRepeat(e, k - 1, x.1, varint))
  {
    RepeatUnfoldParse(e, k, d, varint);
    var x := ElementSpec(e, varint, d);
    if x.Ok? {
      ThenItemsStep(vec, x.value.0, DecodeRepeat(e, k - 1, x.value.1, varint));
    }
  }

  lemma RepeatUnfoldParse(e: Ty, k: nat, d: Bytes, varint: bool)
    requires k > 0
    ensures DecodeRepeat(e, k, d, varint) == match ElementSpec(e, varint, d)
      case Err(err) => Err(err)
      case Ok(x) => ThenItems([x.0], DecodeRepeat(e, k - 1, x.1, varint))
  {
  }

  /** The invariant of the header loop carried over member i. */
  lemma HeaderLoopStep(ms: seq<Ty>, i: nat, d: Bytes, whole: Result<(seq<Option<nat>>, Bytes)>, sizes: seq<Option<nat>>)
    requires i < |ms| && whole == ThenItems(sizes, DecodeHeader(ms[i..], d))
    ensures match HeaderEntry(ms[i], i + 1 == |ms|, d)
      case Err(err) => whole == Err(err)
      case Ok(size) => whole == ThenItems(sizes + [size.0], DecodeHeader(ms[i + 1..], size.1))
  {
    assert ms[i..][1..] == ms[i + 1..];
    var size := HeaderEntry(ms[i], i + 1 == |ms|, d);
    if size.Ok? {
      ThenItemsStep(sizes, size.value.0, DecodeHeader(ms[i + 1..], size.value.1));
    }
  }

  /** The invariant of the member loop of `parse` carried over member i. */
  lemma BodyLoopStep(ms: seq<Ty>, sizes: seq<Option<nat>>, i: nat, d: Bytes, whole: Result<(seq<Value>, Bytes)>, vec: seq<Value>)
    requires |sizes| == |ms| && i < |ms| && whole == ThenItems(vec, DecodeBody(ms[i..], sizes[i..], d))
    ensures match MemberSpec(ms[i], sizes[i], d)
      case Err(err) => whole == Err(err)
      case Ok(x) => whole == ThenItems(vec + [x.0], DecodeBody(ms[i + 1..], sizes[i + 1..], x.1))
  {
    BodyUnfold(ms[i..], sizes[i..], d);
    assert ms[i..][1..] == ms[i + 1..] && sizes[i..][1..] == sizes[i + 1..];
    var x := MemberSpec(ms[i], sizes[i], d);
    if x.Ok? {
      ThenItemsStep(vec, x.value.0, DecodeBody(ms[i + 1..], sizes[i + 1..], x.value.1));
    }
  }

  lemma BodyUnfold(ms: seq<Ty>, sizes: seq<Option<nat>>, d: Bytes)
    requires |sizes| == |ms| && ms != []
    ensures DecodeBody(ms, sizes, d) == match MemberSpec(ms[0], sizes[0], d)
      case Err(err) => Err(err)
      case Ok(x) => ThenItems([x.0], DecodeBody(ms[1..], sizes[1..], x.1))
  {
  }

  /** `map.insert` of one more field extends the fold over the fields before it. */
  lemma InsertSnoc(fs: seq<Field>, i: nat, vals: seq<Value>, x: Value)
    requires i < |fs| && |vals| == i
    ensures Insert(map[], fs[..i + 1], vals + [x]) == Insert(map[], fs[..i], vals)[fs[i].name := x]
  {
    assert fs[..i + 1] == fs[..i] + [fs[i]];
    InsertLast(map[], fs[..i], vals, fs[i], x);
  }

  lemma {:induction false} InsertLast(acc: map<string, Value>, fs: seq<Field>, vals: seq<Value>, f: Field, x: Value)
    requires |vals| == |fs|
    ensures Insert(acc, fs + [f], vals + [x]) == Insert(acc, fs, vals)[f.name := x]
    decreases |fs|
  {
    if fs != [] {
      assert (fs + [f])[1..] == fs[1..] + [f];
      assert (vals + [x])[1..] == vals[1..] + [x];
      InsertLast(acc[fs[0].name := vals[0]], fs[1..], vals[1..], f, x);
    } else {
      assert Insert(acc[f.name := x], [], []) == acc[f.name := x];
    }
  }

  // ---------------------------------------------------------------------------------------
  // Steps of the encode loops

  lemma ThenNil(r: Result<Bytes>)
    ensures Then([], r) == r
  {
    if r.Ok? {
      assert [] + r.value == r.value;
    }
  }

  lemma ThenPairNil(r: Result<(Bytes, Bytes)>)
    ensures ThenPair([], [], r) == r
  {
    if r.Ok? {
      assert [] + r.value.0 == r.value.0 && [] + r.value.1 == r.value.1;
    }
  }

  lemma AppendStep(before: Bytes, done: Bytes, prefix: Bytes, b: Bytes)
    ensures before + done + prefix + b == before + (done + (prefix + b))
  {
  }

  /** One step of the element loop: element i's encoding, then the rest. */
  lemma RepeatUnfold(e: Ty, xs: seq<Value>, varint: bool, i: nat)
    requires i < |xs|
    ensures EncodeRepeat(e, xs[i..], varint) ==
      if Encode(e, xs[i]).Err? then Err(Encode(e, xs[i]).error)
      else
        var b := Encode(e, xs[i]).value;
        Then(LengthPrefix(e, varint, |b|) + b, EncodeRepeat(e, xs[i + 1..], varint))
  {
    assert xs[i..][1..] == xs[i + 1..];
  }

  /** The invariant of the member loop carried over member i. */
  lemma MembersLoopStep(ms: seq<Ty>, vals: seq<Result<Value>>, i: nat, h: Bytes, b: Bytes)
    requires |vals| == |ms| && i < |ms|
    requires EncodeMembers(ms, vals) == ThenPair(h, b, EncodeMembers(ms[i..], vals[i..]))
    ensures match MemberStep(ms[i], vals[i], i + 1 == |ms|)
      case Ok(hb) => EncodeMembers(ms, vals) == ThenPair(h + hb.0, b + hb.1, EncodeMembers(ms[i + 1..], vals[i + 1..]))
      case Err(e) => EncodeMembers(ms, vals) == Err(e)
  {
    MembersUnfold(ms, vals, i);
    var step := MemberStep(ms[i], vals[i], i + 1 == |ms|);
    if step.Ok? {
      ThenPairStep(h, b, step.value.0, step.value.1, EncodeMembers(ms[i + 1..], vals[i + 1..]));
    }
  }

  /** The invariant of the member loop once every member is done. */
  lemma MembersDone(ms: seq<Ty>, vals: seq<Result<Value>>, h: Bytes, b: Bytes)
    requires |vals| == |ms| && EncodeMembers(ms, vals) == ThenPair(h, b, EncodeMembers(ms[|ms|..], vals[|ms|..]))
    ensures EncodeMembers(ms, vals) == Ok((h, b))
  {
    assert ms[|ms|..] == [] && vals[|ms|..] == [];
    assert h + [] == h && b + [] == b;
  }

  /** What one member contributes: (its header entry, its bytes). */
  function MemberStep(m: Ty, x: Result<Value>, last: bool): Result<(Bytes, Bytes)>
  {
    var v :- x;
    var b :- Encode(m, v);
    Ok((HeaderLength(m, last, |b|), b))
  }

  /** One step of the member loop: member i's contribution, then the rest. */
  lemma MembersUnfold(ms: seq<Ty>, vals: seq<Result<Value>>, i: nat)
    requires |vals| == |ms| && i < |ms|
    ensures EncodeMembers(ms[i..], vals[i..]) ==
      match MemberStep(ms[i], vals[i], i + 1 == |ms|)
      case Ok(hb) => ThenPair(hb.0, hb.1, EncodeMembers(ms[i + 1..], vals[i + 1..]))
      case Err(e) => Err(e)
  {
    assert ms[i..][1..] == ms[i + 1..] && vals[i..][1..] == vals[i + 1..];
  }

  /** The lookup of one field in the copy of the object. */
  function Lookup(f: Field, m: map<string, Value>): Result<Value>
  {
    if f.name in m then Ok(m[f.name]) else if f.ty.Optional? then Ok(Null) else Err(MissingField(f.name))
  }

  /** One step of the field lookups: field i is looked up in, then removed from, the copy. */
  lemma FieldsStep(fs: seq<Field>, m: map<string, Value>, vals: seq<Result<Value>>, left: map<string, Value>, i: nat)
    requires i < |fs| && |vals| == |fs| && FieldValues(fs[i..], m) == (vals[i..], left)
    ensures vals[i] == Lookup(fs[i], m)
    ensures FieldValues(fs[i + 1..], m - {fs[i].name}) == (vals[i + 1..], left)
  {
    assert fs[i..][1..] == fs[i + 1..];
    assert vals[i..][1..] == vals[i + 1..];
  }

  /** The Tuple arm of Encode once the items are known to have the declared arity. */
  lemma TupleArm(t: Ty, v: Value, items: seq<Value>)
    requires t.Tuple? && |items| == |t.elems| && (v.Null? || v.List?)
    requires items == if v.Null? then [] else v.items
    ensures Encode(t, v) == match EncodeMembers(Members(t), Oks(items))
      case Ok(hb) => Ok(hb.0 + hb.1)
      case Err(e) => Err(e)
  {
  }

  /** The Struct arm of Encode on an object. */
  lemma StructArm(t: Ty, m: map<string, Value>)
    requires t.Struct?
    ensures var fv := FieldValues(t.fields, m);
      Encode(t, Object(m)) == match EncodeMembers(Members(t), fv.0)
        case Ok(hb) => if fv.1 != map[] then Err(UndefinedField) else Ok(hb.0 + hb.1)
        case Err(e) => Err(e)
  {
  }
}
