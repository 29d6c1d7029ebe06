/** The run-time type tree, the JSON-like value model, and the two pure resolvers of
    src/parser.rs: `parse_size` (Width) and `can_order` (CanOrder). */
module Types {
  import opened Wrappers
  import opened Bytes
  import Utf8

  datatype IntWidth = W8 | W16 | W32 | W64 | W128
  datatype FloatWidth = F32 | F64

  /** One node of a parsed type descriptor; the grammar only admits the widths above. */
  datatype Ty =
    | Bool
    | Char
    | Int(signed: bool, width: IntWidth)
    | Float(fwidth: FloatWidth)
    | String
    | Slice                                  // &[u8]
    | Array(elem: Ty, len: nat)              // [T; N]
    | Vec(elem: Ty)                          // Vec<T>
    | Optional(inner: Ty)                    // Option<T>
    | Tuple(elems: seq<Ty>)                  // (T, ...)
    | Struct(name: string, fields: seq<Field>)

  datatype Field = Field(name: string, ty: Ty)

  /** `serde_json::Value`. Numbers are the integers that a Number holds; a float is kept as
      the raw little-endian bytes of its declared width (float numerics are not modelled). */
  datatype Value =
    | Null
    | Boolean(b: bool)
    | Number(n: int)
    | Str(s: string)
    | List(items: seq<Value>)
    | Object(entries: map<string, Value>)
    | FloatBits(raw: Bytes)

  function IntBytes(w: IntWidth): nat
  {
    match w
    case W8 => 1
    case W16 => 2
    case W32 => 4
    case W64 => 8
    case W128 => 16
  }

  function FloatBytes(w: FloatWidth): nat
  {
    match w
    case F32 => 4
    case F64 => 8
  }

  /** The numbers an integer type of the given signedness and width can hold. */
  predicate IntFits(signed: bool, w: IntWidth, n: int)
  {
    var p := Pow256(IntBytes(w));
    if signed then -((p / 2) as int) <= n < p / 2 else 0 <= n < p
  }

  /** `Number::as_u128` and `Number::as_i128` succeed on exactly these numbers. */
  predicate InU128(n: int) { 0 <= n < Pow256(16) }
  predicate InI128(n: int) { -((Pow256(16) / 2) as int) <= n < Pow256(16) / 2 }

  /** Every number an integer type holds passes `as_u128` (unsigned) or `as_i128` (signed). */
  lemma IntFitsWide(signed: bool, w: IntWidth, n: int)
    requires IntFits(signed, w, n)
    ensures if signed then InI128(n) else InU128(n)
  {
    Pow256Monotone(IntBytes(w), 16);
  }

  // ---------------------------------------------------------------------------------------
  // redb's fixed layout of `char`: the code point as three little-endian bytes.

  const CharWidth: nat := 3

  function CharBytes(c: char): (b: Bytes)
    ensures |b| == CharWidth
  {
    LE(c as int, CharWidth)
  }

  /** None where redb's `char::from_u32(..).unwrap()` would panic. */
  function CharFromBytes(b: Bytes): Option<char>
    requires |b| == CharWidth
  {
    var n := FromLE(b);
    if Utf8.IsScalar(n) then Some(n as char) else None
  }

  lemma CharRoundTrip(c: char)
    ensures CharFromBytes(CharBytes(c)) == Some(c)
  {
    FromLEOfLE(c as int, CharWidth);
  }

  lemma CharBytesRoundTrip(b: Bytes)
    requires |b| == CharWidth && CharFromBytes(b).Some?
    ensures CharBytes(CharFromBytes(b).value) == b
  {
    LEOfFromLE(b);
  }

  // ---------------------------------------------------------------------------------------
  // Depth: the termination measure for recursion through the members of a Tuple or Struct

  function Max(a: nat, b: nat): nat { if a < b then b else a }

  function Depth(t: Ty): nat
  {
    match t
    case Array(e, _) => 1 + Depth(e)
    case Vec(e) => 1 + Depth(e)
    case Optional(i) => 1 + Depth(i)
    case Tuple(ts) => 1 + DepthOfAll(ts)
    case Struct(_, fs) => 1 + DepthOfFields(fs)
    case _ => 0
  }

  function DepthOfAll(ts: seq<Ty>): nat
  {
    if ts == [] then 0 else Max(Depth(ts[0]), DepthOfAll(ts[1..]))
  }

  function DepthOfFields(fs: seq<Field>): nat
  {
    if fs == [] then 0 else Max(Depth(fs[0].ty), DepthOfFields(fs[1..]))
  }

  function FieldTypes(fs: seq<Field>): (ts: seq<Ty>)
    ensures |ts| == |fs| && forall i :: 0 <= i < |fs| ==> ts[i] == fs[i].ty
  {
    if fs == [] then [] else [fs[0].ty] + FieldTypes(fs[1..])
  }

  /** The names of a struct's fields. */
  function FieldNames(fs: seq<Field>): (names: set<string>)
    ensures forall i :: 0 <= i < |fs| ==> fs[i].name in names
    ensures forall k :: k in names ==> exists i :: 0 <= i < |fs| && fs[i].name == k
  {
    set i | 0 <= i < |fs| :: fs[i].name
  }

  /** The names of a non-empty field list: the first, then those of the rest. */
  lemma FieldNamesCons(fs: seq<Field>)
    requires fs != []
    ensures FieldNames(fs) == {fs[0].name} + FieldNames(fs[1..])
  {
    forall k | k in FieldNames(fs)
      ensures k in {fs[0].name} + FieldNames(fs[1..])
    {
      var i :| 0 <= i < |fs| && fs[i].name == k;
      if i > 0 {
        assert fs[1..][i - 1] == fs[i];
      }
    }
  }

  lemma {:induction false} DepthOfFieldTypes(fs: seq<Field>)
    ensures DepthOfAll(FieldTypes(fs)) == DepthOfFields(fs)
  {
    if fs != [] {
      DepthOfFieldTypes(fs[1..]);
      assert FieldTypes(fs)[1..] == FieldTypes(fs[1..]);
    }
  }

  lemma {:induction false} MemberDepth(ms: seq<Ty>, i: nat)
    requires i < |ms|
    ensures Depth(ms[i]) <= DepthOfAll(ms)
  {
    if i > 0 {
      MemberDepth(ms[1..], i - 1);
    }
  }

  /** The member types of a Tuple or Struct, in declaration order. */
  function Members(t: Ty): (ms: seq<Ty>)
    requires t.Tuple? || t.Struct?
    ensures DepthOfAll(ms) < Depth(t)
    ensures t.Tuple? ==> ms == t.elems
    ensures t.Struct? ==> |ms| == |t.fields| && forall i :: 0 <= i < |ms| ==> ms[i] == t.fields[i].ty
  {
    if t.Tuple? then t.elems
    else
      DepthOfFieldTypes(t.fields);
      FieldTypes(t.fields)
  }

  // ---------------------------------------------------------------------------------------
  // parse_size

  /** `parse_size`: the fixed encoded width of t, or None when it is variable. */
  function Width(t: Ty): Option<nat>
    decreases Depth(t), 1, 0
  {
    match t
    case Bool => Some(1)
    case Char => Some(CharWidth)
    case Int(_, w) => Some(IntBytes(w))
    case Float(w) => Some(FloatBytes(w))
    case String => None
    case Slice => None
    case Array(e, n) => if Width(e).Some? then Some(Width(e).value * n) else None
    case Vec(_) => None
    case Optional(i) => if Width(i).Some? then Some(1 + Width(i).value) else None
    case Tuple(_) => SumWidths(Members(t))
    case Struct(_, _) => SumWidths(Members(t))
  }

  /** The loop of `parse_size` over Tuple and Struct members: the sum of their widths,
      or None as soon as one member is variable. */
  function SumWidths(ms: seq<Ty>): (r: Option<nat>)
    decreases DepthOfAll(ms), 2, |ms|
  {
    if ms == [] then Some(0)
    else if Width(ms[0]).None? then None
    else
      var rest := SumWidths(ms[1..]);
      if rest.None? then None else Some(Width(ms[0]).value + rest.value)
  }

  /** Members are fixed exactly when their sum is: a reference definition of SumWidths. */
  lemma {:induction false} SumWidthsFixed(ms: seq<Ty>)
    ensures SumWidths(ms).Some? <==> forall i :: 0 <= i < |ms| ==> Width(ms[i]).Some?
    ensures SumWidths(ms).Some? ==> SumWidths(ms).value == SumOf(ms)
    decreases |ms|
  {
    if ms != [] {
      SumWidthsFixed(ms[1..]);
      if Width(ms[0]).Some? && SumWidths(ms[1..]).None? {
        var i :| 0 <= i < |ms[1..]| && Width(ms[1..][i]).None?;
        assert Width(ms[i + 1]).None?;
      }
    }
  }

  /** The sum of the fixed widths of ms (variable members count as zero). */
  function SumOf(ms: seq<Ty>): nat
  {
    if ms == [] then 0 else (if Width(ms[0]).Some? then Width(ms[0]).value else 0) + SumOf(ms[1..])
  }

  // ---------------------------------------------------------------------------------------
  // can_order

  /** `can_order`: whether values of t may serve as a sort key. Floats have no total order
      and a JSON object does not keep its field order, so neither is orderable. */
  predicate CanOrder(t: Ty)
  {
    match t
    case Bool => true
    case Char => true
    case Int(_, _) => true
    case String => true
    case Slice => true
    case Float(_) => false
    case Array(e, _) => CanOrder(e)
    case Vec(e) => CanOrder(e)
    case Optional(i) => CanOrder(i)
    case Tuple(ts) => AllCanOrder(ts)
    case Struct(_, _) => false
  }

  /** The early-return loop of `can_order` over Tuple members. */
  predicate AllCanOrder(ts: seq<Ty>)
  {
    ts == [] || (CanOrder(ts[0]) && AllCanOrder(ts[1..]))
  }

  /** A type is orderable exactly when no Float and no Struct occurs in it. */
  lemma {:induction false} CanOrderIffNoFloatOrStruct(t: Ty)
    ensures CanOrder(t) <==> !MentionsFloatOrStruct(t)
  {
    match t
    case Array(e, _) => CanOrderIffNoFloatOrStruct(e);
    case Vec(e) => CanOrderIffNoFloatOrStruct(e);
    case Optional(i) => CanOrderIffNoFloatOrStruct(i);
    case Tuple(ts) => AllCanOrderIff(ts);
    case _ =>
  }

  lemma {:induction false} AllCanOrderIff(ts: seq<Ty>)
    ensures AllCanOrder(ts) <==> forall i :: 0 <= i < |ts| ==> !MentionsFloatOrStruct(ts[i])
  {
    if ts != [] {
      CanOrderIffNoFloatOrStruct(ts[0]);
      AllCanOrderIff(ts[1..]);
      assert forall i :: 1 <= i < |ts| ==> ts[i] == ts[1..][i - 1];
    }
  }

  predicate MentionsFloatOrStruct(t: Ty)
  {
    match t
    case Float(_) => true
    case Struct(_, _) => true
    case Array(e, _) => MentionsFloatOrStruct(e)
    case Vec(e) => MentionsFloatOrStruct(e)
    case Optional(i) => MentionsFloatOrStruct(i)
    case Tuple(ts) => exists i :: 0 <= i < |ts| && MentionsFloatOrStruct(ts[i])
    case _ => false
  }

  // ---------------------------------------------------------------------------------------
  // Well-formed trees and well-typed values

  /** Field names of every Struct are distinct (as in any Rust struct). */
  predicate WellFormed(t: Ty)
  {
    match t
    case Array(e, _) => WellFormed(e)
    case Vec(e) => WellFormed(e)
    case Optional(i) => WellFormed(i)
    case Tuple(ts) => forall i :: 0 <= i < |ts| ==> WellFormed(ts[i])
    case Struct(_, fs) =>
      (forall i, j :: 0 <= i < j < |fs| ==> fs[i].name != fs[j].name)
      && forall i :: 0 <= i < |fs| ==> WellFormed(fs[i].ty)
    case _ => true
  }

  /** The values that values of type t decode to: the shape serde gives a Rust value of t.
      The unit tuple is Null, and `Option` has no separate `Some(None)`. */
  predicate HasType(t: Ty, v: Value)
  {
    match t
    case Bool => v.Boolean?
    case Char => v.Str? && |v.s| == 1
    case Int(s, w) => v.Number? && IntFits(s, w, v.n)
    case Float(w) => v.FloatBits? && |v.raw| == FloatBytes(w)
    case String => v.Str?
    case Slice => v.List? && forall i :: 0 <= i < |v.items| ==> v.items[i].Number? && 0 <= v.items[i].n < 256
    case Array(e, n) => v.List? && |v.items| == n && forall i :: 0 <= i < n ==> HasType(e, v.items[i])
    case Vec(e) => v.List? && forall i :: 0 <= i < |v.items| ==> HasType(e, v.items[i])
    case Optional(i) => v.Null? || HasType(i, v)
    case Tuple(ts) =>
      if ts == [] then v.Null?
      else v.List? && |v.items| == |ts| && forall i :: 0 <= i < |ts| ==> HasType(ts[i], v.items[i])
    case Struct(_, fs) =>
      v.Object? && v.entries.Keys == FieldNames(fs)
      && forall i :: 0 <= i < |fs| ==> HasType(fs[i].ty, v.entries[fs[i].name])
  }

  /** Every list in v has fewer than 2^32 items, so a Vec count survives the `as u32` of
      `put_varint`. */
  predicate Bounded(v: Value)
  {
    match v
    case List(items) => |items| < TwoTo32 && forall i :: 0 <= i < |items| ==> Bounded(items[i])
    case Object(m) => forall k :: k in m ==> Bounded(m[k])
    case _ => true
  }
}
