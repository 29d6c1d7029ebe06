/** src/transcode.rs: the `K` and `V` key/value adapters that redb calls, each reading its
    own binding of type name, fixed width and type tree, and the textual value helpers. */
module Transcode {
  import opened Wrappers
  import opened Bytes
  import opened Types
  import opened Codec
  import opened ValueOrder
  import CodecLemmas
  import CodecImpl

  /** redb's `TypeName`: a name, and whether redb defines it for one of its built-in types
      (`TypeName::internal`) or it came from a user (`TypeName::new`). */
  datatype TypeName = TypeName(internal: bool, name: string)

  /** `String::type_name()`, the name a binding starts from. */
  const StringTypeName := TypeName(true, "String")

  /** One side (K or V) of the schema binding: the `*_NAME`, `*_WIDTH` and `*_TREE` cells. */
  class Binding {
    var name: TypeName
    var width: Option<nat>
    var tree: Option<Ty>

    constructor ()
      ensures name == StringTypeName && width == None && tree == None
    {
      name := StringTypeName;
      width := None;
      tree := None;
    }

    /** `fixed_width`: the WIDTH cell of this binding. */
    function FixedWidth(): (w: Option<nat>)
      reads this
      ensures w == width
    {
      width
    }

    /** `type_name`: the NAME cell of this binding. */
    function Name(): (n: TypeName)
      reads this
      ensures n == name
    {
      name
    }

    /** `from_bytes`: `parse` under the bound tree; bytes after the value are ignored.
        An empty TREE cell or a parse error is a panic. */
    function FromBytes(d: Bytes): (r: Result<Value>)
      reads this
      ensures r.Ok? <==> tree.Some? && Decode(tree.value, d).Ok?
      ensures r.Ok? ==> r.value == Decode(tree.value, d).value.0
      ensures tree.None? ==> r == Err(Panic(UnboundTree))
      ensures tree.Some? && Decode(tree.value, d).Err? ==> r == Err(Panic(Unwrapped(Decode(tree.value, d).error)))
    {
      if tree.None? then Err(Panic(UnboundTree))
      else
        match Decode(tree.value, d)
        case Err(e) => Err(Panic(Unwrapped(e)))
        case Ok(p) => Ok(p.0)
    }

    /** `compare`: decode both buffers under the bound tree and compare the values, never
        the raw bytes. A `None` or `unreachable!()` of `ordering` is a panic. */
    function Compare(d1: Bytes, d2: Bytes): (r: Result<Cmp>)
      reads this
      ensures r.Ok? ==>
        (FromBytes(d1).Ok? && FromBytes(d2).Ok?
         && Ordering(FromBytes(d1).value, FromBytes(d2).value) == Ordered(r.value))
      ensures FromBytes(d1).Err? ==> r == Err(FromBytes(d1).error)
      ensures FromBytes(d1).Ok? && FromBytes(d2).Err? ==> r == Err(FromBytes(d2).error)
      ensures r.Err? ==> r.error.Panic?
      ensures FromBytes(d1).Ok? && FromBytes(d2).Ok? ==>
        match Ordering(FromBytes(d1).value, FromBytes(d2).value)
        case Ordered(c) => r == Ok(c)
        case Unordered => r == Err(Panic(NoOrdering))
        case Unreachable => r == Err(Panic(UnreachableArm))
    {
      var l :- FromBytes(d1);
      var r :- FromBytes(d2);
      match Ordering(l, r)
      case Ordered(c) => Ok(c)
      case Unordered => Err(Panic(NoOrdering))
      case Unreachable => Err(Panic(UnreachableArm))
    }

    /** `as_bytes`: `encode` under the bound tree into a fresh buffer. An empty TREE cell
        or an encode error is a panic. */
    method AsBytes(v: Value) returns (r: Result<Bytes>)
      ensures tree.None? ==> r == Err(Panic(UnboundTree))
      ensures tree.Some? && Encode(tree.value, v).Ok? ==> r == Encode(tree.value, v)
      ensures tree.Some? && Encode(tree.value, v).Err? ==> r == Err(Panic(Unwrapped(Encode(tree.value, v).error)))
    {
      if tree.None? {
        return Err(Panic(UnboundTree));
      }
      var t := tree.value;
      var buf := new CodecImpl.Buffer();
      var e := CodecImpl.EncodeInto(t, v, buf);
      if e.Err? {
        return Err(Panic(Unwrapped(e.error)));
      }
      assert buf.bytes == [] + Encode(t, v).value;
      assert buf.bytes == Encode(t, v).value;
      r := Ok(buf.bytes);
    }
  }

  /** The two independent bindings: the adapters of `K` read only `k`, those of `V` only `v`. */
  class Cells {
    const k: Binding
    const v: Binding

    constructor ()
      ensures fresh(k) && fresh(v) && k != v
      ensures k.name == StringTypeName && k.width == None && k.tree == None
      ensures v.name == StringTypeName && v.width == None && v.tree == None
    {
      k := new Binding();
      v := new Binding();
    }
  }

  // ---------------------------------------------------------------------------------------
  // The adapters inherit the codec's guarantees

  /** `from_bytes` after `as_bytes` gives the value back. */
  lemma FromBytesAsBytes(b: Binding, t: Ty, v: Value)
    requires b.tree == Some(t) && WellFormed(t) && HasType(t, v) && Bounded(v)
    requires Encode(t, v).Ok? && |Encode(t, v).value| < TwoTo32
    ensures b.FromBytes(Encode(t, v).value) == Ok(v)
  {
    CodecLemmas.RoundTrip(t, v);
  }

  /** Bytes that decode under the bound tree always compare when the tree is orderable,
      so the `unwrap`s of `compare` never fire on them. */
  lemma CompareTotal(b: Binding, d1: Bytes, d2: Bytes)
    requires b.tree.Some? && CanOrder(b.tree.value)
    requires b.FromBytes(d1).Ok? && b.FromBytes(d2).Ok?
    ensures b.Compare(d1, d2).Ok?
  {
    var t := b.tree.value;
    OrderableWellFormed(t);
    CodecLemmas.DecodeTyped(t, d1);
    CodecLemmas.DecodeTyped(t, d2);
    OrderingTyped(t, b.FromBytes(d1).value, b.FromBytes(d2).value);
  }

  /** On encoded values, `compare` is `ordering` of the values themselves. */
  lemma CompareEncoded(b: Binding, t: Ty, v1: Value, v2: Value)
    requires b.tree == Some(t) && CanOrder(t)
    requires HasType(t, v1) && Bounded(v1) && Encode(t, v1).Ok? && |Encode(t, v1).value| < TwoTo32
    requires HasType(t, v2) && Bounded(v2) && Encode(t, v2).Ok? && |Encode(t, v2).value| < TwoTo32
    ensures Ordering(v1, v2).Ordered?
    ensures b.Compare(Encode(t, v1).value, Encode(t, v2).value) == Ok(Ordering(v1, v2).c)
  {
    OrderableWellFormed(t);
    FromBytesAsBytes(b, t, v1);
    FromBytesAsBytes(b, t, v2);
    OrderingTyped(t, v1, v2);
  }

  /** `compare` is a total order on the bytes that decode under an orderable tree:
      swapping flips it, Equal means the same decoded value, and Less is transitive. */
  lemma CompareOrder(b: Binding, d1: Bytes, d2: Bytes, d3: Bytes)
    requires b.tree.Some? && CanOrder(b.tree.value)
    requires b.FromBytes(d1).Ok? && b.FromBytes(d2).Ok? && b.FromBytes(d3).Ok?
    ensures b.Compare(d1, d2).Ok? && b.Compare(d2, d1) == Ok(Flip(b.Compare(d1, d2).value))
    ensures b.Compare(d1, d2) == Ok(Equal) <==> b.FromBytes(d1) == b.FromBytes(d2)
    ensures b.Compare(d1, d2) == Ok(Less) && b.Compare(d2, d3) == Ok(Less) ==> b.Compare(d1, d3) == Ok(Less)
  {
    var t := b.tree.value;
    var x, y, z := b.FromBytes(d1).value, b.FromBytes(d2).value, b.FromBytes(d3).value;
    OrderableWellFormed(t);
    CodecLemmas.DecodeTyped(t, d1);
    CodecLemmas.DecodeTyped(t, d2);
    CodecLemmas.DecodeTyped(t, d3);
    CompareTotal(b, d1, d2);
    CompareTotal(b, d2, d3);
    CompareTotal(b, d1, d3);
    OrderingFlip(x, y);
    if Ordering(x, y) == Ordered(Equal) {
      OrderingEqualIsSame(x, y);
    }
    if x == y {
      OrderingReflexive(t, x);
    }
    if Ordering(x, y) == Ordered(Less) && Ordering(y, z) == Ordered(Less) {
      OrderingTransitive(t, x, y, z);
    }
  }

  /** Two i32 keys of opposite sign. */
  const NegativeKey: int := -1000000
  const PositiveKey: int := 1000000

  /** An i32 key: -1000000 sorts before 1000000 under `compare`, although its
      two's-complement bytes are the greater byte string. */
  lemma NegativeKeyFirst(b: Binding)
    requires b.tree == Some(Int(true, W32))
    ensures var lo, hi := Encode(Int(true, W32), Number(NegativeKey)), Encode(Int(true, W32), Number(PositiveKey));
      lo.Ok? && hi.Ok? && b.Compare(lo.value, hi.value) == Ok(Less) && CmpLex(lo.value, hi.value) == Greater
  {
    var t, a, c := Int(true, W32), Number(NegativeKey), Number(PositiveKey);
    I32Encodings();
    var lo, hi := Encode(t, a).value, Encode(t, c).value;
    NumbersTyped(true, W32, a.n, c.n);
    assert Ordering(a, c) == Ordered(Less);
    CompareEncoded(b, t, a, c);
    assert CmpLex(lo, hi) == CmpInt(lo[0], hi[0]);
  }

  /** The facts about the two i32 encodings that the example needs. */
  lemma I32Encodings()
    ensures IntFits(true, W32, NegativeKey) && IntFits(true, W32, PositiveKey)
    ensures var lo, hi := Encode(Int(true, W32), Number(NegativeKey)), Encode(Int(true, W32), Number(PositiveKey));
      lo.Ok? && hi.Ok? && |lo.value| == 4 && |hi.value| == 4 && lo.value[0] == 0xC0 && hi.value[0] == 0x40
  {
    PowFour();
    assert IntFits(true, W32, NegativeKey) && IntFits(true, W32, PositiveKey);
    CodecLemmas.EncodeSignedValue(W32, NegativeKey);
    CodecLemmas.EncodeSignedValue(W32, PositiveKey);
    assert Twos(NegativeKey, 4) == 0xFFF0_BDC0;
    LEHead(0xFFF0_BDC0, 4);
    LEHead(0xF_4240, 4);
  }

  lemma PowFour()
    ensures Pow256(4) == 0x1_0000_0000
  {
    assert Pow256(1) == 256;
    assert Pow256(2) == 65536;
    assert Pow256(3) == 0x100_0000;
  }

  // ---------------------------------------------------------------------------------------
  // The textual value helpers

  /** The two type names whose values are read and written as raw text. */
  predicate IsText(ty: string)
  {
    ty == "&str" || ty == "String"
  }

  /** `string_to_val`: raw text for a textual type, otherwise JSON (`fromJson`, which
      stands for `serde_json::from_str`). */
  function StringToVal(ty: string, text: string, fromJson: string -> Result<Value>): (r: Result<Value>)
    ensures IsText(ty) ==> r == Ok(Str(text))
    ensures !IsText(ty) ==> r == fromJson(text)
  {
    if IsText(ty) then Ok(Str(text)) else fromJson(text)
  }

  /** `val_to_string`: the string itself for a textual type (any other value panics),
      otherwise JSON (`toJson`, which stands for `serde_json::to_string`). */
  function ValToString(ty: string, v: Value, toJson: Value -> string): (r: Result<string>)
    ensures IsText(ty) ==> (r.Ok? <==> v.Str?)
    ensures IsText(ty) && v.Str? ==> r == Ok(v.s)
    ensures !IsText(ty) ==> r == Ok(toJson(v))
  {
    if IsText(ty) then
      if v.Str? then Ok(v.s) else Err(Panic(NotText))
    else Ok(toJson(v))
  }

  /** Text read as a textual value prints back unchanged, and a string value read back
      from its text is the same value. */
  lemma TextRoundTrip(ty: string, text: string, v: Value, fromJson: string -> Result<Value>, toJson: Value -> string)
    requires IsText(ty)
    ensures StringToVal(ty, text, fromJson).Ok?
    ensures ValToString(ty, StringToVal(ty, text, fromJson).value, toJson) == Ok(text)
    ensures v.Str? ==> StringToVal(ty, ValToString(ty, v, toJson).value, fromJson) == Ok(v)
  {
  }
}
