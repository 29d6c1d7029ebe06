/** `ordering` of src/parser.rs: the comparison of two decoded values that stands in for
    redb's key order. */
module ValueOrder {
  import opened Wrappers
  import opened Bytes
  import opened Types
  import Utf8

  datatype Cmp = Less | Equal | Greater

  /** `Some(c)`, `None` (an object is involved), or the `unreachable!()` panic (values of
      different kinds, or numbers that fit neither i128 nor u128 together). */
  datatype Compared = Ordered(c: Cmp) | Unordered | Unreachable

  function Flip(c: Cmp): Cmp
  {
    match c
    case Less => Greater
    case Equal => Equal
    case Greater => Less
  }

  function FlipCompared(r: Compared): Compared
  {
    if r.Ordered? then Ordered(Flip(r.c)) else r
  }

  /** `Ord::cmp` on integers (and on `usize` lengths). */
  function CmpInt(a: int, b: int): (c: Cmp)
    ensures c == Less <==> a < b
    ensures c == Equal <==> a == b
  {
    if a < b then Less else if a == b then Equal else Greater
  }

  /** `Ord::cmp` on `bool`: false before true. */
  function CmpBool(a: bool, b: bool): Cmp
  {
    CmpInt(if a then 1 else 0, if b then 1 else 0)
  }

  /** Lexicographic order on byte strings, a proper prefix first (`Ord::cmp` on `[u8]`). */
  function CmpLex(a: seq<int>, b: seq<int>): Cmp
  {
    if a == [] || b == [] then CmpInt(|a|, |b|)
    else if a[0] != b[0] then CmpInt(a[0], b[0])
    else CmpLex(a[1..], b[1..])
  }

  /** `Ord::cmp` on `String`: the byte order of the UTF-8 encodings. */
  function CmpString(a: string, b: string): Cmp
  {
    CmpLex(Utf8.Encode(a), Utf8.Encode(b))
  }

  /** A measure under which the items of a list are smaller than the list. */
  function Size(v: Value): nat
  {
    if v.List? then 1 + SizeOfAll(v.items) else 1
  }

  function SizeOfAll(vs: seq<Value>): nat
  {
    if vs == [] then 0 else 1 + Size(vs[0]) + SizeOfAll(vs[1..])
  }

  /** Whether i128 or else u128 holds both numbers, as `as_i128().zip(..)` then
      `as_u128().zip(..)` try them. */
  function CmpNumbers(a: int, b: int): Compared
  {
    if InI128(a) && InI128(b) then Ordered(CmpInt(a, b))
    else if InU128(a) && InU128(b) then Ordered(CmpInt(a, b))
    else Unreachable
  }

  function Ordering(l: Value, r: Value): Compared
    decreases Size(l)
  {
    match (l, r)
    case (Null, Null) => Ordered(Equal)
    case (Null, _) => Ordered(Less)
    case (_, Null) => Ordered(Greater)
    case (Boolean(a), Boolean(b)) => Ordered(CmpBool(a, b))
    case (Str(a), Str(b)) => Ordered(CmpString(a, b))
    case (Number(a), Number(b)) => CmpNumbers(a, b)
    case (List(a), List(b)) => OrderingSeq(a, b)
    case (Object(_), Object(_)) => Unordered
    case _ => Unreachable
  }

  /** The Array arm: the first pair of items that is not Equal decides (a `None` or a panic
      there is the result); if one list is a prefix of the other, the lengths decide. */
  function OrderingSeq(a: seq<Value>, b: seq<Value>): Compared
    decreases SizeOfAll(a)
  {
    if a == [] || b == [] then Ordered(CmpInt(|a|, |b|))
    else
      var c := Ordering(a[0], b[0]);
      if c == Ordered(Equal) then OrderingSeq(a[1..], b[1..]) else c
  }

  // ---------------------------------------------------------------------------------------
  // The byte and string orders

  lemma {:induction false} CmpLexFlip(a: seq<int>, b: seq<int>)
    ensures CmpLex(b, a) == Flip(CmpLex(a, b))
  {
    if a != [] && b != [] && a[0] == b[0] {
      CmpLexFlip(a[1..], b[1..]);
    }
  }

  lemma {:induction false} CmpLexEqual(a: seq<int>, b: seq<int>)
    ensures CmpLex(a, b) == Equal <==> a == b
  {
    if a != [] && b != [] && a[0] == b[0] {
      CmpLexEqual(a[1..], b[1..]);
      assert a == [a[0]] + a[1..] && b == [b[0]] + b[1..];
    }
  }

  lemma {:induction false} CmpLexTransitive(a: seq<int>, b: seq<int>, c: seq<int>)
    requires CmpLex(a, b) == Less && CmpLex(b, c) == Less
    ensures CmpLex(a, c) == Less
  {
    if a != [] && b != [] && c != [] && a[0] == b[0] && b[0] == c[0] {
      CmpLexTransitive(a[1..], b[1..], c[1..]);
    }
  }

  lemma StringEqual(a: string, b: string)
    ensures CmpString(a, b) == Equal <==> a == b
  {
    CmpLexEqual(Utf8.Encode(a), Utf8.Encode(b));
    Utf8.DecodeEncode(a);
    Utf8.DecodeEncode(b);
  }

  // ---------------------------------------------------------------------------------------
  // `ordering` on all values

  /** Swapping the operands flips the result; `None` and the panic are symmetric. */
  lemma {:induction false} OrderingFlip(l: Value, r: Value)
    ensures Ordering(r, l) == FlipCompared(Ordering(l, r))
    decreases Size(l)
  {
    match (l, r)
    case (Str(a), Str(b)) => CmpLexFlip(Utf8.Encode(a), Utf8.Encode(b));
    case (List(a), List(b)) => OrderingSeqFlip(a, b);
    case _ =>
  }

  lemma {:induction false} OrderingSeqFlip(a: seq<Value>, b: seq<Value>)
    ensures OrderingSeq(b, a) == FlipCompared(OrderingSeq(a, b))
    decreases SizeOfAll(a)
  {
    if a != [] && b != [] {
      OrderingFlip(a[0], b[0]);
      OrderingSeqFlip(a[1..], b[1..]);
    }
  }

  /** Equal is only ever reported for identical values. */
  lemma {:induction false} OrderingEqualIsSame(l: Value, r: Value)
    requires Ordering(l, r) == Ordered(Equal)
    ensures l == r
    decreases Size(l)
  {
    match (l, r)
    case (Str(a), Str(b)) => StringEqual(a, b);
    case (List(a), List(b)) => OrderingSeqEqualIsSame(a, b);
    case _ =>
  }

  lemma {:induction false} OrderingSeqEqualIsSame(a: seq<Value>, b: seq<Value>)
    requires OrderingSeq(a, b) == Ordered(Equal)
    ensures a == b
    decreases SizeOfAll(a)
  {
    if a != [] && b != [] {
      OrderingEqualIsSame(a[0], b[0]);
      OrderingSeqEqualIsSame(a[1..], b[1..]);
      assert a == [a[0]] + a[1..] && b == [b[0]] + b[1..];
    }
  }

  /** Two objects, even deep inside lists, make the comparison `None`. */
  lemma NestedObjectsUnordered(m1: map<string, Value>, m2: map<string, Value>)
    ensures Ordering(List([List([Object(m1)])]), List([List([Object(m2)])])) == Unordered
  {
    var inner1, inner2 := List([Object(m1)]), List([Object(m2)]);
    assert OrderingSeq([Object(m1)], [Object(m2)]) == Unordered;
    assert Ordering(inner1, inner2) == Unordered;
    assert OrderingSeq([inner1], [inner2]) == Unordered;
  }

  // ---------------------------------------------------------------------------------------
  // On the values of an orderable type, `ordering` is a total order

  /** Numbers of one integer type always compare, in their natural order. */
  lemma NumbersTyped(signed: bool, w: IntWidth, a: int, b: int)
    requires IntFits(signed, w, a) && IntFits(signed, w, b)
    ensures CmpNumbers(a, b) == Ordered(CmpInt(a, b))
  {
    IntFitsWide(signed, w, a);
    IntFitsWide(signed, w, b);
  }

  /** The bytes of a Slice are u8 numbers. */
  lemma ByteNumbersTyped(a: Value, b: Value)
    requires a.Number? && 0 <= a.n < 256 && b.Number? && 0 <= b.n < 256
    ensures Ordering(a, b) == Ordered(CmpInt(a.n, b.n))
  {
    NumbersTyped(false, W8, a.n, b.n);
  }

  /** Lists compare whenever the items at each common position do. */
  lemma {:induction false} OrderingSeqOrdered(a: seq<Value>, b: seq<Value>)
    requires forall i :: 0 <= i < |a| && i < |b| ==> Ordering(a[i], b[i]).Ordered?
    ensures OrderingSeq(a, b).Ordered?
    decreases |a|
  {
    if a != [] && b != [] {
      assert Ordering(a[0], b[0]).Ordered?;
      OrderingSeqOrdered(a[1..], b[1..]);
    }
  }

  /** `ordering(l, r)` of two values of an orderable type is never `None` and never panics,
      which is what the `unwrap` of `compare` relies on. */
  lemma {:induction false} OrderingTyped(t: Ty, a: Value, b: Value)
    requires CanOrder(t) && HasType(t, a) && HasType(t, b)
    ensures Ordering(a, b).Ordered?
    decreases t
  {
    match t
    case Int(s, w) => NumbersTyped(s, w, a.n, b.n);
    case Slice =>
      forall i | 0 <= i < |a.items| && i < |b.items|
        ensures Ordering(a.items[i], b.items[i]).Ordered?
      {
        ByteNumbersTyped(a.items[i], b.items[i]);
      }
      OrderingSeqOrdered(a.items, b.items);
    case Array(e, _) =>
      forall i | 0 <= i < |a.items| && i < |b.items|
        ensures Ordering(a.items[i], b.items[i]).Ordered?
      {
        OrderingTyped(e, a.items[i], b.items[i]);
      }
      OrderingSeqOrdered(a.items, b.items);
    case Vec(e) =>
      forall i | 0 <= i < |a.items| && i < |b.items|
        ensures Ordering(a.items[i], b.items[i]).Ordered?
      {
        OrderingTyped(e, a.items[i], b.items[i]);
      }
      OrderingSeqOrdered(a.items, b.items);
    case Optional(i) =>
      if !a.Null? && !b.Null? {
        OrderingTyped(i, a, b);
      }
    case Tuple(ts) =>
      if ts != [] {
        forall i | 0 <= i < |a.items| && i < |b.items|
          ensures Ordering(a.items[i], b.items[i]).Ordered?
        {
          assert CanOrder(ts[i]) by { AllCanOrderAt(ts, i); }
          OrderingTyped(ts[i], a.items[i], b.items[i]);
        }
        OrderingSeqOrdered(a.items, b.items);
      }
    case _ =>
  }

  lemma {:induction false} AllCanOrderAt(ts: seq<Ty>, i: nat)
    requires AllCanOrder(ts) && i < |ts|
    ensures CanOrder(ts[i])
  {
    if i > 0 {
      AllCanOrderAt(ts[1..], i - 1);
    }
  }

  /** An orderable type has no Struct in it, so it is well formed. */
  lemma {:induction false} OrderableWellFormed(t: Ty)
    requires CanOrder(t)
    ensures WellFormed(t)
    decreases t
  {
    match t
    case Array(e, _) => OrderableWellFormed(e);
    case Vec(e) => OrderableWellFormed(e);
    case Optional(i) => OrderableWellFormed(i);
    case Tuple(ts) =>
      forall i | 0 <= i < |ts| ensures WellFormed(ts[i]) {
        AllCanOrderAt(ts, i);
        OrderableWellFormed(ts[i]);
      }
    case _ =>
  }

  /** A value of an orderable type is Equal to itself. */
  lemma OrderingReflexive(t: Ty, a: Value)
    requires CanOrder(t) && HasType(t, a)
    ensures Ordering(a, a) == Ordered(Equal)
  {
    OrderingTyped(t, a, a);
    OrderingFlip(a, a);
  }

  /** Less followed by Less is Less at x, y, z. */
  ghost predicate LessChains(x: Value, y: Value, z: Value)
  {
    Ordering(x, y) == Ordered(Less) && Ordering(y, z) == Ordered(Less) ==> Ordering(x, z) == Ordered(Less)
  }

  /** The lexicographic step: lists chain whenever the items at each common position do. */
  lemma {:induction false} OrderingSeqTransitive(a: seq<Value>, b: seq<Value>, c: seq<Value>)
    requires forall i :: 0 <= i < |a| && i < |b| && i < |c| ==> LessChains(a[i], b[i], c[i])
    requires OrderingSeq(a, b) == Ordered(Less) && OrderingSeq(b, c) == Ordered(Less)
    ensures OrderingSeq(a, c) == Ordered(Less)
    decreases |a|
  {
    if a != [] && b != [] && c != [] {
      var x, y := Ordering(a[0], b[0]), Ordering(b[0], c[0]);
      if x == Ordered(Equal) {
        OrderingEqualIsSame(a[0], b[0]);
        if y == Ordered(Equal) {
          OrderingEqualIsSame(b[0], c[0]);
          OrderingSeqTransitive(a[1..], b[1..], c[1..]);
        }
      } else if y == Ordered(Equal) {
        OrderingEqualIsSame(b[0], c[0]);
      } else {
        assert LessChains(a[0], b[0], c[0]);
      }
    }
  }

  /** On the values of an orderable type, Less is transitive. */
  lemma {:induction false} OrderingTransitive(t: Ty, a: Value, b: Value, c: Value)
    requires CanOrder(t) && HasType(t, a) && HasType(t, b) && HasType(t, c)
    requires Ordering(a, b) == Ordered(Less) && Ordering(b, c) == Ordered(Less)
    ensures Ordering(a, c) == Ordered(Less)
    decreases t, 1
  {
    match t
    case String =>
      CmpLexTransitive(Utf8.Encode(a.s), Utf8.Encode(b.s), Utf8.Encode(c.s));
    case Char =>
      CmpLexTransitive(Utf8.Encode(a.s), Utf8.Encode(b.s), Utf8.Encode(c.s));
    case Int(s, w) =>
      NumbersTyped(s, w, a.n, b.n);
      NumbersTyped(s, w, b.n, c.n);
      NumbersTyped(s, w, a.n, c.n);
    case Slice =>
      forall i | 0 <= i < |a.items| && i < |b.items| && i < |c.items|
        ensures LessChains(a.items[i], b.items[i], c.items[i])
      {
        ByteNumbersTyped(a.items[i], b.items[i]);
        ByteNumbersTyped(b.items[i], c.items[i]);
        ByteNumbersTyped(a.items[i], c.items[i]);
      }
      OrderingSeqTransitive(a.items, b.items, c.items);
    case Array(e, _) =>
      ItemsTransitive(e, a.items, b.items, c.items);
    case Vec(e) =>
      ItemsTransitive(e, a.items, b.items, c.items);
    case Optional(i) =>
      if !a.Null? {
        OrderingTransitive(i, a, b, c);
      }
    case Tuple(ts) =>
      forall i | 0 <= i < |a.items| && i < |b.items| && i < |c.items|
        ensures LessChains(a.items[i], b.items[i], c.items[i])
      {
        if Ordering(a.items[i], b.items[i]) == Ordered(Less) && Ordering(b.items[i], c.items[i]) == Ordered(Less) {
          AllCanOrderAt(ts, i);
          OrderingTransitive(ts[i], a.items[i], b.items[i], c.items[i]);
        }
      }
      OrderingSeqTransitive(a.items, b.items, c.items);
    case _ =>
  }

  /** Less chains through lists whose items all have the same orderable type. */
  lemma {:induction false} ItemsTransitive(e: Ty, a: seq<Value>, b: seq<Value>, c: seq<Value>)
    requires CanOrder(e)
    requires forall i :: 0 <= i < |a| ==> HasType(e, a[i])
    requires forall i :: 0 <= i < |b| ==> HasType(e, b[i])
    requires forall i :: 0 <= i < |c| ==> HasType(e, c[i])
    requires OrderingSeq(a, b) == Ordered(Less) && OrderingSeq(b, c) == Ordered(Less)
    ensures OrderingSeq(a, c) == Ordered(Less)
    decreases e, 2
  {
    forall i | 0 <= i < |a| && i < |b| && i < |c|
      ensures LessChains(a[i], b[i], c[i])
    {
      if Ordering(a[i], b[i]) == Ordered(Less) && Ordering(b[i], c[i]) == Ordered(Less) {
        OrderingTransitive(e, a[i], b[i], c[i]);
      }
    }
    OrderingSeqTransitive(a, b, c);
  }
}
