/** What the tests of src/test_parser.rs check of `encode`, `parse` and `parse_size`:
    widths agree with encodings, typed values encode, decoded values are typed, and
    decoding an encoding gives the value back. */
module CodecLemmas {
  import opened Wrappers
  import opened Bytes
  import opened Types
  import opened Codec
  import Utf8

  // ---------------------------------------------------------------------------------------
  // parse_size agrees with encode

  /** A fixed-width type always encodes to exactly `parse_size` bytes. */
  lemma {:induction false} WidthAgreement(t: Ty, v: Value)
    requires Width(t).Some? && Encode(t, v).Ok?
    ensures |Encode(t, v).value| == Width(t).value
    decreases Depth(t), 1, 0
  {
    match t
    case Array(e, n) => ArrayWidth(e, n, v);
    case Optional(i) =>
      if !v.Null? {
        WidthAgreement(i, v);
      }
    case Tuple(ts) => TupleWidth(ts, v);
    case Struct(name, fs) => StructWidth(name, fs, v);
    case _ =>
  }

  lemma {:induction false} ArrayWidth(e: Ty, n: nat, v: Value)
    requires Width(Array(e, n)).Some? && Encode(Array(e, n), v).Ok?
    ensures |Encode(Array(e, n), v).value| == Width(Array(e, n)).value
    decreases Depth(Array(e, n)), 0, 0
  {
    assert v.List? && |v.items| == n;
    RepeatWidth(e, v.items, false);
    MulComm(n, Width(e).value);
  }

  lemma {:induction false} TupleWidth(ts: seq<Ty>, v: Value)
    requires Width(Tuple(ts)).Some? && Encode(Tuple(ts), v).Ok?
    ensures |Encode(Tuple(ts), v).value| == Width(Tuple(ts)).value
    decreases Depth(Tuple(ts)), 0, 0
  {
    MembersWidth(Members(Tuple(ts)), Oks(if v.Null? then [] else v.items));
  }

  lemma {:induction false} StructWidth(name: string, fs: seq<Field>, v: Value)
    requires Width(Struct(name, fs)).Some? && Encode(Struct(name, fs), v).Ok?
    ensures |Encode(Struct(name, fs), v).value| == Width(Struct(name, fs)).value
    decreases Depth(Struct(name, fs)), 0, 0
  {
    MembersWidth(Members(Struct(name, fs)), FieldValues(fs, v.entries).0);
  }

  lemma {:induction false} RepeatWidth(e: Ty, xs: seq<Value>, varint: bool)
    requires Width(e).Some? && EncodeRepeat(e, xs, varint).Ok?
    ensures |EncodeRepeat(e, xs, varint).value| == |xs| * Width(e).value
    decreases Depth(e), 2, |xs|
  {
    if xs != [] {
      WidthAgreement(e, xs[0]);
      RepeatWidth(e, xs[1..], varint);
      var b := Encode(e, xs[0]).value;
      var r := EncodeRepeat(e, xs[1..], varint).value;
      assert EncodeRepeat(e, xs, varint).value == LengthPrefix(e, varint, |b|) + b + r;
      MulStep(Width(e).value, |xs| - 1);
    }
  }

  lemma MulComm(a: nat, b: nat)
    ensures a * b == b * a
  {
  }

  lemma MulStep(w: nat, k: nat)
    ensures w + k * w == (k + 1) * w
  {
  }

  lemma {:induction false} MembersWidth(ms: seq<Ty>, vals: seq<Result<Value>>)
    requires |vals| == |ms| && SumWidths(ms).Some? && EncodeMembers(ms, vals).Ok?
    ensures EncodeMembers(ms, vals).value.0 == []
    ensures |EncodeMembers(ms, vals).value.1| == SumWidths(ms).value
    decreases DepthOfAll(ms), 2, |ms|
  {
    if ms != [] {
      WidthAgreement(ms[0], vals[0].value);
      MembersWidth(ms[1..], vals[1..]);
    }
  }

  // ---------------------------------------------------------------------------------------
  // encode succeeds on every value of the type

  /** A value of a well-formed type always encodes: none of the errors or panics of
      `encode` is reachable from a typed value. */
  lemma {:induction false} EncodeTotal(t: Ty, v: Value)
    requires WellFormed(t) && HasType(t, v)
    ensures Encode(t, v).Ok?
    decreases Depth(t), 1, 0
  {
    match t
    case Int(s, w) => IntFitsWide(s, w, v.n);
    case Slice => SliceBytes(v.items);
    case Array(e, _) => RepeatTotal(e, v.items, false);
    case Vec(e) => RepeatTotal(e, v.items, true);
    case Optional(i) =>
      if !v.Null? {
        EncodeTotal(i, v);
      }
    case Tuple(ts) => MembersTotal(Members(t), if v.Null? then [] else v.items);
    case Struct(name, fs) => StructTotal(name, fs, v.entries);
    case _ =>
  }

  lemma {:induction false} StructTotal(name: string, fs: seq<Field>, m: map<string, Value>)
    requires WellFormed(Struct(name, fs)) && HasType(Struct(name, fs), Object(m))
    ensures Encode(Struct(name, fs), Object(m)).Ok?
    decreases Depth(Struct(name, fs)), 0, 0
  {
    StructEncoding(name, fs, m);
    MembersTotal(Members(Struct(name, fs)), FieldLookup(fs, m));
  }

  /** A number that fits a signed integer type encodes to the little-endian bytes of its
      two's complement at the type's width. */
  lemma EncodeSignedValue(w: IntWidth, n: int)
    requires IntFits(true, w, n)
    ensures Encode(Int(true, w), Number(n)) == Ok(LE(Twos(n, IntBytes(w)), IntBytes(w)))
  {
    IntFitsWide(true, w, n);
  }

  /** A number that fits an unsigned integer type encodes to its little-endian bytes at the
      type's width. */
  lemma EncodeUnsignedValue(w: IntWidth, n: int)
    requires IntFits(false, w, n)
    ensures n >= 0 && Encode(Int(false, w), Number(n)) == Ok(LE(n, IntBytes(w)))
  {
    IntFitsWide(false, w, n);
  }

  /** A list of byte-valued numbers encodes as a Slice to exactly those bytes. */
  lemma {:induction false} SliceBytes(xs: seq<Value>)
    requires forall i :: 0 <= i < |xs| ==> xs[i].Number? && 0 <= xs[i].n < 256
    ensures EncodeSlice(xs).Ok? && |EncodeSlice(xs).value| == |xs|
    ensures forall i :: 0 <= i < |xs| ==> EncodeSlice(xs).value[i] == xs[i].n
  {
    if xs != [] {
      SliceBytes(xs[1..]);
      Pow256Monotone(1, 8);
      assert Pow256(1) == 256;
      var tail := EncodeSlice(xs[1..]).value;
      assert EncodeSlice(xs).value == [xs[0].n as byte] + tail;
    }
  }

  lemma {:induction false} RepeatTotal(e: Ty, xs: seq<Value>, varint: bool)
    requires WellFormed(e) && forall i :: 0 <= i < |xs| ==> HasType(e, xs[i])
    ensures EncodeRepeat(e, xs, varint).Ok?
    decreases Depth(e), 2, |xs|
  {
    if xs != [] {
      EncodeTotal(e, xs[0]);
      RepeatTotal(e, xs[1..], varint);
    }
  }

  lemma {:induction false} MembersTotal(ms: seq<Ty>, xs: seq<Value>)
    requires |xs| == |ms|
    requires forall i :: 0 <= i < |ms| ==> WellFormed(ms[i]) && HasType(ms[i], xs[i])
    ensures EncodeMembers(ms, Oks(xs)).Ok?
    decreases DepthOfAll(ms), 2, |ms|
  {
    if ms != [] {
      EncodeTotal(ms[0], xs[0]);
      assert Oks(xs)[1..] == Oks(xs[1..]);
      MembersTotal(ms[1..], xs[1..]);
    }
  }

  /** The value of each field, looked up by name. */
  function FieldLookup(fs: seq<Field>, m: map<string, Value>): (r: seq<Value>)
    requires FieldNames(fs) <= m.Keys
    ensures |r| == |fs| && forall i :: 0 <= i < |fs| ==> r[i] == m[fs[i].name]
  {
    seq(|fs|, i requires 0 <= i < |fs| => m[fs[i].name])
  }

  predicate DistinctNames(fs: seq<Field>)
  {
    forall i, j :: 0 <= i < j < |fs| ==> fs[i].name != fs[j].name
  }

  /** With distinct field names all present in the map, every lookup of the Struct arm
      succeeds, and exactly the fields not in the struct are left over. */
  lemma {:induction false} FieldValuesExact(fs: seq<Field>, m: map<string, Value>)
    requires DistinctNames(fs) && FieldNames(fs) <= m.Keys
    ensures FieldValues(fs, m).0 == Oks(FieldLookup(fs, m))
    ensures FieldValues(fs, m).1 == m - FieldNames(fs)
  {
    if fs != [] {
      var n := fs[0].name;
      FieldNamesCons(fs);
      assert n !in FieldNames(fs[1..]) by {
        HeadNameFresh(fs);
      }
      assert DistinctNames(fs[1..]) && FieldNames(fs[1..]) <= (m - {n}).Keys;
      FieldValuesExact(fs[1..], m - {n});
      var r := FieldValues(fs[1..], m - {n});
      assert FieldValues(fs, m) == ([Ok(m[n])] + r.0, r.1);
      LookupCons(fs, m);
      assert (m - {n}) - FieldNames(fs[1..]) == m - FieldNames(fs);
    }
  }

  /** The lookups of a struct's fields are the first field's, then the others' in the map
      without it. */
  lemma LookupCons(fs: seq<Field>, m: map<string, Value>)
    requires fs != [] && FieldNames(fs) <= m.Keys && fs[0].name !in FieldNames(fs[1..])
    ensures FieldNames(fs[1..]) <= (m - {fs[0].name}).Keys
    ensures Oks(FieldLookup(fs, m)) == [Ok(m[fs[0].name])] + Oks(FieldLookup(fs[1..], m - {fs[0].name}))
  {
    var n := fs[0].name;
    FieldNamesCons(fs);
    var a, t := Oks(FieldLookup(fs, m)), Oks(FieldLookup(fs[1..], m - {n}));
    assert a[1..] == t by {
      forall i | 0 <= i < |t|
        ensures a[1..][i] == t[i]
      {
        assert fs[1..][i] == fs[i + 1];
      }
    }
    HeadTail(a);
  }

  /** A struct's first field name does not occur among the later ones. */
  lemma HeadNameFresh(fs: seq<Field>)
    requires fs != [] && DistinctNames(fs)
    ensures fs[0].name !in FieldNames(fs[1..])
  {
    forall k | k in FieldNames(fs[1..])
      ensures k != fs[0].name
    {
      var i :| 0 <= i < |fs[1..]| && fs[1..][i].name == k;
      assert fs[i + 1].name == k;
    }
  }

  /** The map the Struct arm of `parse` builds: every field under its own name, on top of
      what was there before. */
  lemma {:induction false} InsertSpec(acc: map<string, Value>, fs: seq<Field>, vals: seq<Value>)
    requires |vals| == |fs| && DistinctNames(fs)
    ensures Insert(acc, fs, vals).Keys == acc.Keys + FieldNames(fs)
    ensures forall i :: 0 <= i < |fs| ==> Insert(acc, fs, vals)[fs[i].name] == vals[i]
    ensures forall k :: k in acc && k !in FieldNames(fs) ==> Insert(acc, fs, vals)[k] == acc[k]
    decreases |fs|
  {
    if fs != [] {
      HeadNameFresh(fs);
      FieldNamesCons(fs);
      InsertSpec(acc[fs[0].name := vals[0]], fs[1..], vals[1..]);
      forall i | 0 < i < |fs|
        ensures Insert(acc, fs, vals)[fs[i].name] == vals[i]
      {
        assert fs[1..][i - 1] == fs[i];
      }
    }
  }

  // ---------------------------------------------------------------------------------------
  // parse inverts encode

  /** Decoding the encoding of a typed value gives the value back and consumes every byte.
      The bounds exclude the lengths that `as u32` would truncate. */
  lemma {:induction false} RoundTrip(t: Ty, v: Value)
    requires WellFormed(t) && HasType(t, v) && Bounded(v)
    requires Encode(t, v).Ok? && |Encode(t, v).value| < TwoTo32
    ensures Decode(t, Encode(t, v).value) == Ok((v, []))
    decreases Depth(t), 3, 0
  {
    match t
    case Array(e, n) => ArrayRoundTrip(e, n, v);
    case Vec(e) => VecRoundTrip(e, v);
    case Optional(i) => OptionRoundTrip(i, v);
    case Tuple(ts) => TupleRoundTrip(ts, v);
    case Struct(name, fs) => StructRoundTrip(name, fs, v);
    case _ => ScalarRoundTrip(t, v);
  }

  lemma ScalarRoundTrip(t: Ty, v: Value)
    requires t.Bool? || t.Char? || t.Int? || t.Float? || t.String? || t.Slice?
    requires HasType(t, v) && Encode(t, v).Ok?
    ensures Decode(t, Encode(t, v).value) == Ok((v, []))
  {
    match t
    case Bool =>
    case Char => CharValueRoundTrip(v);
    case Int(s, w) => IntRoundTrip(s, w, v);
    case Float(w) => FloatRoundTrip(w, v);
    case String => Utf8.DecodeEncode(v.s);
    case Slice => SliceRoundTrip(v);
  }

  lemma CharValueRoundTrip(v: Value)
    requires HasType(Char, v) && Encode(Char, v).Ok?
    ensures Decode(Char, Encode(Char, v).value) == Ok((v, []))
  {
    var c := v.s[0];
    CharRoundTrip(c);
    TakeNSplit(CharBytes(c), []);
    assert CharBytes(c) + [] == CharBytes(c);
    assert [c] == v.s;
  }

  lemma IntRoundTrip(s: bool, w: IntWidth, v: Value)
    requires HasType(Int(s, w), v) && Encode(Int(s, w), v).Ok?
    ensures Decode(Int(s, w), Encode(Int(s, w), v).value) == Ok((v, []))
  {
    var b := Encode(Int(s, w), v).value;
    TakeNSplit(b, []);
    assert b + [] == b;
    if s {
      SignedRoundTrip(v.n, IntBytes(w));
    } else {
      FromLEOfLE(v.n, IntBytes(w));
    }
  }

  lemma FloatRoundTrip(w: FloatWidth, v: Value)
    requires HasType(Float(w), v) && Encode(Float(w), v).Ok?
    ensures Decode(Float(w), Encode(Float(w), v).value) == Ok((v, []))
  {
    TakeNSplit(v.raw, []);
    assert v.raw + [] == v.raw;
  }

  lemma SliceRoundTrip(v: Value)
    requires HasType(Slice, v) && Encode(Slice, v).Ok?
    ensures Decode(Slice, Encode(Slice, v).value) == Ok((v, []))
  {
    SliceBytes(v.items);
    var b := EncodeSlice(v.items).value;
    assert seq(|b|, i requires 0 <= i < |b| => Number(b[i])) == v.items;
  }

  lemma {:induction false} ArrayRoundTrip(e: Ty, n: nat, v: Value)
    requires WellFormed(Array(e, n)) && HasType(Array(e, n), v) && Bounded(v)
    requires Encode(Array(e, n), v).Ok? && |Encode(Array(e, n), v).value| < TwoTo32
    ensures Decode(Array(e, n), Encode(Array(e, n), v).value) == Ok((v, []))
    decreases Depth(Array(e, n)), 2, 0
  {
    var b := EncodeRepeat(e, v.items, false).value;
    RepeatRoundTrip(e, v.items, false, []);
    assert b + [] == b;
  }

  lemma {:induction false} VecRoundTrip(e: Ty, v: Value)
    requires WellFormed(Vec(e)) && HasType(Vec(e), v) && Bounded(v)
    requires Encode(Vec(e), v).Ok? && |Encode(Vec(e), v).value| < TwoTo32
    ensures Decode(Vec(e), Encode(Vec(e), v).value) == Ok((v, []))
    decreases Depth(Vec(e)), 2, 0
  {
    var b := EncodeRepeat(e, v.items, true).value;
    assert Encode(Vec(e), v).value == PutVarint(|v.items|) + b;
    VarintRoundTrip(|v.items|, b);
    RepeatRoundTrip(e, v.items, true, []);
    assert b + [] == b;
  }

  lemma {:induction false} OptionRoundTrip(i: Ty, v: Value)
    requires WellFormed(Optional(i)) && HasType(Optional(i), v) && Bounded(v)
    requires Encode(Optional(i), v).Ok? && |Encode(Optional(i), v).value| < TwoTo32
    ensures Decode(Optional(i), Encode(Optional(i), v).value) == Ok((v, []))
    decreases Depth(Optional(i)), 2, 0
  {
    if v.Null? {
      var z := if Width(i).Some? then Zeros(Width(i).value) else [];
      assert Encode(Optional(i), v).value == [0] + z;
      assert TakeU8([0] + z) == Ok((0, z));
      if Width(i).Some? {
        TakeNSplit(z, []);
        assert z + [] == z;
      }
    } else {
      RoundTrip(i, v);
      assert Encode(Optional(i), v).value == [1] + Encode(i, v).value;
      assert TakeU8([1] + Encode(i, v).value) == Ok((1, Encode(i, v).value));
    }
  }

  lemma {:induction false} TupleRoundTrip(ts: seq<Ty>, v: Value)
    requires WellFormed(Tuple(ts)) && HasType(Tuple(ts), v) && Bounded(v)
    requires Encode(Tuple(ts), v).Ok? && |Encode(Tuple(ts), v).value| < TwoTo32
    ensures Decode(Tuple(ts), Encode(Tuple(ts), v).value) == Ok((v, []))
    decreases Depth(Tuple(ts)), 2, 0
  {
    var xs := if v.Null? then [] else v.items;
    var hb := EncodeMembers(ts, Oks(xs)).value;
    assert Encode(Tuple(ts), v).value == hb.0 + hb.1;
    MembersRoundTrip(ts, xs, hb.1);
  }

  lemma {:induction false} StructRoundTrip(name: string, fs: seq<Field>, v: Value)
    requires WellFormed(Struct(name, fs)) && HasType(Struct(name, fs), v) && Bounded(v)
    requires Encode(Struct(name, fs), v).Ok? && |Encode(Struct(name, fs), v).value| < TwoTo32
    ensures Decode(Struct(name, fs), Encode(Struct(name, fs), v).value) == Ok((v, []))
    decreases Depth(Struct(name, fs)), 2, 0
  {
    var m := v.entries;
    var xs := FieldLookup(fs, m);
    var ms := Members(Struct(name, fs));
    StructMembersReady(name, fs, v);
    StructEncoding(name, fs, m);
    var hb := EncodeMembers(ms, Oks(xs)).value;
    MembersRoundTrip(ms, xs, hb.1);
    InsertAll(fs, m);
    StructDecodeStep(name, fs, hb.0 + hb.1, xs);
  }

  /** A well-typed struct value supplies each field, in declaration order, with a value of
      the field's type. */
  lemma StructMembersReady(name: string, fs: seq<Field>, v: Value)
    requires WellFormed(Struct(name, fs)) && HasType(Struct(name, fs), v) && Bounded(v)
    ensures DistinctNames(fs) && v.entries.Keys == FieldNames(fs)
    ensures var ms, xs := Members(Struct(name, fs)), FieldLookup(fs, v.entries);
      |xs| == |ms| && forall i :: 0 <= i < |ms| ==> WellFormed(ms[i]) && HasType(ms[i], xs[i]) && Bounded(xs[i])
  {
  }

  /** With exactly the struct's fields present, the Struct arm of `encode` is the member
      framing of the field values in declaration order. */
  lemma StructEncoding(name: string, fs: seq<Field>, m: map<string, Value>)
    requires DistinctNames(fs) && m.Keys == FieldNames(fs)
    ensures var r := EncodeMembers(Members(Struct(name, fs)), Oks(FieldLookup(fs, m)));
      Encode(Struct(name, fs), Object(m)) == if r.Ok? then Ok(r.value.0 + r.value.1) else Err(r.error)
  {
    FieldValuesExact(fs, m);
    RemoveAll(m, FieldNames(fs));
  }

  lemma RemoveAll(m: map<string, Value>, keys: set<string>)
    requires m.Keys <= keys
    ensures m - keys == map[]
  {
    assert (m - keys).Keys == {};
  }

  /** Inserting every field's value under its name rebuilds the map. */
  lemma InsertAll(fs: seq<Field>, m: map<string, Value>)
    requires DistinctNames(fs) && m.Keys == FieldNames(fs)
    ensures Insert(map[], fs, FieldLookup(fs, m)) == m
  {
    var xs := FieldLookup(fs, m);
    InsertSpec(map[], fs, xs);
    SameMap(Insert(map[], fs, xs), m, fs);
  }

  lemma SameMap(a: map<string, Value>, m: map<string, Value>, fs: seq<Field>)
    requires a.Keys == m.Keys == FieldNames(fs)
    requires forall i :: 0 <= i < |fs| ==> a[fs[i].name] == m[fs[i].name]
    ensures a == m
  {
    forall k | k in m
      ensures a[k] == m[k]
    {
      var i :| 0 <= i < |fs| && fs[i].name == k;
    }
  }

  lemma StructDecodeStep(name: string, fs: seq<Field>, d: Bytes, xs: seq<Value>)
    requires var ms := Members(Struct(name, fs));
      var hd := DecodeHeader(ms, d);
      hd.Ok? && DecodeBody(ms, hd.value.0, hd.value.1) == Ok((xs, []))
    ensures Decode(Struct(name, fs), d) == Ok((Object(Insert(map[], fs, xs)), []))
  {
  }

  /** The length prefix of an element reads back as the element's length. */
  lemma PrefixRoundTrip(e: Ty, varint: bool, n: nat, tail: Bytes)
    requires n < TwoTo32 && (Width(e).Some? ==> Width(e).value == n)
    ensures ElementLength(e, varint, LengthPrefix(e, varint, n) + tail) == Ok((n, tail))
  {
    if Width(e).Some? {
      assert [] + tail == tail;
    } else if varint {
      VarintRoundTrip(n, tail);
    } else {
      U32PrefixRoundTrip(n, tail);
    }
  }

  /** The u32 length prefix of an Array element reads back with `take_u32_len`. */
  lemma U32PrefixRoundTrip(n: nat, tail: Bytes)
    requires n < TwoTo32
    ensures TakeU32Len(U32Prefix(n) + tail) == Ok((n, tail))
  {
    var d := U32Prefix(n) + tail;
    assert Pow256(4) == TwoTo32;
    FromLEOfLE(n, 4);
    assert d[..4] == U32Prefix(n) && d[4..] == tail;
  }

  /** One step of the element loop of `parse`: the element's length, its slice and its
      value. */
  lemma ElementOf(e: Ty, varint: bool, d: Bytes, d1: Bytes, b: Bytes, d2: Bytes, x: Value)
    requires ElementLength(e, varint, d) == Ok((|b|, d1)) && TakeN(d1, |b|) == Ok((b, d2))
    requires Decode(e, b) == Ok((x, []))
    ensures ElementSpec(e, varint, d) == Ok((x, d2))
  {
  }

  lemma HeadTail<T>(xs: seq<T>)
    requires xs != []
    ensures [xs[0]] + xs[1..] == xs
  {
  }

  lemma RepeatOfElement(e: Ty, n: nat, varint: bool, d: Bytes, d2: Bytes, x: Value, xs: seq<Value>, after: Bytes)
    requires n > 0 && ElementSpec(e, varint, d) == Ok((x, d2))
    requires DecodeRepeat(e, n - 1, d2, varint) == Ok((xs, after))
    ensures DecodeRepeat(e, n, d, varint) == Ok(([x] + xs, after))
  {
  }

  /** One element of the Array and Vec framing: with the element's own bytes decoding to
      its value, and the later elements already known to parse back, all of them do. */
  lemma RepeatStep(e: Ty, xs: seq<Value>, varint: bool, after: Bytes, b: Bytes, r: Bytes)
    requires xs != [] && |b| < TwoTo32
    requires Decode(e, b) == Ok((xs[0], []))
    requires Width(e).Some? ==> Width(e).value == |b|
    requires DecodeRepeat(e, |xs[1..]|, r + after, varint) == Ok((xs[1..], after))
    ensures DecodeRepeat(e, |xs|, LengthPrefix(e, varint, |b|) + b + r + after, varint) == Ok((xs, after))
  {
    var prefix := LengthPrefix(e, varint, |b|);
    var tail := b + (r + after);
    ConcatAssoc(prefix + b, r, after);
    ConcatAssoc(prefix, b, r + after);
    ElementStep(e, xs, varint, after, prefix + tail, b, r + after);
  }

  lemma ElementStep(e: Ty, xs: seq<Value>, varint: bool, after: Bytes, d: Bytes, b: Bytes, rest: Bytes)
    requires xs != [] && |b| < TwoTo32
    requires Decode(e, b) == Ok((xs[0], []))
    requires Width(e).Some? ==> Width(e).value == |b|
    requires d == LengthPrefix(e, varint, |b|) + (b + rest)
    requires DecodeRepeat(e, |xs[1..]|, rest, varint) == Ok((xs[1..], after))
    ensures DecodeRepeat(e, |xs|, d, varint) == Ok((xs, after))
  {
    PrefixRoundTrip(e, varint, |b|, b + rest);
    TakeNSplit(b, rest);
    ElementOf(e, varint, d, b + rest, b, rest, xs[0]);
    RepeatOfElement(e, |xs|, varint, d, rest, xs[0], xs[1..], after);
    HeadTail(xs);
  }

  lemma {:induction false} RepeatRoundTrip(e: Ty, xs: seq<Value>, varint: bool, after: Bytes)
    requires WellFormed(e) && forall i :: 0 <= i < |xs| ==> HasType(e, xs[i]) && Bounded(xs[i])
    requires EncodeRepeat(e, xs, varint).Ok? && |EncodeRepeat(e, xs, varint).value| < TwoTo32
    ensures DecodeRepeat(e, |xs|, EncodeRepeat(e, xs, varint).value + after, varint) == Ok((xs, after))
    decreases Depth(e), 4, |xs|
  {
    if xs != [] {
      RepeatEncodedUnfold(e, xs, varint);
      var b := Encode(e, xs[0]).value;
      var r := EncodeRepeat(e, xs[1..], varint).value;
      assert Decode(e, b) == Ok((xs[0], [])) by {
        RoundTrip(e, xs[0]);
      }
      assert DecodeRepeat(e, |xs[1..]|, r + after, varint) == Ok((xs[1..], after)) by {
        RepeatRoundTrip(e, xs[1..], varint, after);
      }
      if Width(e).Some? {
        assert Width(e).value == |b| by {
          WidthAgreement(e, xs[0]);
        }
      }
      RepeatStep(e, xs, varint, after, b, r);
    } else {
      assert [] + after == after;
    }
  }

  /** A successful Array or Vec framing with elements is the first element's prefix and
      bytes, then the rest's. */
  lemma RepeatEncodedUnfold(e: Ty, xs: seq<Value>, varint: bool)
    requires xs != [] && EncodeRepeat(e, xs, varint).Ok?
    ensures Encode(e, xs[0]).Ok? && EncodeRepeat(e, xs[1..], varint).Ok?
    ensures var b, r := Encode(e, xs[0]).value, EncodeRepeat(e, xs[1..], varint).value;
      EncodeRepeat(e, xs, varint).value == LengthPrefix(e, varint, |b|) + b + r
      && |b| <= |EncodeRepeat(e, xs, varint).value| && |r| <= |EncodeRepeat(e, xs, varint).value|
  {
  }

  /** One step of the header loop of the Tuple and Struct arms of `parse`. */
  lemma HeaderCons(ms: seq<Ty>, d: Bytes, size: Option<nat>, d1: Bytes, sizes: seq<Option<nat>>, after: Bytes)
    requires ms != [] && HeaderEntry(ms[0], |ms| == 1, d) == Ok((size, d1))
    requires DecodeHeader(ms[1..], d1) == Ok((sizes, after))
    ensures DecodeHeader(ms, d) == Ok(([size] + sizes, after))
  {
  }

  /** One step of the body loop of the Tuple and Struct arms of `parse`. */
  lemma BodyCons(ms: seq<Ty>, sizes: seq<Option<nat>>, d: Bytes, b: Bytes, d1: Bytes, x: Value, xs: seq<Value>, after: Bytes)
    requires ms != [] && |sizes| == |ms|
    requires TakeN(d, if sizes[0].Some? then sizes[0].value else |d|) == Ok((b, d1))
    requires Decode(ms[0], b).Ok? && Decode(ms[0], b).value.0 == x
    requires DecodeBody(ms[1..], sizes[1..], d1) == Ok((xs, after))
    ensures DecodeBody(ms, sizes, d) == Ok(([x] + xs, after))
  {
  }

  /** The header entry of a member reads back as the member's slice length. */
  lemma EntryRoundTrip(m: Ty, last: bool, n: nat, tail: Bytes)
    requires n < TwoTo32
    ensures HeaderEntry(m, last, HeaderLength(m, last, n) + tail)
      == Ok((if Width(m).None? && !last then Some(n) else Width(m), tail))
  {
    if Width(m).None? && !last {
      VarintRoundTrip(n, tail);
    } else {
      assert [] + tail == tail;
    }
  }

  /** The first member's slice is its own bytes: its size from the header, or all that is
      left when it is the last member. */
  lemma BodyConsSized(ms: seq<Ty>, size: Option<nat>, sizes: seq<Option<nat>>, b: Bytes, body: Bytes, x: Value, xs: seq<Value>)
    requires ms != [] && |sizes| == |ms| - 1
    requires size.Some? ==> size.value == |b|
    requires size.None? ==> body == []
    requires Decode(ms[0], b).Ok? && Decode(ms[0], b).value.0 == x
    requires DecodeBody(ms[1..], sizes, body) == Ok((xs, []))
    ensures DecodeBody(ms, [size] + sizes, b + body) == Ok(([x] + xs, []))
  {
    TakeNSplit(b, body);
    var sz := [size] + sizes;
    assert sz[0] == size && sz[1..] == sizes;
    BodyCons(ms, sz, b + body, b, body, x, xs, []);
  }

  /** The header entry written for the first member reads back before the later entries. */
  lemma MembersHeaderStep(ms: seq<Ty>, n: nat, d1: Bytes)
    requires ms != [] && n < TwoTo32 && DecodeHeader(ms[1..], d1).Ok?
    ensures var size := if Width(ms[0]).None? && |ms| != 1 then Some(n) else Width(ms[0]);
      var rest := DecodeHeader(ms[1..], d1).value;
      DecodeHeader(ms, HeaderLength(ms[0], |ms| == 1, n) + d1) == Ok(([size] + rest.0, rest.1))
  {
    var last := |ms| == 1;
    var size := if Width(ms[0]).None? && !last then Some(n) else Width(ms[0]);
    EntryRoundTrip(ms[0], last, n, d1);
    var rest := DecodeHeader(ms[1..], d1).value;
    HeaderCons(ms, HeaderLength(ms[0], last, n) + d1, size, d1, rest.0, rest.1);
  }

  /** One member of the Tuple and Struct framing: with the member's own bytes decoding to
      its value, and the later members already known to parse back, the whole header and
      body parse back. */
  lemma MembersStep(ms: seq<Ty>, xs: seq<Value>, after: Bytes, b: Bytes, h: Bytes, body: Bytes)
    requires ms != [] && |xs| == |ms| && |b| < TwoTo32
    requires Decode(ms[0], b) == Ok((xs[0], []))
    requires Width(ms[0]).Some? ==> Width(ms[0]).value == |b|
    requires |ms| == 1 ==> body == []
    requires var hd := DecodeHeader(ms[1..], h + after);
      hd.Ok? && hd.value.1 == after && DecodeBody(ms[1..], hd.value.0, body) == Ok((xs[1..], []))
    ensures var hd := DecodeHeader(ms, HeaderLength(ms[0], |ms| == 1, |b|) + h + after);
      hd.Ok? && hd.value.1 == after && DecodeBody(ms, hd.value.0, b + body) == Ok((xs, []))
  {
    var size := if Width(ms[0]).None? && |ms| != 1 then Some(|b|) else Width(ms[0]);
    var sizes := DecodeHeader(ms[1..], h + after).value.0;
    MembersHeaderStep(ms, |b|, h + after);
    ConcatAssoc(HeaderLength(ms[0], |ms| == 1, |b|), h, after);
    BodyConsSized(ms, size, sizes, b, body, xs[0], xs[1..]);
    assert [xs[0]] + xs[1..] == xs;
  }

  /** The header of a Tuple or Struct parses back to the member lengths whatever follows
      it, and the body then parses back to the member values. */
  lemma {:induction false} MembersRoundTrip(ms: seq<Ty>, xs: seq<Value>, after: Bytes)
    requires |xs| == |ms| && EncodeMembers(ms, Oks(xs)).Ok?
    requires forall i :: 0 <= i < |ms| ==> WellFormed(ms[i]) && HasType(ms[i], xs[i]) && Bounded(xs[i])
    requires |EncodeMembers(ms, Oks(xs)).value.1| < TwoTo32
    ensures var hb := EncodeMembers(ms, Oks(xs)).value;
      var hd := DecodeHeader(ms, hb.0 + after);
      hd.Ok? && hd.value.1 == after && DecodeBody(ms, hd.value.0, hb.1) == Ok((xs, []))
    decreases DepthOfAll(ms), 4, |ms|
  {
    if ms != [] {
      assert Oks(xs)[1..] == Oks(xs[1..]);
      var b := Encode(ms[0], xs[0]).value;
      var rest := EncodeMembers(ms[1..], Oks(xs[1..])).value;
      assert EncodeMembers(ms, Oks(xs)).value == (HeaderLength(ms[0], |ms| == 1, |b|) + rest.0, b + rest.1);
      RoundTrip(ms[0], xs[0]);
      MembersRoundTrip(ms[1..], xs[1..], after);
      if Width(ms[0]).Some? {
        WidthAgreement(ms[0], xs[0]);
      }
      MembersStep(ms, xs, after, b, rest.0, rest.1);
    }
  }

  /** Re-encoding a decoded redb value gives back exactly the bytes it was decoded from. */
  lemma BytesRoundTrip(t: Ty, v: Value)
    requires WellFormed(t) && HasType(t, v) && Bounded(v)
    requires Encode(t, v).Ok? && |Encode(t, v).value| < TwoTo32
    ensures var b := Encode(t, v).value;
      Decode(t, b).Ok? && Encode(t, Decode(t, b).value.0) == Ok(b)
  {
    RoundTrip(t, v);
  }

  // ---------------------------------------------------------------------------------------
  // parse yields values of the type

  /** Whatever `parse` accepts decodes to a value of the type. */
  lemma {:induction false} DecodeTyped(t: Ty, d: Bytes)
    requires WellFormed(t) && Decode(t, d).Ok?
    ensures HasType(t, Decode(t, d).value.0)
    decreases Depth(t), 3, 0
  {
    match t
    case Int(s, w) => IntTyped(s, w, d);
    case Array(e, n) => RepeatTyped(e, n, d, false);
    case Vec(e) => VecTyped(e, d);
    case Optional(i) => OptionTyped(i, d);
    case Tuple(ts) => TupleTyped(ts, d);
    case Struct(name, fs) => StructDecodeTyped(name, fs, d);
    case _ =>
  }

  lemma IntTyped(s: bool, w: IntWidth, d: Bytes)
    requires Decode(Int(s, w), d).Ok?
    ensures HasType(Int(s, w), Decode(Int(s, w), d).value.0)
  {
    var p := TakeN(d, IntBytes(w)).value;
    FromLEBound(p.0);
  }

  lemma VecTyped(e: Ty, d: Bytes)
    requires WellFormed(Vec(e)) && Decode(Vec(e), d).Ok?
    ensures HasType(Vec(e), Decode(Vec(e), d).value.0)
    decreases Depth(Vec(e)), 2, 0
  {
    var p := TakeVarint(d).value;
    RepeatTyped(e, p.0, p.1, true);
  }

  lemma OptionTyped(i: Ty, d: Bytes)
    requires WellFormed(Optional(i)) && Decode(Optional(i), d).Ok?
    ensures HasType(Optional(i), Decode(Optional(i), d).value.0)
    decreases Depth(Optional(i)), 2, 0
  {
    var p := TakeU8(d).value;
    if p.0 == 1 {
      DecodeTyped(i, p.1);
    }
  }

  lemma TupleTyped(ts: seq<Ty>, d: Bytes)
    requires WellFormed(Tuple(ts)) && Decode(Tuple(ts), d).Ok?
    ensures HasType(Tuple(ts), Decode(Tuple(ts), d).value.0)
    decreases Depth(Tuple(ts)), 2, 0
  {
    var h := DecodeHeader(ts, d).value;
    BodyTyped(ts, h.0, h.1);
  }

  lemma StructDecodeTyped(name: string, fs: seq<Field>, d: Bytes)
    requires WellFormed(Struct(name, fs)) && Decode(Struct(name, fs), d).Ok?
    ensures HasType(Struct(name, fs), Decode(Struct(name, fs), d).value.0)
    decreases Depth(Struct(name, fs)), 2, 0
  {
    var ms := Members(Struct(name, fs));
    var h := DecodeHeader(ms, d).value;
    BodyTyped(ms, h.0, h.1);
    var xs := DecodeBody(ms, h.0, h.1).value.0;
    StructTyped(name, fs, xs);
  }

  lemma {:induction false} RepeatTyped(e: Ty, n: nat, d: Bytes, varint: bool)
    requires WellFormed(e) && DecodeRepeat(e, n, d, varint).Ok?
    ensures var xs := DecodeRepeat(e, n, d, varint).value.0;
      |xs| == n && forall i :: 0 <= i < n ==> HasType(e, xs[i])
    decreases Depth(e), 4, n
  {
    if n > 0 {
      var b, x, rest, xs := RepeatPieces(e, n, d, varint);
      DecodeTyped(e, b);
      RepeatTyped(e, n - 1, rest, varint);
      ConsTyped(e, x, xs);
    }
  }

  /** A successful Array or Vec loop with elements left is one element, decoded from its
      own slice b, followed by the elements decoded from the rest. */
  lemma RepeatPieces(e: Ty, n: nat, d: Bytes, varint: bool) returns (b: Bytes, x: Value, rest: Bytes, xs: seq<Value>)
    requires n > 0 && DecodeRepeat(e, n, d, varint).Ok?
    ensures Decode(e, b).Ok? && Decode(e, b).value.0 == x
    ensures DecodeRepeat(e, n - 1, rest, varint).Ok? && DecodeRepeat(e, n - 1, rest, varint).value.0 == xs
    ensures DecodeRepeat(e, n, d, varint).value.0 == [x] + xs
  {
    var len := ElementLength(e, varint, d).value;
    var sub := TakeN(len.1, len.0).value;
    b, x, rest := sub.0, Decode(e, sub.0).value.0, sub.1;
    xs := DecodeRepeat(e, n - 1, rest, varint).value.0;
  }

  lemma ConsTyped(e: Ty, x: Value, xs: seq<Value>)
    requires HasType(e, x) && forall i :: 0 <= i < |xs| ==> HasType(e, xs[i])
    ensures forall i :: 0 <= i < |[x] + xs| ==> HasType(e, ([x] + xs)[i])
  {
  }

  lemma {:induction false} BodyTyped(ms: seq<Ty>, sizes: seq<Option<nat>>, d: Bytes)
    requires |sizes| == |ms| && (forall i :: 0 <= i < |ms| ==> WellFormed(ms[i]))
    requires DecodeBody(ms, sizes, d).Ok?
    ensures var xs := DecodeBody(ms, sizes, d).value.0;
      forall i :: 0 <= i < |ms| ==> HasType(ms[i], xs[i])
    decreases DepthOfAll(ms), 4, |ms|
  {
    if ms != [] {
      var len := if sizes[0].Some? then sizes[0].value else |d|;
      var sub := TakeN(d, len).value;
      DecodeTyped(ms[0], sub.0);
      BodyTyped(ms[1..], sizes[1..], sub.1);
    }
  }

  /** The map the Struct arm of `parse` builds holds exactly the fields, each typed. */
  lemma StructTyped(name: string, fs: seq<Field>, xs: seq<Value>)
    requires DistinctNames(fs) && |xs| == |fs|
    requires forall i :: 0 <= i < |fs| ==> HasType(fs[i].ty, xs[i])
    ensures HasType(Struct(name, fs), Object(Insert(map[], fs, xs)))
  {
    InsertSpec(map[], fs, xs);
  }

  // ---------------------------------------------------------------------------------------
  // The Struct arm's treatment of missing and extra fields

  /** A missing `Option` field is encoded exactly as if it were present with value Null. */
  lemma MissingOptionalIsNull(name: string, fs: seq<Field>, m: map<string, Value>, k: nat)
    requires DistinctNames(fs) && k < |fs| && fs[k].ty.Optional? && fs[k].name !in m
    ensures Encode(Struct(name, fs), Object(m)) == Encode(Struct(name, fs), Object(m[fs[k].name := Null]))
  {
    FieldValuesWithNull(fs, m, fs[k].name, k);
  }

  lemma {:induction false} FieldValuesWithNull(fs: seq<Field>, m: map<string, Value>, x: string, k: nat)
    requires DistinctNames(fs) && k < |fs| && fs[k].name == x && fs[k].ty.Optional? && x !in m
    ensures FieldValues(fs, m[x := Null]) == FieldValues(fs, m)
  {
    var n := fs[0].name;
    if k == 0 {
      assert m[x := Null] - {n} == m - {n};
    } else {
      assert fs[1..][k - 1] == fs[k];
      assert DistinctNames(fs[1..]);
      assert n != x;
      assert m[x := Null] - {n} == (m - {n})[x := Null];
      FieldValuesWithNull(fs[1..], m - {n}, x, k - 1);
    }
  }

  /** A missing field whose type is not `Option` makes `encode` fail. */
  lemma MissingFieldRejected(name: string, fs: seq<Field>, m: map<string, Value>, k: nat)
    requires DistinctNames(fs) && k < |fs| && !fs[k].ty.Optional? && fs[k].name !in m
    ensures Encode(Struct(name, fs), Object(m)).Err?
  {
    var fv := FieldValues(fs, m);
    MissingLookup(fs, m, k);
    MembersStopAt(Members(Struct(name, fs)), fv.0, k);
  }

  lemma {:induction false} MissingLookup(fs: seq<Field>, m: map<string, Value>, k: nat)
    requires k < |fs| && !fs[k].ty.Optional? && fs[k].name !in m
    ensures FieldValues(fs, m).0[k] == Err(MissingField(fs[k].name))
  {
    if k > 0 {
      assert fs[1..][k - 1] == fs[k];
      MissingLookup(fs[1..], m - {fs[0].name}, k - 1);
    }
  }

  /** A member whose value is an error stops the member loop with an error. */
  lemma {:induction false} MembersStopAt(ms: seq<Ty>, vals: seq<Result<Value>>, k: nat)
    requires |vals| == |ms| && k < |ms| && vals[k].Err?
    ensures EncodeMembers(ms, vals).Err?
  {
    if k > 0 && vals[0].Ok? && Encode(ms[0], vals[0].value).Ok? {
      MembersStopAt(ms[1..], vals[1..], k - 1);
    }
  }

  /** A field the struct does not declare makes `encode` fail. */
  lemma UndefinedFieldRejected(name: string, fs: seq<Field>, m: map<string, Value>, key: string)
    requires key in m && key !in FieldNames(fs)
    ensures Encode(Struct(name, fs), Object(m)).Err?
  {
    LeftoverKeeps(fs, m, key);
  }

  lemma {:induction false} LeftoverKeeps(fs: seq<Field>, m: map<string, Value>, key: string)
    requires key in m && key !in FieldNames(fs)
    ensures key in FieldValues(fs, m).1
  {
    if fs != [] {
      LeftoverKeeps(fs[1..], m - {fs[0].name}, key);
    }
  }

  /** A Slice element above 255 makes `encode` fail. */
  lemma {:induction false} SliceByteRejected(xs: seq<Value>, k: nat)
    requires k < |xs| && xs[k].Number? && xs[k].n >= 256
    ensures EncodeSlice(xs).Err?
  {
    if k > 0 && xs[0].Number? && 0 <= xs[0].n < 256 {
      SliceByteRejected(xs[1..], k - 1);
    }
  }

  /** A `char` is written only for a string of exactly one code point. */
  lemma CharNotOneRejected(s: string)
    ensures |s| != 1 ==> Encode(Char, Str(s)) == Err(NotOneCodepoint)
    ensures Encode(Char, Str(s)).Err? <==> |s| != 1
  {
  }

  /** A fixed-size array is written only for a list of exactly its length. */
  lemma ArrayLengthRejected(e: Ty, n: nat, xs: seq<Value>)
    requires |xs| != n
    ensures Encode(Array(e, n), List(xs)) == Err(ArrayLengthMismatch)
  {
  }
}
