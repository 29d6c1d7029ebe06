/** Concrete layouts of redb values under the codec, one per framing rule. */
module CodecExamples {
  import opened Wrappers
  import opened Bytes
  import opened Types
  import opened Codec
  import CodecLemmas
  import CodecImpl

  const U32 := Int(false, W32)

  /** `Option<u32>` None is a zero tag padded with the four bytes of the inner width. */
  lemma OptionNoneLayout()
    ensures Encode(Optional(U32), Null) == Ok([0, 0, 0, 0, 0])
    ensures Decode(Optional(U32), [0, 0, 0, 0, 0]) == Ok((Null, []))
  {
    var z := Zeros(4);
    assert z == [0, 0, 0, 0];
    assert TakeN(z, 4).value.0 == z;
    assert TakeN(z, 4) == Ok((z, []));
    assert Width(U32) == Some(4);
    assert Encode(Optional(U32), Null) == Ok([0] + z);
    assert [0] + z == [0, 0, 0, 0, 0];
  }

  /** `parse` skips the padding of a fixed-width None without reading it, so bytes that
      `encode` never writes decode too, and encoding the result does not give them back. */
  lemma NonePaddingUnchecked()
    ensures Decode(Optional(U32), [0, 9, 9, 9, 9]) == Ok((Null, []))
    ensures Encode(Optional(U32), Null) == Ok([0, 0, 0, 0, 0]) != Ok([0, 9, 9, 9, 9])
  {
    OptionNoneLayout();
    var z: Bytes := [9, 9, 9, 9];
    assert TakeN(z, 4).value.0 == z;
    assert TakeN(z, 4) == Ok((z, []));
    assert Width(U32) == Some(4);
    var d: Bytes := [0] + z;
    assert d == [0, 9, 9, 9, 9];
    assert TakeU8(d) == Ok((0, z));
    assert [0, 0, 0, 0, 0][1] != d[1];
  }

  /** `Option<u32>` Some(7) is a one tag followed by the inner encoding. */
  lemma OptionSomeLayout()
    ensures Encode(Optional(U32), Number(7)) == Ok([1, 7, 0, 0, 0])
  {
    SevenLayout();
    SomeLayout(U32, Number(7), [7, 0, 0, 0]);
    assert [1] + [7, 0, 0, 0] == [1, 7, 0, 0, 0];
  }

  /** A present `Option` value is the tag 1 followed by the inner encoding. */
  lemma SomeLayout(i: Ty, v: Value, e: Bytes)
    requires !v.Null? && Encode(i, v) == Ok(e)
    ensures Encode(Optional(i), v) == Ok([1] + e)
  {
  }

  /** The `u32` 7 is its four little-endian bytes. */
  lemma SevenLayout()
    ensures Encode(U32, Number(7)) == Ok([7, 0, 0, 0])
  {
    SevenFits();
    CodecLemmas.EncodeUnsignedValue(W32, 7);
    SevenLE();
  }

  /** 7 is in range for a `u32`, which is four bytes wide. */
  lemma SevenFits()
    ensures IntFits(false, W32, 7) && IntBytes(W32) == 4
  {
    assert Pow256(4) >= 256;
  }

  /** The four little-endian bytes of 7. */
  lemma SevenLE()
    ensures LE(7, 4) == [7, 0, 0, 0]
  {
    assert LE(0, 3) == [0, 0, 0];
  }

  const U8 := Int(false, W8)

  /** `Vec<u8>` [1,2,3] is a varint count followed by the fixed-width elements, unprefixed. */
  lemma VecLayout()
    ensures Encode(Vec(U8), List([Number(1), Number(2), Number(3)])) == Ok([3, 1, 2, 3])
  {
    var xs := [Number(1), Number(2), Number(3)];
    OneTwoThree();
    assert PutVarint(3) == [3];
    assert [3] + [1, 2, 3] == [3, 1, 2, 3];
  }

  /** The body of the `Vec<u8>` [1,2,3]: its three bytes. */
  lemma OneTwoThree()
    ensures EncodeRepeat(U8, [Number(1), Number(2), Number(3)], true) == Ok([1, 2, 3])
  {
    var xs := [Number(1), Number(2), Number(3)];
    assert xs[2..][1..] == [] && xs[1..][1..] == xs[2..] && xs[1..] == [Number(2), Number(3)];
    ByteRepeat(xs[2..]);
    ByteRepeat(xs[1..]);
    ByteRepeat(xs);
    assert [3] + [] == [3] && [2] + [3] == [2, 3] && [1] + [2, 3] == [1, 2, 3];
    assert xs[1..][0].n == 2 && xs[2..][0].n == 3;
    assert EncodeRepeat(U8, xs[2..], true) == Ok([3]);
    assert EncodeRepeat(U8, xs[1..], true) == Ok([2, 3]);
  }

  /** One step of a `Vec<u8>` body: a byte element is its own byte, with no length prefix. */
  lemma ByteRepeat(xs: seq<Value>)
    requires 1 <= |xs| && forall i :: 0 <= i < |xs| ==> xs[i].Number? && 0 <= xs[i].n < 256
    requires EncodeRepeat(U8, xs[1..], true).Ok?
    ensures EncodeRepeat(U8, xs, true) == Ok([xs[0].n] + EncodeRepeat(U8, xs[1..], true).value)
  {
    var k := xs[0].n;
    var b: Bytes := [k as byte];
    assert Encode(U8, xs[0]) == Ok(b) by {
      ByteEncoding(k);
      assert xs[0] == Number(k);
    }
    assert LengthPrefix(U8, true, |b|) == [] by {
      assert Width(U8) == Some(1);
    }
    var rest := EncodeRepeat(U8, xs[1..], true).value;
    assert EncodeRepeat(U8, xs, true) == Ok([] + b + rest);
    assert [] + b + rest == [k] + rest;
  }

  /** A `u8` is its own single byte. */
  lemma ByteEncoding(k: int)
    requires 0 <= k < 256
    ensures Encode(U8, Number(k)) == Ok([k as byte])
  {
    assert Pow256(1) == 256;
    CodecLemmas.EncodeUnsignedValue(W8, k);
    LEOne(k as byte);
  }

  /** `(Vec<u8>, String)`: the header holds the length of the whole first member,
      varint count included; the last member carries no length. */
  lemma TupleLayout()
    ensures Encode(Tuple([Vec(U8), String]), List([List([Number(1), Number(2), Number(3)]), Str("ab")]))
         == Ok([4, 3, 1, 2, 3, 0x61, 0x62])
  {
    VecLayout();
    LastMemberLayout();
    var ea: Bytes, eb: Bytes := [3, 1, 2, 3], [0x61, 0x62];
    PairLayout(Vec(U8), String, List([Number(1), Number(2), Number(3)]), Str("ab"), ea, eb);
    TupleBytes(ea, eb);
  }

  lemma TupleBytes(ea: Bytes, eb: Bytes)
    requires ea == [3, 1, 2, 3] && eb == [0x61, 0x62]
    ensures [|ea| as byte] + ea + eb == [4, 3, 1, 2, 3, 0x61, 0x62]
  {
  }

  /** A pair whose first member has no fixed width: a one-byte header holding that member's
      length, then both bodies. */
  lemma PairLayout(a: Ty, b: Ty, x: Value, y: Value, ea: Bytes, eb: Bytes)
    requires Width(a).None? && |ea| < 254
    requires Encode(a, x) == Ok(ea) && EncodeMembers([b], [Ok(y)]) == Ok(([], eb))
    ensures Encode(Tuple([a, b]), List([x, y])) == Ok([|ea| as byte] + ea + eb)
  {
    PairMembers(a, b, x, y, ea, eb);
    CodecImpl.TupleArm(Tuple([a, b]), List([x, y]), [x, y]);
    ConcatAssoc([|ea| as byte], ea, eb);
  }

  /** The member loop over the pair: the first member's header entry and body, then the
      second's body. */
  lemma PairMembers(a: Ty, b: Ty, x: Value, y: Value, ea: Bytes, eb: Bytes)
    requires Width(a).None? && |ea| < 254
    requires Encode(a, x) == Ok(ea) && EncodeMembers([b], [Ok(y)]) == Ok(([], eb))
    ensures EncodeMembers([a, b], Oks([x, y])) == Ok(([|ea| as byte], ea + eb))
  {
    var ms, vs := [a, b], Oks([x, y]);
    assert vs[0] == Ok(x) && vs[1..] == [Ok(y)] && ms[1..] == [b];
    var h: Bytes := [|ea| as byte];
    assert HeaderLength(a, false, |ea|) == h;
    assert h + [] == h;
  }

  /** The last member "ab" of the tuple: its UTF-8 bytes, with no header entry. */
  lemma LastMemberLayout()
    ensures EncodeMembers([String], [Ok(Str("ab"))]) == Ok(([], [0x61, 0x62]))
  {
    assert Utf8.Encode("ab") == [0x61, 0x62];
    assert Encode(String, Str("ab")) == Ok([0x61, 0x62]);
    assert [String][1..] == [] && [Ok(Str("ab"))][1..] == [];
    assert HeaderLength(String, true, 2) == [];
    assert EncodeMembers([String], [Ok(Str("ab"))]) == Ok(([] + [], [0x61, 0x62] + []));
    var ab: Bytes := [0x61, 0x62];
    var nothing: Bytes := [];
    assert ab + nothing == ab && nothing + nothing == nothing;
  }

  /** `parse` rejects a Bool byte and an Option tag other than 0 or 1. */
  lemma DiscriminantsRejected(b: byte, rest: Bytes)
    requires b > 1
    ensures Decode(Bool, [b] + rest) == Err(BadBool(b as int))
    ensures Decode(Optional(U32), [b] + rest) == Err(BadDiscriminant(b as int))
  {
  }
}
