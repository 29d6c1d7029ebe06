/** Little-endian integers, the variable-length integer of redb's layout, and the byte-cursor
    primitives `take_n`, `take_u8`, `take_u32_len`, `take_varint` and `put_varint` of
    src/parser.rs, as functions on byte sequences. A cursor is the pair (taken, rest). */
module Bytes {
  import opened Wrappers

  type byte = x: int | 0 <= x < 256
  type Bytes = seq<byte>

  /** 2^32: the range of the `u32` casts in the length prefixes. */
  const TwoTo32: nat := 0x1_0000_0000

  function Pow256(k: nat): (p: nat)
    ensures p >= 1
  {
    if k == 0 then 1 else 256 * Pow256(k - 1)
  }

  lemma {:induction false} Pow256Monotone(a: nat, b: nat)
    requires a <= b
    ensures Pow256(a) <= Pow256(b)
    decreases b
  {
    if a < b {
      Pow256Monotone(a, b - 1);
    }
  }

  /** The k little-endian bytes of n modulo 256^k (`to_le_bytes` of an unsigned integer). */
  function LE(n: nat, k: nat): (b: Bytes)
    ensures |b| == k
  {
    if k == 0 then [] else [n % 256] + LE(n / 256, k - 1)
  }

  /** A byte is its own one-byte little-endian layout. */
  lemma LEOne(k: byte)
    ensures LE(k, 1) == [k]
  {
    assert k % 256 == k && k / 256 == 0;
    assert LE(k, 1) == [k % 256] + LE(k / 256, 0);
  }

  /** The first little-endian byte is the lowest byte of the number. */
  lemma LEHead(n: nat, k: nat)
    requires k >= 1
    ensures LE(n, k)[0] == n % 256
  {
  }

  /** The unsigned integer a little-endian byte string denotes (`from_le_bytes`). */
  function FromLE(b: Bytes): nat
  {
    if b == [] then 0 else b[0] + 256 * FromLE(b[1..])
  }

  lemma {:induction false} FromLEBound(b: Bytes)
    ensures FromLE(b) < Pow256(|b|)
  {
    if b != [] {
      FromLEBound(b[1..]);
    }
  }

  lemma {:induction false} FromLEOfLE(n: nat, k: nat)
    requires n < Pow256(k)
    ensures FromLE(LE(n, k)) == n
  {
    if k > 0 {
      FromLEOfLE(n / 256, k - 1);
      assert LE(n, k)[1..] == LE(n / 256, k - 1);
    }
  }

  lemma {:induction false} LEOfFromLE(b: Bytes)
    ensures LE(FromLE(b), |b|) == b
  {
    if b != [] {
      LEOfFromLE(b[1..]);
      assert FromLE(b) % 256 == b[0];
      assert FromLE(b) / 256 == FromLE(b[1..]);
    }
  }

  /** Two's complement: the bits `iN::to_le_bytes` writes for n, read as an unsigned number. */
  function Twos(n: int, k: nat): nat
    requires 1 <= k && -((Pow256(k) / 2) as int) <= n < Pow256(k) / 2
  {
    if n >= 0 then n else n + Pow256(k)
  }

  /** `iN::from_le_bytes`: the signed integer whose two's complement is b. */
  function FromLESigned(b: Bytes): (n: int)
    requires |b| >= 1
    ensures -((Pow256(|b|) / 2) as int) <= n < Pow256(|b|) / 2
  {
    FromLEBound(b);
    var u := FromLE(b);
    if u >= Pow256(|b|) / 2 then u - Pow256(|b|) else u
  }

  lemma SignedRoundTrip(n: int, k: nat)
    requires 1 <= k && -((Pow256(k) / 2) as int) <= n < Pow256(k) / 2
    ensures FromLESigned(LE(Twos(n, k), k)) == n
  {
    assert Pow256(k) == 256 * Pow256(k - 1);
    FromLEOfLE(Twos(n, k), k);
  }

  lemma SignedBytesRoundTrip(b: Bytes)
    requires |b| >= 1
    ensures LE(Twos(FromLESigned(b), |b|), |b|) == b
  {
    FromLEBound(b);
    var u: int, p: int := FromLE(b), Pow256(|b|);
    assert Twos(FromLESigned(b), |b|) == u by {
      if u >= p / 2 {
        assert FromLESigned(b) == u - p;
      } else {
        assert FromLESigned(b) == u;
      }
    }
    LEOfFromLE(b);
  }

  // ---------------------------------------------------------------------------------------
  // Cursor primitives

  /** `take_n`: split off the first `len` bytes, or fail with OffBuffer. */
  function TakeN(d: Bytes, len: nat): (r: Result<(Bytes, Bytes)>)
    ensures r.Ok? <==> len <= |d|
    ensures r.Ok? ==> |r.value.0| == len && r.value.0 + r.value.1 == d
    ensures r.Err? ==> r.error == OffBuffer
  {
    if len <= |d| then Ok((d[..len], d[len..])) else Err(OffBuffer)
  }

  lemma ConcatAssoc(a: Bytes, b: Bytes, c: Bytes)
    ensures a + b + c == a + (b + c)
  {
  }

  /** Taking exactly the length of a prefix splits it off. */
  lemma TakeNSplit(a: Bytes, b: Bytes)
    ensures TakeN(a + b, |a|) == Ok((a, b))
  {
    assert (a + b)[..|a|] == a && (a + b)[|a|..] == b;
  }

  /** `take_u8` */
  function TakeU8(d: Bytes): (r: Result<(byte, Bytes)>)
    ensures r.Ok? <==> |d| >= 1
    ensures r.Ok? ==> r.value == (d[0], d[1..])
  {
    var (b, rest) :- TakeN(d, 1);
    Ok((b[0], rest))
  }

  /** `take_u32_len`: a 4-byte little-endian length. */
  function TakeU32Len(d: Bytes): (r: Result<(nat, Bytes)>)
    ensures r.Ok? <==> |d| >= 4
    ensures r.Ok? ==> r.value == (FromLE(d[..4]), d[4..])
  {
    var (b, rest) :- TakeN(d, 4);
    Ok((FromLE(b), rest))
  }

  /** `take_varint`: one byte 0..=253 is the value itself; 254 announces a u16 and 255 a u32,
      both little-endian. */
  function TakeVarint(d: Bytes): Result<(nat, Bytes)>
  {
    var (tag, d1) :- TakeU8(d);
    if tag <= 253 then Ok((tag, d1))
    else if tag == 254 then
      var (b, d2) :- TakeN(d1, 2);
      Ok((FromLE(b), d2))
    else
      var (b, d2) :- TakeN(d1, 4);
      Ok((FromLE(b), d2))
  }

  /** `put_varint`. A length of 2^32 or more is truncated by the `as u32` cast. */
  function PutVarint(n: nat): (b: Bytes)
    ensures n < 254 ==> b == [n]
    ensures 254 <= n < 0x1_0000 ==> |b| == 3 && b[0] == 254
    ensures 0x1_0000 <= n ==> |b| == 5 && b[0] == 255
  {
    if n < 254 then [n]
    else if n <= 0xFFFF then [254] + LE(n, 2)
    else [255] + LE(n % TwoTo32, 4)
  }

  /** The varint of a u32-range length reads back as that length, leaving the rest untouched. */
  lemma VarintRoundTrip(n: nat, rest: Bytes)
    requires n < TwoTo32
    ensures TakeVarint(PutVarint(n) + rest) == Ok((n, rest))
  {
    if 254 <= n <= 0xFFFF {
      WideVarint(n, 2, 254, rest);
    } else if 0xFFFF < n {
      assert n % TwoTo32 == n;
      WideVarint(n, 4, 255, rest);
    }
  }

  /** The tag, then the k little-endian bytes of n. */
  lemma WideVarint(n: nat, k: nat, tag: byte, rest: Bytes)
    requires (k == 2 && tag == 254 && n < 0x1_0000) || (k == 4 && tag == 255 && n < TwoTo32)
    ensures TakeVarint([tag] + LE(n, k) + rest) == Ok((n, rest))
  {
    var e := LE(n, k);
    var b := [tag] + e + rest;
    FromLEOfLE(n, k);
    assert b[1..] == e + rest;
    assert TakeU8(b) == Ok((tag, e + rest));
    assert (e + rest)[..k] == e && (e + rest)[k..] == rest;
    assert TakeN(e + rest, k) == Ok((e, rest));
  }

  /** Every varint fits 32 bits, and a buffer ending before the announced width is OffBuffer. */
  lemma TakeVarintBounds(d: Bytes)
    ensures TakeVarint(d).Ok? ==> TakeVarint(d).value.0 < TwoTo32
    ensures TakeVarint(d).Ok? <==> |d| >= 1 && (d[0] <= 253 || (d[0] == 254 && |d| >= 3) || (d[0] == 255 && |d| >= 5))
    ensures TakeVarint(d).Err? ==> TakeVarint(d).error == OffBuffer
  {
    if |d| >= 3 && d[0] == 254 {
      FromLEBound(d[1..][..2]);
    }
    if |d| >= 5 && d[0] == 255 {
      FromLEBound(d[1..][..4]);
    }
  }
}
