/**
 * The raw storage of a `BitVec<u8, Lsb0>`: bit i lives in byte i / 8, at the
 * bit of weight 2^(i % 8). `as_raw_slice` exposes those bytes (the unused
 * high bits of the last byte are zero), and `BitVec::from_slice` reads all
 * 8 * |bytes| bits back.
 */
module Bitmap {
  import opened Bytes

  /** `n` clear bits, as `BitVec::repeat(false, n)`. */
  function Falses(n: nat): (r: seq<bool>)
    ensures |r| == n
    ensures forall i :: 0 <= i < n ==> !r[i]
  {
    seq(n, _ => false)
  }

  function Pow2(k: nat): (r: nat)
    ensures r >= 1
  {
    if k == 0 then 1 else 2 * Pow2(k - 1)
  }

  /** The number a run of bits stands for, least significant bit first. */
  function BitsValue(bits: seq<bool>): (r: nat)
    ensures r < Pow2(|bits|)
  {
    if bits == [] then 0 else (if bits[0] then 1 else 0) + 2 * BitsValue(bits[1..])
  }

  /** The low `k` bits of `x`, least significant first. */
  function ValueBits(x: nat, k: nat): (r: seq<bool>)
    ensures |r| == k
  {
    if k == 0 then [] else [x % 2 == 1] + ValueBits(x / 2, k - 1)
  }

  lemma {:induction false} Pow2Mono(j: nat, k: nat)
    requires j <= k
    ensures Pow2(j) <= Pow2(k)
  {
    if j < k { Pow2Mono(j, k - 1); }
  }

  /** One storage byte holding up to eight bits; missing high bits are zero. */
  function ByteOf(bits: seq<bool>): byte
    requires |bits| <= 8
  {
    Pow2Mono(|bits|, 8);
    BitsValue(bits)
  }

  /** `BitVec::as_raw_slice`: the bytes that store `bits`. */
  function PackBits(bits: seq<bool>): (r: seq<byte>)
    ensures |r| == (|bits| + 7) / 8
  {
    if bits == [] then []
    else
      var k := Min(8, |bits|);
      [ByteOf(bits[..k])] + PackBits(bits[k..])
  }

  /** `BitVec::from_slice`: every bit of every byte, in order. */
  function UnpackBits(bytes: seq<byte>): (r: seq<bool>)
    ensures |r| == 8 * |bytes|
  {
    if bytes == [] then [] else ValueBits(bytes[0], 8) + UnpackBits(bytes[1..])
  }

  /** Bits needed to round `n` up to a whole number of bytes. */
  function PadLen(n: nat): nat { if n % 8 == 0 then 0 else 8 - n % 8 }

  lemma {:induction false} ValueBitsZero(m: nat)
    ensures ValueBits(0, m) == Falses(m)
  {
    if m > 0 { ValueBitsZero(m - 1); }
  }

  /** Reading back the bits of a value gives the bits, then zeros. */
  lemma {:induction false} ValueBitsOfValue(bits: seq<bool>, m: nat)
    ensures ValueBits(BitsValue(bits), |bits| + m) == bits + Falses(m)
  {
    if bits == [] {
      ValueBitsZero(m);
    } else {
      var x := BitsValue(bits);
      assert x % 2 == 1 <==> bits[0];
      assert x / 2 == BitsValue(bits[1..]);
      ValueBitsOfValue(bits[1..], m);
      assert bits == [bits[0]] + bits[1..];
    }
  }

  /** Every value below 2^k is the value of its k low bits. */
  lemma {:induction false} ValueOfValueBits(x: nat, k: nat)
    requires x < Pow2(k)
    ensures BitsValue(ValueBits(x, k)) == x
  {
    if k > 0 {
      ValueOfValueBits(x / 2, k - 1);
      assert ValueBits(x, k)[1..] == ValueBits(x / 2, k - 1);
    }
  }

  /**
   * Unpacking the raw bytes of a bitmap gives the bitmap back, followed by
   * the clear padding bits of its last byte.
   */
  lemma UnpackPackStep(bits: seq<bool>)
    requires bits != []
    ensures var k := Min(8, |bits|);
      UnpackBits(PackBits(bits)) == bits[..k] + Falses(8 - k) + UnpackBits(PackBits(bits[k..]))
  {
    var k := Min(8, |bits|);
    var p := PackBits(bits);
    assert p[0] == ByteOf(bits[..k]) && p[1..] == PackBits(bits[k..]);
    ValueBitsOfValue(bits[..k], 8 - k);
  }

  lemma PadLenShift(n: nat)
    requires n >= 8
    ensures PadLen(n - 8) == PadLen(n)
  {
    assert (n - 8) % 8 == n % 8;
  }

  lemma {:induction false} UnpackPack(bits: seq<bool>)
    ensures UnpackBits(PackBits(bits)) == bits + Falses(PadLen(|bits|))
  {
    if bits != [] {
      UnpackPackStep(bits);
      if |bits| >= 8 {
        var rest := bits[8..];
        UnpackPack(rest);
        PadLenShift(|bits|);
        assert Falses(8 - 8) == [];
        calc {
          UnpackBits(PackBits(bits));
          bits[..8] + Falses(8 - 8) + UnpackBits(PackBits(rest));
          bits[..8] + (rest + Falses(PadLen(|bits|)));
          { assert bits == bits[..8] + rest; }
          bits + Falses(PadLen(|bits|));
        }
      } else {
        assert PackBits(bits[|bits|..]) == [];
        assert bits[..|bits|] == bits;
      }
    }
  }

  /** A bitmap whose length is a whole number of bytes survives the raw bytes. */
  lemma UnpackPackWhole(bits: seq<bool>)
    requires |bits| % 8 == 0
    ensures UnpackBits(PackBits(bits)) == bits
  {
    UnpackPack(bits);
    assert PadLen(|bits|) == 0;
    assert Falses(0) == [];
    assert bits + [] == bits;
  }

  /** Packing the bits read from raw bytes gives the same bytes. */
  lemma {:induction false} PackUnpack(bytes: seq<byte>)
    ensures PackBits(UnpackBits(bytes)) == bytes
  {
    if bytes != [] {
      var bits := UnpackBits(bytes);
      var head := ValueBits(bytes[0], 8);
      assert Pow2(8) == 256;
      ValueOfValueBits(bytes[0], 8);
      assert bits[..8] == head;
      assert bits[8..] == UnpackBits(bytes[1..]);
      PackUnpack(bytes[1..]);
      assert bytes == [bytes[0]] + bytes[1..];
    }
  }
}
