/** Fixed-width integers and their byte encodings, as the Rust code uses them. */
module Bytes {

  type byte = x: int | 0 <= x < 0x100
  type u16 = x: int | 0 <= x < 0x1_0000
  type u32 = x: int | 0 <= x < 0x1_0000_0000
  type u64 = x: int | 0 <= x < 0x1_0000_0000_0000_0000

  function Min(a: nat, b: nat): nat { if a <= b then a else b }

  /** `n` zero bytes. */
  function Zeros(n: nat): (r: seq<byte>)
    ensures |r| == n
    ensures forall i :: 0 <= i < n ==> r[i] == 0
  {
    seq(n, _ => 0)
  }

  /** A `u64` value narrowed to `u32` with `as` (keeps the low 32 bits). */
  function TruncU32(x: u64): (r: u32)
    ensures x < 0x1_0000_0000 ==> r == x
    ensures (x - r) % 0x1_0000_0000 == 0
  {
    x % 0x1_0000_0000
  }

  /** `u32::to_be_bytes`. */
  function U32ToBe(x: u32): (r: seq<byte>)
    ensures |r| == 4
  {
    [x / 0x100_0000, (x / 0x1_0000) % 0x100, (x / 0x100) % 0x100, x % 0x100]
  }

  /** `u32::from_be_bytes`. */
  function U32FromBe(b: seq<byte>): (r: u32)
    requires |b| == 4
    ensures r == FromLe([b[3], b[2], b[1], b[0]])
  {
    assert [b[0]][1..] == [] && FromLe([b[0]]) == b[0];
    assert [b[1], b[0]][1..] == [b[0]];
    assert [b[2], b[1], b[0]][1..] == [b[1], b[0]];
    assert [b[3], b[2], b[1], b[0]][1..] == [b[2], b[1], b[0]];
    assert FromLe([b[1], b[0]]) == b[1] as int + 0x100 * b[0] as int;
    assert FromLe([b[2], b[1], b[0]]) == b[2] as int + 0x100 * b[1] as int + 0x1_0000 * b[0] as int;
    b[0] as int * 0x100_0000 + b[1] as int * 0x1_0000 + b[2] as int * 0x100 + b[3]
  }

  lemma U32BeRoundTrip(x: u32)
    ensures U32FromBe(U32ToBe(x)) == x
  {
    var b := U32ToBe(x);
    assert x % 0x100_0000 == b[1] as int * 0x1_0000 + (x % 0x1_0000);
    assert x % 0x1_0000 == b[2] as int * 0x100 + b[3];
  }

  lemma U32BeBytesRoundTrip(b: seq<byte>)
    requires |b| == 4
    ensures U32ToBe(U32FromBe(b)) == b
  {
    var x := U32FromBe(b);
    assert x / 0x100_0000 == b[0];
    assert x / 0x1_0000 == b[0] as int * 0x100 + b[1];
    assert x / 0x100 == b[0] as int * 0x1_0000 + b[1] as int * 0x100 + b[2];
  }

  /** The first `k` little-endian bytes of `x`. */
  function LeBytes(x: nat, k: nat): (r: seq<byte>)
    ensures |r| == k
  {
    if k == 0 then [] else [x % 0x100] + LeBytes(x / 0x100, k - 1)
  }

  /** The value of a little-endian byte string. */
  function FromLe(b: seq<byte>): nat
  {
    if b == [] then 0 else b[0] as int + 0x100 * FromLe(b[1..])
  }

  function Pow256(k: nat): (r: nat)
    ensures r >= 1
  {
    if k == 0 then 1 else 0x100 * Pow256(k - 1)
  }

  /** Every value below 256^k survives k little-endian bytes. */
  lemma {:induction false} LeRoundTrip(x: nat, k: nat)
    requires x < Pow256(k)
    ensures FromLe(LeBytes(x, k)) == x
  {
    if k > 0 {
      var q := x / 0x100;
      assert x == 0x100 * q + x % 0x100;
      assert q < Pow256(k - 1);
      LeRoundTrip(q, k - 1);
      assert LeBytes(x, k)[1..] == LeBytes(q, k - 1);
    }
  }
}
