/**
 * Keys, initialisation vectors and the cipher. AES-256-CBC itself is a
 * foreign library: it enters the model as a `Cipher` value, about which only
 * the round trip and the PKCS#7 length law are assumed (`Sound`).
 */
module Encryption {
  import opened Bytes
  import opened Errors

  const IV_LEN: nat := 16
  const KEY_LEN: nat := 32
  /** The AES block size. */
  const CIPHER_BLOCK: nat := 16

  type Key = k: seq<byte> | |k| == KEY_LEN witness Zeros(KEY_LEN)
  type Iv = s: seq<byte> | |s| == IV_LEN witness Zeros(IV_LEN)

  /** The IV made from `s`: its first 16 bytes, zero-padded to 16. */
  function IvOf(s: seq<byte>): (iv: Iv)
    ensures forall i :: 0 <= i < Min(|s|, IV_LEN) ==> iv[i] == s[i]
    ensures forall i :: Min(|s|, IV_LEN) <= i < IV_LEN ==> iv[i] == 0
  {
    var n := Min(|s|, IV_LEN);
    s[..n] + Zeros(IV_LEN - n)
  }

  /** `IV::from_bytes`: zero a 16-byte buffer, then copy in the prefix of `s` that fits. */
  method IvFromBytes(s: seq<byte>) returns (iv: Iv)
    ensures |iv| == IV_LEN
    ensures forall i :: 0 <= i < Min(|s|, IV_LEN) ==> iv[i] == s[i]
    ensures forall i :: Min(|s|, IV_LEN) <= i < IV_LEN ==> iv[i] == 0
    ensures iv == IvOf(s)
  {
    var buf := new byte[IV_LEN](_ => 0);
    var len := Min(|s|, IV_LEN);
    forall i | 0 <= i < len {
      buf[i] := s[i];
    }
    iv := buf[..];
  }

  /** Bytes beyond the sixteenth never reach the IV. */
  lemma IvIgnoresTail(s: seq<byte>)
    requires |s| > IV_LEN
    ensures IvOf(s) == IvOf(s[..IV_LEN])
  {
  }

  /** Zero padding cannot tell a short password from one with trailing zero bytes. */
  lemma IvTrailingZero(s: seq<byte>)
    requires |s| < IV_LEN
    ensures IvOf(s + [0]) == IvOf(s)
  {
    assert (s + [0])[..|s| + 1] == s + [0];
    assert Zeros(IV_LEN - |s|) == [0] + Zeros(IV_LEN - |s| - 1);
  }

  /**
   * For inputs without zero bytes, two inputs give the same IV exactly when
   * their first 16 bytes agree.
   */
  lemma IvSameIff(p: seq<byte>, q: seq<byte>)
    requires forall i :: 0 <= i < |p| ==> p[i] != 0
    requires forall i :: 0 <= i < |q| ==> q[i] != 0
    ensures IvOf(p) == IvOf(q) <==> p[..Min(|p|, IV_LEN)] == q[..Min(|q|, IV_LEN)]
  {
    var m, n := Min(|p|, IV_LEN), Min(|q|, IV_LEN);
    if IvOf(p) == IvOf(q) {
      var a := IvOf(p);
      assert forall i :: 0 <= i < IV_LEN ==> (a[i] != 0 <==> i < m);
      assert forall i :: 0 <= i < IV_LEN ==> (a[i] != 0 <==> i < n);
      if m < IV_LEN { assert a[m] == 0; }
      if n < IV_LEN { assert a[n] == 0; }
      assert p[..m] == a[..m] && q[..n] == a[..n];
    }
  }

  /** Length of the PKCS#7-padded ciphertext of `n` plaintext bytes. */
  function PaddedLen(n: nat): (r: nat)
    ensures n < r <= n + CIPHER_BLOCK && r % CIPHER_BLOCK == 0
  {
    (n / CIPHER_BLOCK + 1) * CIPHER_BLOCK
  }

  /**
   * `encrypt` and `decrypt` of encryption.rs. `decrypt` gives `None` where the
   * source's `finalize(...).unwrap()` panics on a bad padding.
   */
  datatype Cipher = Cipher(
    encrypt: (seq<byte>, Key, Iv) -> seq<byte>,
    decrypt: (seq<byte>, Key, Iv) -> Option<seq<byte>>)

  /**
   * What the model assumes of AES-256-CBC with PKCS#7 padding: decrypting
   * with the same key and IV gives the plaintext back, and the ciphertext is
   * the next multiple of 16 strictly above the plaintext length.
   */
  ghost predicate Sound(c: Cipher)
  {
    forall d, k, iv :: c.decrypt(c.encrypt(d, k, iv), k, iv) == Some(d) && |c.encrypt(d, k, iv)| == PaddedLen(|d|)
  }

  /** Under the length law, 1020 bytes of plaintext encrypt to exactly 1024. */
  lemma EncryptionLength(c: Cipher, d: seq<byte>, k: Key, iv: Iv)
    requires Sound(c) && |d| == 1020
    ensures |c.encrypt(d, k, iv)| == 1024
  {
  }

  /** PKCS#7 padding (RFC 5652 section 6.3) to a multiple of the block size. */
  function Pad(d: seq<byte>): (r: seq<byte>)
    ensures |r| == PaddedLen(|d|)
  {
    var n := CIPHER_BLOCK - |d| % CIPHER_BLOCK;
    d + seq(n, _ => n)
  }

  /** Strips PKCS#7 padding; `None` when it is malformed. */
  function Unpad(c: seq<byte>): Option<seq<byte>>
  {
    if |c| == 0 || |c| % CIPHER_BLOCK != 0 then None
    else
      var n := c[|c| - 1] as int;
      if 1 <= n <= CIPHER_BLOCK && forall i :: |c| - n <= i < |c| ==> c[i] == n
      then Some(c[..|c| - n])
      else None
  }

  /**
   * The padding layer alone, with the identity for the block transform. It
   * shows that `Sound` can be met; it is not AES.
   */
  function PaddingOnly(): Cipher
  {
    Cipher((d, k, iv) => Pad(d), (c, k, iv) => Unpad(c))
  }

  lemma UnpadPad(d: seq<byte>)
    ensures Unpad(Pad(d)) == Some(d)
  {
    var c := Pad(d);
    var n := CIPHER_BLOCK - |d| % CIPHER_BLOCK;
    assert c[|c| - 1] == n;
    assert c[..|c| - n] == d;
  }

  lemma PaddingOnlySound()
    ensures Sound(PaddingOnly())
  {
    forall d, k, iv ensures PaddingOnly().decrypt(PaddingOnly().encrypt(d, k, iv), k, iv) == Some(d) {
      UnpadPad(d);
    }
  }
}
