/**
 * The older on-disk records (src/pinoq/file_format.rs): an aspect without a
 * root block, encrypted with the password resized to an IV, and the fixed
 * 4 + 1024-byte `Block` of a block chain.
 */
module FileFormat {
  import opened Bytes
  import opened Bitmap
  import opened Errors
  import opened Encryption
  import FileFmt

  const BLOCK_SIZE: nat := 1024
  /** Bytes of a serialized `Block`: next-block number, then data. */
  const BLOCK_RECORD_LEN: nat := 4 + BLOCK_SIZE

  /**
   * `iv.resize(IV_LEN, 0)` on the password bytes, as `encrypt` and `decrypt`
   * do before building the cipher.
   */
  function ResizeIv(password: seq<byte>): (iv: Iv)
    ensures forall i :: 0 <= i < Min(|password|, IV_LEN) ==> iv[i] == password[i]
    ensures forall i :: Min(|password|, IV_LEN) <= i < IV_LEN ==> iv[i] == 0
  {
    if |password| >= IV_LEN then password[..IV_LEN] else password + Zeros(IV_LEN - |password|)
  }

  /** The resize gives the same 16 bytes as the newer `IV::from_bytes`. */
  lemma ResizeIvIsIvOf(password: seq<byte>)
    ensures ResizeIv(password) == IvOf(password)
  {
  }

  /** `Aspect` of this generation: a key and a bitmap, no root block. */
  datatype Aspect = Aspect(key: Key, blockMap: seq<bool>)

  /** `Aspect::new`; the random key is a parameter. */
  function NewAspect(blocks: u32, key: Key): (a: Aspect)
    ensures a.key == key && |a.blockMap| == blocks
    ensures forall i :: 0 <= i < blocks ==> !a.blockMap[i]
  {
    Aspect(key, Falses(blocks))
  }

  /** `Aspect::serialize`: key bytes, then raw bitmap bytes. */
  function SerializeAspect(a: Aspect): (r: seq<byte>)
    ensures |r| == KEY_LEN + (|a.blockMap| + 7) / 8
  {
    a.key + PackBits(a.blockMap)
  }

  /** `Aspect::serialize_into`: the raw bitmap bytes only, without the key. */
  function SerializeAspectInto(a: Aspect): (r: seq<byte>)
    ensures SerializeAspect(a) == a.key + r
  {
    PackBits(a.blockMap)
  }

  /** `EncryptedAspect` of this generation. */
  datatype EncryptedAspect = EncryptedAspect(key: Key, encryptedData: seq<byte>)

  /** `Aspect::to_encrypted_aspect`; the fresh random key is a parameter. */
  function ToEncryptedAspect(c: Cipher, a: Aspect, password: seq<byte>, key: Key): (ea: EncryptedAspect)
    ensures ea.key == key
    ensures Sound(c) ==> |ea.encryptedData| == PaddedLen(KEY_LEN + (|a.blockMap| + 7) / 8)
  {
    EncryptedAspect(key, c.encrypt(SerializeAspect(a), key, ResizeIv(password)))
  }

  /**
   * `Aspect::from_encrypted_aspect`: key from the first 32 plaintext bytes,
   * bitmap from the rest. `None` where the source panics (bad padding, or a
   * plaintext shorter than the key).
   */
  function FromEncryptedAspect(c: Cipher, ea: EncryptedAspect, password: seq<byte>): (r: Option<Aspect>)
    ensures r.Some? <==>
      c.decrypt(ea.encryptedData, ea.key, ResizeIv(password)).Some?
      && |c.decrypt(ea.encryptedData, ea.key, ResizeIv(password)).value| >= KEY_LEN
    ensures r.Some? ==> |r.value.blockMap| % 8 == 0
    ensures r.Some? ==> SerializeAspect(r.value) == c.decrypt(ea.encryptedData, ea.key, ResizeIv(password)).value
  {
    match c.decrypt(ea.encryptedData, ea.key, ResizeIv(password))
    case None => None
    case Some(plain) =>
      if |plain| < KEY_LEN then None
      else
        PackUnpack(plain[KEY_LEN..]);
        assert plain == plain[..KEY_LEN] + plain[KEY_LEN..];
        Some(Aspect(plain[..KEY_LEN], UnpackBits(plain[KEY_LEN..])))
  }

  /** An aspect survives encryption under a password, its bitmap padded to whole bytes. */
  lemma AspectRoundTrip(c: Cipher, a: Aspect, password: seq<byte>, key: Key)
    requires Sound(c)
    ensures FromEncryptedAspect(c, ToEncryptedAspect(c, a, password, key), password)
         == Some(a.(blockMap := a.blockMap + Falses(PadLen(|a.blockMap|))))
  {
    var plain := SerializeAspect(a);
    var iv := ResizeIv(password);
    assert c.decrypt(c.encrypt(plain, key, iv), key, iv) == Some(plain);
    assert plain[..KEY_LEN] == a.key && plain[KEY_LEN..] == PackBits(a.blockMap);
    UnpackPack(a.blockMap);
  }

  /** `Block`: the next block of a chain (0xFFFFFFFF for the last) and 1024 data bytes. */
  datatype Block = Block(nextBlock: u32, data: seq<byte>)
  {
    ghost predicate Valid() { |data| == BLOCK_SIZE }
  }

  /** `Block::serialize_into`: `next_block` big-endian, then the data bytes. */
  function SerializeBlock(b: Block): (r: seq<byte>)
    requires b.Valid()
    ensures |r| == BLOCK_RECORD_LEN
  {
    U32ToBe(b.nextBlock) + b.data
  }

  /**
   * `Block::deserialize_from`: two `read_exact`s. It fails when fewer than
   * 1028 bytes are available; it returns the block and the unread rest.
   */
  function DeserializeBlock(bytes: seq<byte>): (r: Result<(Block, seq<byte>)>)
    ensures r.Ok? <==> |bytes| >= BLOCK_RECORD_LEN
    ensures r.Ok? ==> r.value.0.Valid() && r.value.1 == bytes[BLOCK_RECORD_LEN..]
  {
    if |bytes| < BLOCK_RECORD_LEN then Err(IO("failed to fill whole buffer"))
    else Ok((Block(U32FromBe(bytes[..4]), bytes[4..BLOCK_RECORD_LEN]), bytes[BLOCK_RECORD_LEN..]))
  }

  /** Reading back a written block, with anything after it, gives the block and that rest. */
  lemma BlockRoundTrip(b: Block, rest: seq<byte>)
    requires b.Valid()
    ensures DeserializeBlock(SerializeBlock(b) + rest) == Ok((b, rest))
  {
    var s := SerializeBlock(b) + rest;
    assert s[..4] == U32ToBe(b.nextBlock);
    assert s[4..BLOCK_RECORD_LEN] == b.data;
    assert s[BLOCK_RECORD_LEN..] == rest;
    U32BeRoundTrip(b.nextBlock);
  }

  /** `EncryptedAspect::size_of` of this generation, as written. */
  function SizeOf(n: u32): (r: nat)
    ensures 88 <= r && 8 * (r - 88) <= n < 8 * (r - 87)
  {
    n / 8 + 88
  }

  /** Length of the bincode encoding of an encrypted aspect: key, length prefix, ciphertext. */
  function EncodedAspectLen(ea: EncryptedAspect): nat
  {
    KEY_LEN + FileFmt.USIZE_LEN + |ea.encryptedData|
  }

  /** With 121 blocks the stored aspect needs 104 bytes but `size_of` reserves 103. */
  lemma SizeOfTooSmall(c: Cipher, a: Aspect, password: seq<byte>, key: Key)
    requires Sound(c)
    requires |a.blockMap| == 121
    ensures EncodedAspectLen(ToEncryptedAspect(c, a, password, key)) == 104 > SizeOf(121)
  {
    var plain := SerializeAspect(a);
    assert |c.encrypt(plain, key, ResizeIv(password))| == PaddedLen(|plain|);
  }

  /** The slot size the stored aspect actually needs for an `n`-block bitmap. */
  function AspectSlotSize(n: u32): nat
  {
    KEY_LEN + FileFmt.USIZE_LEN + PaddedLen(KEY_LEN + (n + 7) / 8)
  }

  /** Every stored aspect with an `n`-bit bitmap fills exactly `AspectSlotSize(n)` bytes. */
  lemma AspectSlotSizeExact(c: Cipher, a: Aspect, password: seq<byte>, key: Key)
    requires Sound(c)
    requires |a.blockMap| < 0x1_0000_0000
    ensures EncodedAspectLen(ToEncryptedAspect(c, a, password, key)) == AspectSlotSize(|a.blockMap|)
  {
    var plain := SerializeAspect(a);
    assert |c.encrypt(plain, key, ResizeIv(password))| == PaddedLen(|plain|);
  }

  /** `INode` of this generation; the same fields as the newer one, without `new`. */
  datatype INode = INode(mode: u32, size: u64, blockSize: u32, uid: u32, gid: u32, dataBlock: u32)
  {
    /** `INode::is_dir`. */
    predicate IsDir() { FileFmt.HasDirBit(mode) }

    /** `INode::as_attr`. */
    function AsAttr(n: u32): (r: FileFmt.FileAttr)
      ensures r.kind == FileFmt.Directory <==> IsDir()
      ensures r.ino == n && r.size == size && r.uid == uid && r.gid == gid && r.blksize == blockSize
      ensures r.perm == 0x1ED && r.nlink == 1
    {
      var kind := if FileFmt.HasDirBit(mode) then FileFmt.Directory else FileFmt.RegularFile;
      FileFmt.FileAttr(n, size, 1, kind, 0x1ED, 1, uid, gid, 0, blockSize, 0)
    }
  }

  /** `is_dir` tests the mode against the S_IFDIR mask, bit 14. */
  lemma IsDirMask(i: INode)
    ensures i.IsDir() <==> (i.mode as bv32) & 0x4000 != 0
  {
  }

  /** Both generations report the same attributes for the same inode fields. */
  lemma AsAttrAgrees(i: INode, n: u32)
    ensures i.AsAttr(n) == FileFmt.INode(i.mode, i.size, i.blockSize, i.uid, i.gid, i.dataBlock).AsAttr(n)
  {
  }
}
