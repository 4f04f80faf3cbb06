/**
 * The newer on-disk records (src/pinoq/filefmt.rs): the aspect header and its
 * encryption under the password, encrypted blocks, inodes and directories.
 * bincode is foreign: where a record goes through it, the model works on the
 * encoded bytes, except for the length-prefixed `EncryptedBlock`.
 */
module FileFmt {
  import opened Bytes
  import opened Bitmap
  import opened Errors
  import opened Encryption

  const BLOCK_SIZE: nat := 1024
  const MAGIC: u32 := 0x504E4F51
  /** The `root_block` of an aspect that has no root directory yet. */
  const NO_ROOT: u32 := 0xFFFF_FFFF
  /** `size_of::<usize>()` on a 64-bit target, and bincode's length prefix. */
  const USIZE_LEN: nat := 8
  /** Bytes before the bitmap in an aspect's plaintext: key and root block. */
  const ASPECT_HEADER_LEN: nat := KEY_LEN + 4

  // libc file-type bits of `mode_t`.
  const S_IFDIR: u32 := 0x4000
  const S_IFREG: u32 := 0x8000

  /** `mode & S_IFDIR != 0`; S_IFDIR is the single bit of weight 2^14. */
  predicate HasDirBit(mode: u32) { (mode / S_IFDIR) % 2 == 1 }

  datatype SuperBlock = SuperBlock(magic: u32, aspects: u32, blocks: u32, uid: u32, gid: u32)

  /** The decrypted state of one aspect. */
  datatype Aspect = Aspect(key: Key, rootBlock: u32, blockMap: seq<bool>)
  {
    /** `Aspect::has_root_block`. */
    predicate HasRootBlock() { rootBlock != NO_ROOT }
  }

  /** `Aspect::new`; the random key is a parameter. */
  function NewAspect(blocks: u32, key: Key): (a: Aspect)
    ensures !a.HasRootBlock() && a.key == key
    ensures |a.blockMap| == blocks
    ensures forall i :: 0 <= i < blocks ==> !a.blockMap[i]
  {
    Aspect(key, NO_ROOT, Falses(blocks))
  }

  /** `Aspect::serialize`: key, root block big-endian, raw bitmap bytes. */
  function SerializeAspect(a: Aspect): (r: seq<byte>)
    ensures |r| == ASPECT_HEADER_LEN + (|a.blockMap| + 7) / 8
  {
    a.key + U32ToBe(a.rootBlock) + PackBits(a.blockMap)
  }

  /**
   * The plaintext parse of `Aspect::from_encrypted_aspect`. `None` stands for
   * the panic of `copy_from_slice` on a plaintext shorter than 36 bytes.
   */
  function ParseAspect(plain: seq<byte>): (r: Option<Aspect>)
    ensures r.Some? <==> |plain| >= ASPECT_HEADER_LEN
  {
    if |plain| < ASPECT_HEADER_LEN then None
    else Some(Aspect(plain[..KEY_LEN], U32FromBe(plain[KEY_LEN..ASPECT_HEADER_LEN]), UnpackBits(plain[ASPECT_HEADER_LEN..])))
  }

  /**
   * Parsing a serialized aspect gives it back, its bitmap grown to a whole
   * number of bytes by clear bits.
   */
  lemma ParseSerialize(a: Aspect)
    ensures ParseAspect(SerializeAspect(a)) == Some(a.(blockMap := a.blockMap + Falses(PadLen(|a.blockMap|))))
  {
    var s := SerializeAspect(a);
    assert s[..KEY_LEN] == a.key;
    assert s[KEY_LEN..ASPECT_HEADER_LEN] == U32ToBe(a.rootBlock);
    assert s[ASPECT_HEADER_LEN..] == PackBits(a.blockMap);
    U32BeRoundTrip(a.rootBlock);
    UnpackPack(a.blockMap);
  }

  /** With a whole number of bitmap bytes the round trip is exact. */
  lemma ParseSerializeWhole(a: Aspect)
    requires |a.blockMap| % 8 == 0
    ensures ParseAspect(SerializeAspect(a)) == Some(a)
  {
    ParseSerialize(a);
    assert a.blockMap + Falses(PadLen(|a.blockMap|)) == a.blockMap;
  }

  /** Every plaintext long enough to parse is the serialization of its parse. */
  lemma SerializeParse(plain: seq<byte>)
    requires |plain| >= ASPECT_HEADER_LEN
    ensures SerializeAspect(ParseAspect(plain).value) == plain
  {
    var a := ParseAspect(plain).value;
    U32BeBytesRoundTrip(plain[KEY_LEN..ASPECT_HEADER_LEN]);
    PackUnpack(plain[ASPECT_HEADER_LEN..]);
    assert plain == plain[..KEY_LEN] + plain[KEY_LEN..ASPECT_HEADER_LEN] + plain[ASPECT_HEADER_LEN..];
  }

  /** An aspect slot as stored: the key that encrypts it, and the ciphertext. */
  datatype EncryptedAspect = EncryptedAspect(key: Key, encryptedData: seq<byte>)

  /** `Aspect::to_encrypted_aspect`; the fresh random key is a parameter. */
  function ToEncryptedAspect(c: Cipher, a: Aspect, password: seq<byte>, key: Key): (ea: EncryptedAspect)
    ensures ea.key == key
    ensures Sound(c) ==> |ea.encryptedData| == PaddedLen(ASPECT_HEADER_LEN + (|a.blockMap| + 7) / 8)
  {
    EncryptedAspect(key, c.encrypt(SerializeAspect(a), key, IvOf(password)))
  }

  /**
   * `Aspect::from_encrypted_aspect`: decrypt under the IV made from the
   * password, then parse. `None` where the source panics.
   */
  function FromEncryptedAspect(c: Cipher, ea: EncryptedAspect, password: seq<byte>): (r: Option<Aspect>)
    ensures r.Some? <==>
      c.decrypt(ea.encryptedData, ea.key, IvOf(password)).Some?
      && |c.decrypt(ea.encryptedData, ea.key, IvOf(password)).value| >= ASPECT_HEADER_LEN
    ensures r.Some? ==> SerializeAspect(r.value) == c.decrypt(ea.encryptedData, ea.key, IvOf(password)).value
  {
    match c.decrypt(ea.encryptedData, ea.key, IvOf(password))
    case None => None
    case Some(plain) =>
      if |plain| < ASPECT_HEADER_LEN then None
      else
        SerializeParse(plain);
        ParseAspect(plain)
  }

  /**
   * An aspect written under one password is read back under any password
   * with the same IV, bitmap padded to whole bytes.
   */
  lemma AspectRoundTrip(c: Cipher, a: Aspect, password: seq<byte>, password': seq<byte>, key: Key)
    requires Sound(c)
    requires IvOf(password) == IvOf(password')
    ensures FromEncryptedAspect(c, ToEncryptedAspect(c, a, password, key), password')
         == Some(a.(blockMap := a.blockMap + Falses(PadLen(|a.blockMap|))))
  {
    var plain := SerializeAspect(a);
    assert c.decrypt(c.encrypt(plain, key, IvOf(password)), key, IvOf(password)) == Some(plain);
    ParseSerialize(a);
  }

  /** The IV of stored block `n`: `n` big-endian, then twelve zero bytes. */
  function BlockIv(n: u32): (iv: Iv)
    ensures iv == U32ToBe(n) + Zeros(IV_LEN - 4)
  {
    IvOf(U32ToBe(n))
  }

  /** Distinct blocks are encrypted under distinct IVs. */
  lemma BlockIvInjective(n: u32, m: u32)
    requires BlockIv(n) == BlockIv(m)
    ensures n == m
  {
    assert U32ToBe(n) == BlockIv(n)[..4];
    assert U32ToBe(m) == BlockIv(m)[..4];
    U32BeRoundTrip(n);
    U32BeRoundTrip(m);
  }

  /** `to_encrypted_block`, on the bincode encoding `plain` of the value stored. */
  function ToEncryptedBlock(c: Cipher, plain: seq<byte>, key: Key, n: u32): (eb: seq<byte>)
    ensures Sound(c) ==> |eb| == PaddedLen(|plain|)
  {
    c.encrypt(plain, key, BlockIv(n))
  }

  /** `from_encrypted_block`, up to the bincode decoding of the plaintext. */
  function FromEncryptedBlock(c: Cipher, eb: seq<byte>, key: Key, n: u32): (r: Option<seq<byte>>)
    ensures Sound(c) ==> forall plain :: eb == c.encrypt(plain, key, BlockIv(n)) ==> r == Some(plain)
  {
    c.decrypt(eb, key, BlockIv(n))
  }

  /** A block read back under the number it was written under gives its plaintext. */
  lemma BlockRoundTrip(c: Cipher, plain: seq<byte>, key: Key, n: u32)
    requires Sound(c)
    ensures FromEncryptedBlock(c, ToEncryptedBlock(c, plain, key, n), key, n) == Some(plain)
    ensures |ToEncryptedBlock(c, plain, key, n)| == PaddedLen(|plain|)
  {
    assert c.decrypt(c.encrypt(plain, key, BlockIv(n)), key, BlockIv(n)) == Some(plain);
  }

  /**
   * `EncryptedBlock::serialize_into`: an 8-byte little-endian length, then
   * the ciphertext. `None` is the "block overflow" assertion failure.
   */
  function SerializeEncryptedBlock(eb: seq<byte>): (r: Option<seq<byte>>)
    ensures r.Some? <==> |eb| <= BLOCK_SIZE - USIZE_LEN
    ensures r.Some? ==> |r.value| == USIZE_LEN + |eb| <= BLOCK_SIZE && r.value[USIZE_LEN..] == eb
  {
    if |eb| <= BLOCK_SIZE - USIZE_LEN then Some(LeBytes(|eb|, USIZE_LEN) + eb) else None
  }

  /** `EncryptedBlock::deserialize_from`: the length prefix, then that many bytes. */
  function DeserializeEncryptedBlock(bytes: seq<byte>): (r: Result<seq<byte>>)
    ensures r.Err? ==> r.error == Serialization
    ensures r.Ok? <==> |bytes| >= USIZE_LEN && FromLe(bytes[..USIZE_LEN]) <= |bytes| - USIZE_LEN
    ensures r.Ok? ==> |r.value| == FromLe(bytes[..USIZE_LEN]) && bytes[USIZE_LEN..] == r.value + bytes[USIZE_LEN + |r.value|..]
  {
    if |bytes| < USIZE_LEN then Err(Serialization)
    else
      var len := FromLe(bytes[..USIZE_LEN]);
      if |bytes| - USIZE_LEN < len then Err(Serialization)
      else Ok(bytes[USIZE_LEN..USIZE_LEN + len])
  }

  lemma EncryptedBlockRoundTrip(eb: seq<byte>)
    requires |eb| <= BLOCK_SIZE - USIZE_LEN
    ensures DeserializeEncryptedBlock(SerializeEncryptedBlock(eb).value) == Ok(eb)
  {
    var s := SerializeEncryptedBlock(eb).value;
    assert Pow256(8) == 0x1_0000_0000_0000_0000;
    assert |eb| < Pow256(USIZE_LEN);
    LeRoundTrip(|eb|, USIZE_LEN);
    assert s[..USIZE_LEN] == LeBytes(|eb|, USIZE_LEN);
    assert FromLe(s[..USIZE_LEN]) == |eb|;
    assert s[USIZE_LEN..USIZE_LEN + |eb|] == eb;
  }

  /**
   * A value fits in one stored block exactly when its encoding is shorter
   * than 1008 bytes: its ciphertext is then at most 1008 bytes, within the
   * 1016 that the assertion allows beside the length prefix.
   */
  lemma StoredBlockFits(c: Cipher, plain: seq<byte>, key: Key, n: u32)
    requires Sound(c)
    ensures SerializeEncryptedBlock(ToEncryptedBlock(c, plain, key, n)).Some? <==> |plain| < 1008
  {
    BlockRoundTrip(c, plain, key, n);
  }

  /**
   * `EncryptedAspect::size_of`, the bytes reserved for one aspect slot, as
   * written.
   */
  function SizeOf(n: u32): (r: nat)
    ensures 88 <= r && 8 * (r - 88) <= n < 8 * (r - 87)
  {
    n / 8 + 88
  }

  /** Length of the bincode encoding of an encrypted aspect: key, length prefix, ciphertext. */
  function EncodedAspectLen(ea: EncryptedAspect): nat
  {
    KEY_LEN + USIZE_LEN + |ea.encryptedData|
  }

  /**
   * With 96 blocks the stored aspect needs 104 bytes but `size_of` reserves
   * 100; with the 1024 blocks of the integration test both are 216.
   */
  lemma SizeOfTooSmall(c: Cipher, a: Aspect, password: seq<byte>, key: Key)
    requires Sound(c)
    ensures |a.blockMap| == 96 ==> EncodedAspectLen(ToEncryptedAspect(c, a, password, key)) == 104 > SizeOf(96)
    ensures |a.blockMap| == 1024 ==> EncodedAspectLen(ToEncryptedAspect(c, a, password, key)) == 216 == SizeOf(1024)
  {
    var plain := SerializeAspect(a);
    assert |c.encrypt(plain, key, IvOf(password))| == PaddedLen(|plain|);
  }

  /** The slot size the stored aspect actually needs for an `n`-block bitmap. */
  function AspectSlotSize(n: u32): nat
  {
    KEY_LEN + USIZE_LEN + PaddedLen(ASPECT_HEADER_LEN + (n + 7) / 8)
  }

  /** Every stored aspect with an `n`-bit bitmap fills exactly `AspectSlotSize(n)` bytes. */
  lemma AspectSlotSizeExact(c: Cipher, a: Aspect, password: seq<byte>, key: Key)
    requires Sound(c)
    requires |a.blockMap| < 0x1_0000_0000
    ensures EncodedAspectLen(ToEncryptedAspect(c, a, password, key)) == AspectSlotSize(|a.blockMap|)
  {
    var plain := SerializeAspect(a);
    assert |c.encrypt(plain, key, IvOf(password))| == PaddedLen(|plain|);
  }

  /** `INode`; `mode` is a `mode_t`, `size` a `usize`. */
  datatype INode = INode(mode: u32, size: u64, blockSize: u32, uid: u32, gid: u32, dataBlock: u32)
  {
    /** `INode::is_dir`. */
    predicate IsDir() { HasDirBit(mode) }

    /** `INode::as_attr`: the attributes FUSE reports for this inode as inode number `n`. */
    function AsAttr(n: u32): (r: FileAttr)
      ensures r.kind == Directory <==> IsDir()
      ensures r.ino == n && r.size == size && r.uid == uid && r.gid == gid && r.blksize == blockSize
      ensures r.perm == 0x1ED && r.nlink == 1 && r.blocks == 1
    {
      var kind := if !HasDirBit(mode) then RegularFile else Directory;
      FileAttr(n, size, 1, kind, 0x1ED, 1, uid, gid, 0, blockSize, 0)
    }
  }

  /** `is_dir` tests the mode against the S_IFDIR mask, bit 14. */
  lemma IsDirMask(i: INode)
    ensures i.IsDir() <==> (i.mode as bv32) & 0x4000 != 0
  {
  }

  /** `INode::new`: mode and owner set, everything else zero. */
  function NewINode(mode: u32, uid: u32, gid: u32): (r: INode)
    ensures r.mode == mode && r.uid == uid && r.gid == gid
    ensures r.size == 0 && r.blockSize == 0 && r.dataBlock == 0
  {
    INode(mode, 0, 0, uid, gid, 0)
  }

  /** The two modes the engine creates: directories report as directories, files as files. */
  lemma CreatedModes(uid: u32, gid: u32)
    ensures NewINode(S_IFDIR, uid, gid).IsDir()
    ensures !NewINode(S_IFREG, uid, gid).IsDir()
  {
  }

  /** `fuser::FileType`, restricted to the two kinds the engine reports. */
  datatype FileType = RegularFile | Directory

  /** `fuser::FileAttr` without its four timestamps, which are all the epoch. */
  datatype FileAttr = FileAttr(
    ino: u64, size: u64, blocks: u64, kind: FileType, perm: u16, nlink: u32,
    uid: u32, gid: u32, rdev: u32, blksize: u32, flags: u32)

  /** `Dir`: names mapped to the block holding each child's inode. */
  datatype Dir = Dir(entries: map<string, u32>)
}
