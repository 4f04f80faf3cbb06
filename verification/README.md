# pinoq — a verified model of the engine core

pinoq is a FUSE filesystem with deniable encryption. A disk image holds a
superblock, then one encrypted *aspect* slot per aspect, then fixed 1024-byte
blocks. Each aspect is an independent hidden filesystem. Its key, its root
block and its bitmap of owned blocks are stored encrypted under a password.
Mounting one aspect decrypts every slot with the mounted password and ORs the
bitmaps into a global used-block map. New blocks are allocated from that map,
so one aspect never overwrites a block another aspect owns.

The model covers the following, in Dafny, one module per source file:

- `Bytes`, `Bitmap`: big- and little-endian integers, and the `BitVec<u8, Lsb0>`
  raw-byte layout of bitmaps.
- `Errors` (src/pinoq/error.rs): `PinoqError`, `Result`, `to_code`.
- `Encryption` (src/pinoq/encryption.rs):
  - `IV::from_bytes`, as an imperative method on a 16-byte array.
  - AES-256-CBC as an abstract `Cipher` value. Only two laws are assumed of it
    (`Sound`): the round trip, and the PKCS#7 length law. A padding-only cipher
    shows that the assumption can be met.
- `FileFmt` (src/pinoq/filefmt.rs): the newer records. These are the aspect
  plaintext (key ‖ big-endian root block ‖ bitmap bytes) and its encryption
  under the password, the per-block IV, the length-prefixed encrypted block
  and its overflow assertion, `INode` and `Dir`.
- `FileFormat` (src/pinoq/file_format.rs): the older records. These are the
  aspect without a root block, the password-resized IV, and the 4 + 1024-byte
  `Block`.
- `Names`: the ascending order in which a `BTreeMap<String, _>` yields its keys.
- `Fs` (src/pinoq/fs.rs): `PinoqFs` as a class.
  - The global block map is an `array<bool>`. The mounted aspect, the aspect
    slots and the decoded disk are fields.
  - `construct_block_map`, `find_free_block`, `allocate_block`, `init_root`,
    `create_entry` and `list_entries` are methods. `lookup_name` and
    `convert_inode_index` are functions.
  - The image is abstracted as a map from block index to the value that block
    decodes to under the mounted key: an `INode` or a `Dir`. Every block in the
    map is one the mounted aspect marks as its own. Reading a block that is
    not in the map, or that holds the other kind, is modelled as the source's
    `Serialization` error. The source does worse in two such cases; see
    "Left out".

The class invariant `Valid` says five things:

- every block the disk holds is marked in the mounted aspect's bitmap;
- every entry of every directory on the disk names a block the disk holds;
- the block map covers every block that any aspect marked when the map was
  built, and every block the mounted aspect marks now;
- the other slots are as they were then;
- the map has one bit per block.

Every allocation therefore returns a block that no aspect owned and that the
disk does not hold yet. This is the isolation behaviour between aspects, and
it is why a create cannot overwrite the parent's own blocks or a block that
another name of the directory already refers to.

## Model

| member | source | states |
|---|---|---|
| Bytes.Zeros | src/pinoq/encryption.rs:15 | the zero-filled buffer has the requested length and only zero bytes |
| Bytes.TruncU32 | src/pinoq/fs.rs:119 | the `as u32` narrowing of a `u64` inode number is congruent to it modulo 2^32, and equal to it below 2^32 |
| Bytes.U32ToBe | src/pinoq/filefmt.rs:135 | `to_be_bytes` gives four bytes, most significant first |
| Bytes.U32FromBe | src/pinoq/filefmt.rs:154 | `from_be_bytes` reads the first byte as the most significant: its value is that of the four bytes reversed, read little-endian |
| Bytes.U32BeRoundTrip | src/pinoq/file_format.rs:198-213 | reading back four written big-endian bytes gives the number |
| Bytes.U32BeBytesRoundTrip | src/pinoq/filefmt.rs:150-154 | every four bytes are the big-endian encoding of the number read from them |
| Bytes.LeBytes | src/pinoq/filefmt.rs:184-189 | the length prefix of an encoded block has exactly the requested number of bytes |
| Bytes.LeRoundTrip | src/pinoq/filefmt.rs:179-198 | a number below 256^k survives k little-endian bytes |
| Bitmap.Falses | src/pinoq/filefmt.rs:123 | `BitVec::repeat(false, n)` has n bits, all clear |
| Bitmap.PackBits | src/pinoq/filefmt.rs:136 | `as_raw_slice` of an n-bit map takes ceil(n/8) bytes |
| Bitmap.UnpackBits | src/pinoq/filefmt.rs:155 | `from_slice` gives eight bits per byte |
| Bitmap.UnpackPack | src/pinoq/filefmt.rs:131-157 | unpacking packed bits gives the bits followed by clear padding bits up to a whole byte |
| Bitmap.UnpackPackWhole | src/pinoq/filefmt.rs:131-157 | for a whole number of bytes, unpacking packed bits gives the bits exactly |
| Bitmap.PackUnpack | src/pinoq/filefmt.rs:131-157 | packing unpacked bytes gives the bytes exactly |
| Errors.ToCode | src/pinoq/error.rs:22-30 | ENOENT iff NoEntry; ENOTDIR iff NoDirectory; ENOSPC iff NoEnoughSpace; EIO iff IO; -1 iff Serialization or InvalidConfig |
| Encryption.IvOf | src/pinoq/encryption.rs:14-21 | the IV holds the input's first min(len, 16) bytes, then zeros |
| Encryption.IvFromBytes | src/pinoq/encryption.rs:14-21 | the IV is 16 bytes, its first min(len, 16) bytes are the input's, the rest are zero |
| Encryption.IvIgnoresTail | src/pinoq/encryption.rs:17-18 | input beyond 16 bytes does not affect the IV |
| Encryption.IvTrailingZero | src/pinoq/encryption.rs:15-18 | a password shorter than 16 bytes and the same password with a trailing zero byte give the same IV |
| Encryption.IvSameIff | src/pinoq/encryption.rs:14-21 | for inputs without zero bytes, same IV iff same first 16 bytes |
| Encryption.PaddedLen | src/pinoq/encryption.rs:78-87 | ciphertext length is a multiple of 16, strictly above the plaintext length and at most 16 above it |
| Encryption.EncryptionLength | src/pinoq/encryption.rs:78-87 | under the assumed length law, 1020 plaintext bytes encrypt to 1024 |
| Encryption.Pad | src/pinoq/encryption.rs:45-56 | the witness cipher's padding has the length the length law demands |
| Encryption.UnpadPad | src/pinoq/encryption.rs:62-76 | the witness cipher's padding is removed exactly |
| Encryption.PaddingOnlySound | src/pinoq/encryption.rs:30-56 | the assumed cipher laws are satisfiable (round trip and length law hold for the witness) |
| FileFmt.NewAspect | src/pinoq/filefmt.rs:119-129 | a new aspect has no root block (`has_root_block` is false), the given key, and `blocks` clear bits |
| FileFmt.SerializeAspect | src/pinoq/filefmt.rs:131-139 | the plaintext is 36 + ceil(bits/8) bytes long |
| FileFmt.ParseAspect | src/pinoq/filefmt.rs:141-157 | the parse succeeds iff the plaintext has at least 36 bytes (otherwise the source's slice copy panics) |
| FileFmt.ParseSerialize | src/pinoq/filefmt.rs:131-157 | parse after serialize gives the aspect back, its bitmap padded with clear bits to whole bytes |
| FileFmt.ParseSerializeWhole | src/pinoq/filefmt.rs:131-157 | with a whole number of bitmap bytes, parse after serialize is the identity |
| FileFmt.SerializeParse | src/pinoq/filefmt.rs:131-157 | every plaintext of at least 36 bytes is the serialization of its parse |
| FileFmt.ToEncryptedAspect | src/pinoq/filefmt.rs:159-171 | the slot carries the fresh key, and under the cipher laws its ciphertext is PaddedLen(36 + ceil(bits/8)) bytes |
| FileFmt.FromEncryptedAspect | src/pinoq/filefmt.rs:141-157 | reading succeeds iff decryption succeeds with at least 36 plaintext bytes; the aspect read serializes back to exactly that plaintext |
| FileFmt.AspectRoundTrip | src/pinoq/filefmt.rs:141-171 | an aspect encrypted under one password decrypts under any password giving the same IV (bitmap padded to whole bytes) |
| FileFmt.BlockIv | src/pinoq/filefmt.rs:27 | a block's IV is its number big-endian followed by twelve zero bytes |
| FileFmt.BlockIvInjective | src/pinoq/filefmt.rs:20-41 | distinct block numbers give distinct IVs |
| FileFmt.ToEncryptedBlock | src/pinoq/filefmt.rs:20-31 | under the cipher laws the block ciphertext has the padded length of the encoded value |
| FileFmt.FromEncryptedBlock | src/pinoq/filefmt.rs:33-41 | under the cipher laws, a ciphertext made with the block's key and IV decrypts to its plaintext |
| FileFmt.BlockRoundTrip | src/pinoq/filefmt.rs:20-41 | a block decrypted under the number it was encrypted under gives the plaintext; the ciphertext has the padded length |
| FileFmt.SerializeEncryptedBlock | src/pinoq/filefmt.rs:180-190 | serialization succeeds iff the ciphertext is at most 1016 bytes; the record is then the prefix plus the ciphertext, at most 1024 bytes |
| FileFmt.DeserializeEncryptedBlock | src/pinoq/filefmt.rs:192-197 | reading fails with Serialization iff the 8-byte length prefix is missing or announces more bytes than follow; otherwise it gives exactly that many bytes after the prefix |
| FileFmt.EncryptedBlockRoundTrip | src/pinoq/filefmt.rs:179-198 | deserializing a serialized encrypted block gives the ciphertext back |
| FileFmt.StoredBlockFits | src/pinoq/filefmt.rs:174-190 | a value can be stored in a block iff its encoding is shorter than 1008 bytes |
| FileFmt.SizeOf | src/pinoq/filefmt.rs:88-91 | the reserved slot is 88 bytes plus one byte per whole eight blocks |
| FileFmt.SizeOfTooSmall | src/pinoq/filefmt.rs:88-91 | with 96 blocks the stored aspect takes 104 bytes, but `size_of` reserves 100; with 1024 blocks both are 216 |
| FileFmt.AspectSlotSizeExact | src/pinoq/filefmt.rs:80-91 | every stored aspect with an n-bit bitmap takes exactly 40 + PaddedLen(36 + ceil(n/8)) bytes |
| FileFmt.INode.AsAttr | src/pinoq/filefmt.rs:231-255 | kind is Directory iff `is_dir`; ino is n; size, uid, gid and blksize copied; perm 0o755, nlink 1, blocks 1 |
| FileFmt.IsDirMask | src/pinoq/filefmt.rs:227-229 | `is_dir` holds iff the S_IFDIR bit (0x4000) of the mode is set, as a bitwise mask |
| FileFmt.NewINode | src/pinoq/filefmt.rs:218-225 | mode, uid and gid set; size, block size and data block zero |
| FileFmt.CreatedModes | src/pinoq/filefmt.rs:227-229 | an S_IFDIR inode is a directory and an S_IFREG inode is not |
| FileFormat.ResizeIv | src/pinoq/file_format.rs:25-27 | the IV holds the password's first min(len, 16) bytes, then zeros |
| FileFormat.ResizeIvIsIvOf | src/pinoq/file_format.rs:25-27 | resizing the password to 16 bytes gives the same IV as the newer `IV::from_bytes` |
| FileFormat.NewAspect | src/pinoq/file_format.rs:129-135 | a new older-format aspect has the given key and `blocks` clear bits |
| FileFormat.SerializeAspect | src/pinoq/file_format.rs:137-144 | the plaintext is 32 + ceil(bits/8) bytes long |
| FileFormat.SerializeAspectInto | src/pinoq/file_format.rs:146-151 | `serialize_into` writes what `serialize` writes after the key |
| FileFormat.ToEncryptedAspect | src/pinoq/file_format.rs:165-181 | the slot carries the fresh key, and under the cipher laws its ciphertext is PaddedLen(32 + ceil(bits/8)) bytes |
| FileFormat.FromEncryptedAspect | src/pinoq/file_format.rs:153-163 | reading succeeds iff decryption succeeds with at least 32 plaintext bytes; the bitmap read is a whole number of bytes and the aspect serializes back to exactly that plaintext |
| FileFormat.AspectRoundTrip | src/pinoq/file_format.rs:153-181 | an aspect encrypted under a password decrypts under it, its bitmap padded with clear bits to whole bytes |
| FileFormat.SerializeBlock | src/pinoq/file_format.rs:194-200 | a block record is exactly 1028 bytes |
| FileFormat.DeserializeBlock | src/pinoq/file_format.rs:202-216 | reading succeeds iff at least 1028 bytes are available, and leaves the rest unread |
| FileFormat.BlockRoundTrip | src/pinoq/file_format.rs:194-216 | reading a written block gives the block back and leaves what followed it |
| FileFormat.SizeOf | src/pinoq/file_format.rs:116-119 | the reserved slot is 88 bytes plus one byte per whole eight blocks |
| FileFormat.SizeOfTooSmall | src/pinoq/file_format.rs:116-119 | with 121 blocks the stored aspect takes 104 bytes, but `size_of` reserves 103 |
| FileFormat.AspectSlotSizeExact | src/pinoq/file_format.rs:94-119 | every stored older aspect with an n-bit bitmap takes exactly 40 + PaddedLen(32 + ceil(n/8)) bytes |
| FileFormat.INode.AsAttr | src/pinoq/file_format.rs:248-273 | kind is Directory iff the S_IFDIR bit is set; ino, size, uid, gid and blksize copied; perm 0o755, nlink 1 |
| FileFormat.IsDirMask | src/pinoq/file_format.rs:230-232 | `is_dir` holds iff the S_IFDIR bit (0x4000) of the mode is set, as a bitwise mask |
| FileFormat.AsAttrAgrees | src/pinoq/file_format.rs:248-273 | both generations report identical attributes for identical inode fields |
| Names.LessIrreflexive | src/pinoq/fs.rs:165 | no name sorts before itself |
| Names.LessTransitive | src/pinoq/fs.rs:165 | name order is transitive |
| Names.LessTotal | src/pinoq/fs.rs:165 | of two distinct names, one sorts first |
| Names.LeastExists | src/pinoq/fs.rs:165 | every non-empty set of names has a least element |
| Names.LeastUnique | src/pinoq/fs.rs:165 | the least element is unique |
| Names.SortedNames | src/pinoq/fs.rs:165 | the iteration order has one position per key |
| Names.SortedNamesMembers | src/pinoq/fs.rs:165 | a map iterates exactly its keys |
| Names.SortedNamesAscending | src/pinoq/fs.rs:165 | a map iterates its keys in strictly ascending order |
| Names.SortedNamesStep | src/pinoq/fs.rs:165 | iteration starts with the least key, then goes on with the others in order |
| Fs.GetINode | src/pinoq/fs.rs:193-204 | reading an inode succeeds iff the block decodes to an inode; otherwise it is a Serialization error |
| Fs.GetDir | src/pinoq/fs.rs:114-116 | reading a directory succeeds iff the block decodes to a directory; otherwise it is a Serialization error |
| Fs.Kind | src/pinoq/fs.rs:167-170 | the listed kind is the kind `as_attr` reports |
| Fs.LookupName | src/pinoq/fs.rs:118-132 | NoDirectory iff the parent inode is not a directory; NoEntry iff the directory lacks the name; success whenever the parent is a decodable directory holding the name and the child's block decodes as an inode, and then the child's attributes, with ino the child's block |
| Fs.LookupErrorCodes | src/pinoq/fs.rs:118-132 | a failed lookup is answered with ENOTDIR, ENOENT or -1 |
| Fs.ChildrenMembers | src/pinoq/fs.rs:165-173 | a line is listed iff its name is listed, its ino is the name's block and that block holds an inode of its kind |
| Fs.ChildrenSorted | src/pinoq/fs.rs:165-173 | lines keep the order of the names they come from |
| Fs.ParentEntries | src/pinoq/fs.rs:156-158 | reading the parent's entries succeeds iff its inode and then its directory block decode, giving that directory's map; otherwise Serialization |
| Fs.ListSpec | src/pinoq/fs.rs:156-176 | a listing fails with Serialization iff the parent inode or its directory block does not decode; otherwise it starts with `.` (the given inode) and `..` (inode 1) |
| Fs.ListSorted | src/pinoq/fs.rs:165-173 | after the dot entries, names are strictly ascending |
| Fs.ListMembers | src/pinoq/fs.rs:165-173 | after the dot entries, exactly the directory entries whose blocks decode as inodes are listed, with their block and kind |
| Fs.EmptyDirectoryListing | src/pinoq/fs.rs:156-176 | an empty directory lists only `.` and `..` |
| Fs.ListStep | src/pinoq/fs.rs:165-173 | the lines still owed for a set of names are the least name's line followed by the lines of the rest, matching the map's ascending iteration |
| Fs.RootINode | src/pinoq/fs.rs:104-106 | the root inode is a directory with block size 1024 and the given data block |
| Fs.FileINode | src/pinoq/fs.rs:135-137 | a new file inode is not a directory, is empty, has block size 1024 and no data block (0xFFFFFFFF) |
| Fs.PlaceEntry | src/pinoq/fs.rs:141-152 | the stores of a create fail iff the parent inode or its directory does not decode, with a Serialization error |
| Fs.CreateThenLookup | src/pinoq/fs.rs:134-154 | when the parent is a directory and the new block differs from the parent's inode block and data block, looking the name up after a create gives the new inode's attributes, whether or not the name existed |
| Fs.CreateKeepsOtherNames | src/pinoq/fs.rs:134-154 | when the new block differs from the parent's inode and data blocks and no entry of the directory already names it, a create leaves the lookup of every other name unchanged |
| Fs.CreateChangesOneEntry | src/pinoq/fs.rs:141-147 | when the new block differs from the parent's inode and data blocks, a create maps the name to it and leaves every other entry as it was |
| Fs.PlaceKeepsClosed | src/pinoq/fs.rs:141-152 | on a disk whose directories name only blocks it holds, a create keeps that so |
| Fs.PlaceKeepsOtherNames | src/pinoq/fs.rs:134-154 | on a disk whose directories name only blocks it holds, a create into a block the disk does not hold leaves the lookup of every other name unchanged |
| Fs.PlaceFreshBlock | src/pinoq/fs.rs:134-154 | a create into a block the disk does not hold adds just that block and maps the name to it with every other entry unchanged; when the parent is a directory, the name then looks up to the new inode |
| Fs.CreateThenList | src/pinoq/fs.rs:134-176 | after a create, the directory listing shows the new name with the new block |
| Fs.AnyOwnsIff | src/pinoq/fs.rs:68-71 | the folded OR of the first k aspect bitmaps has bit i iff one of them has it |
| Fs.PinoqFs.constructor | src/pinoq/fs.rs:44-50 | the mount state holds the superblock, the slots, the mounted aspect and the disk it was given |
| Fs.PinoqFs.ConstructBlockMap | src/pinoq/fs.rs:65-73 | the map has exactly `blocks` bits, and bit i is set iff some aspect's bitmap has bit i; the invariant holds afterwards |
| Fs.PinoqFs.FindFreeBlock | src/pinoq/fs.rs:83-85 | returns the lowest clear index, or nothing when every bit is set |
| Fs.PinoqFs.AllocateBlock | src/pinoq/fs.rs:75-81 | sets exactly the lowest clear bit and returns it; that block was owned by no aspect; with no clear bit it fails with NoEnoughSpace and changes nothing |
| Fs.PinoqFs.InitRoot | src/pinoq/fs.rs:88-112 | no-op when a root exists; otherwise it allocates two distinct blocks owned by no aspect, makes the first the root, marks both, and stores a directory inode pointing at an empty directory in the second; the FUSE root then lists as `.` and `..` only |
| Fs.PinoqFs.CreateEntry | src/pinoq/fs.rs:134-154 | allocates the lowest free block (owned by no aspect), maps the name to it, marks it in the aspect, stores a regular-file inode in it and returns its attributes; the parent's directory is the old one with just that name remapped, every other name looks up as before, and in a directory parent the name then looks up to the new inode; NoEnoughSpace iff the map is full, and then nothing changes; a parent that does not decode leaks the lowest clear bit and changes nothing else |
| Fs.PinoqFs.StoreRoot | src/pinoq/fs.rs:99-111 | the aspect takes the root block and marks both blocks, the disk gets a directory inode at the root and an empty directory at its data block, the slot is written back, and the invariant is kept |
| Fs.PinoqFs.StoreEntry | src/pinoq/fs.rs:144-152 | the stores write the parent inode, the updated directory and the new inode exactly as `PlaceEntry` describes, mark the block in the mounted aspect and its slot, and keep the invariant |
| Fs.PinoqFs.ListEntries | src/pinoq/fs.rs:156-176 | the loop's result is the listing specification: dots first, then ascending names |
| Fs.PinoqFs.ConvertInodeIndex | src/pinoq/fs.rs:208-214 | inode 1 is the aspect's root block, any other n is block n-1 |

## Left out

- The FUSE handlers (`impl Filesystem for PinoqFs`) are left out: reply objects, the TTL and the reply-buffer-full break. Only the helpers they call are modelled.
- `PinoqFs::new`, `inspect`, mmap and file I/O are left out. The disk is an abstract map from block index to decoded value, so seek and read/write `IO` errors do not arise in the model.
- `store_to_block` always succeeds in the model. Its block-overflow assertion is modelled separately by `FileFmt.SerializeEncryptedBlock` and `FileFmt.StoredBlockFits`.
- `store_aspect` is modelled as updating the mounted slot in `slots`. Re-encryption of the slot is covered by `FileFmt.AspectRoundTrip`.
- `get_aspect_offset`, `get_block_offset`, `decrypt_aspect` and `encrypt_aspect` are not part of this model. The aspect slots enter `PinoqFs` already decrypted.
- Fs.GetINode, Fs.GetDir: a block that does not decode is always a `Serialization` error in the model, and a block of the other kind never decodes. The source differs in two cases. First, `decrypt` unwraps the cipher's padding check (src/pinoq/encryption.rs:39), so a block whose ciphertext fails it panics instead. Examples are a never-written all-zero block, whose length prefix announces an empty ciphertext, and a block of another aspect read under the wrong key. Second, bincode carries no type tag, so reading a `Dir` block as an `INode` can decode to arbitrary fields rather than fail. The model assumes every block that is read decodes as the kind that was stored there.
- Fs.PinoqFs.constructor: requires every block of the given disk to be marked in the mounted aspect's bitmap, and every directory entry on it to name a block of the disk. The disk stands for the blocks this aspect can decode, which are the blocks it wrote; it marked each of them, and its directories only ever receive blocks it has just written.
- Fs.PinoqFs.ConstructBlockMap: does not model the `get_aspect` failure that aborts the loop. Every slot is taken as decrypted under the mounted password, as the source does for every aspect, so isolation is stated under that uniform-password assumption.
- Fs.PinoqFs.ConvertInodeIndex: requires n ≥ 1. FUSE never passes inode 0, and for 0 the source's `n - 1` would overflow a `u64`.
- The inode numbers replied to FUSE and the ones `convert_inode_index` receives are not claimed to be inverses. Replies carry the raw block index, while conversion subtracts one, and the source does not make them match.
- Fs.LookupName, Fs.PinoqFs.CreateEntry: names are Dafny strings. The `to_str().unwrap()` panic on a name that is not UTF-8 is not modelled.
- AES-256-CBC (openssl), `random_key` (rand) and bincode are foreign. The cipher is an abstract `Cipher` with the assumed round-trip and PKCS#7 length laws only. Random keys are parameters. Values other than the length-prefixed encrypted block are handled as their encoded bytes.
- Decryption under a wrong block number is not claimed to fail. That depends on a probabilistic padding check.
- The superblock's bincode encoding and `SuperBlock::new` are not modelled beyond the record type.
- Timestamps in `FileAttr` (all the epoch) are dropped from the record.
- The wrappers file_system.rs, config.rs, main.rs and mod.rs, and all logging, are not part of this model.

## Findings

| source | as written | input that shows it | evidently intended | confidence | as-written member | corrected member |
|---|---|---|---|---|---|---|
| src/pinoq/filefmt.rs:88-91 | the slot reserved per aspect is n/8 + 88 bytes | an image of 96 blocks: key 32 + length prefix 8 + ciphertext 64 = 104 bytes written into a 100-byte slot, overlapping the next slot | the slot is as long as the encoded aspect, 40 + PaddedLen(36 + ceil(n/8)) | not executed; assumes bincode 1.x fixed-width defaults | FileFmt.SizeOfTooSmall | FileFmt.AspectSlotSizeExact |
| src/pinoq/file_format.rs:116-119 | the slot reserved per aspect is n/8 + 88 bytes | an image of 121 blocks: 32 + 8 + 64 = 104 bytes written into a 103-byte slot | the slot is as long as the encoded aspect, 40 + PaddedLen(32 + ceil(n/8)) | not executed; assumes bincode 1.x fixed-width defaults | FileFormat.SizeOfTooSmall | FileFormat.AspectSlotSizeExact |
