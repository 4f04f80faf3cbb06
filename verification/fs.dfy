/**
 * The mounted filesystem of one aspect (src/pinoq/fs.rs): the global block
 * map built from every aspect's bitmap, block allocation, the lazily created
 * root directory, and lookup, create and list over directory blocks.
 *
 * The image is seen through the mounted aspect's key: `Disk` holds the
 * blocks that decode to an inode or a directory. Reading any other block is
 * taken to be the `Serialization` error of `get_from_block`; the panics and
 * mis-decodings this hides are listed in the README.
 */
module Fs {
  import opened Bytes
  import opened Errors
  import opened FileFmt
  import opened Names

  /** A block's content once decrypted with the aspect key and decoded. */
  datatype Stored = INodeBlock(inode: INode) | DirBlock(dir: Dir)

  /** The image's blocks as the mounted aspect reads them. */
  type Disk = map<u32, Stored>

  /** `get_from_block::<INode>`. */
  function GetINode(disk: Disk, n: u32): (r: Result<INode>)
    ensures r.Ok? <==> n in disk && disk[n].INodeBlock?
    ensures r.Ok? ==> disk[n] == INodeBlock(r.value)
    ensures r.Err? ==> r.error == Serialization
  {
    if n in disk && disk[n].INodeBlock? then Ok(disk[n].inode) else Err(Serialization)
  }

  /** `get_from_block::<Dir>`. */
  function GetDir(disk: Disk, n: u32): (r: Result<Dir>)
    ensures r.Ok? <==> n in disk && disk[n].DirBlock?
    ensures r.Ok? ==> disk[n] == DirBlock(r.value)
    ensures r.Err? ==> r.error == Serialization
  {
    if n in disk && disk[n].DirBlock? then Ok(disk[n].dir) else Err(Serialization)
  }

  /** The file type `list_entries` reports for an inode. */
  function Kind(node: INode): (k: FileType)
    ensures k == node.AsAttr(0).kind
  {
    if node.IsDir() then Directory else RegularFile
  }

  /**
   * `lookup_name`: the attributes of `name` in the directory whose inode is in
   * block `ino` (narrowed to 32 bits, as the source's `as` does).
   */
  function LookupName(disk: Disk, ino: u64, name: string): (r: Result<FileAttr>)
    ensures r == Err(NoDirectory) <==> GetINode(disk, TruncU32(ino)).Ok? && !GetINode(disk, TruncU32(ino)).value.IsDir()
    ensures r == Err(NoEntry) <==>
      && GetINode(disk, TruncU32(ino)).Ok? && GetINode(disk, TruncU32(ino)).value.IsDir()
      && GetDir(disk, GetINode(disk, TruncU32(ino)).value.dataBlock).Ok?
      && name !in GetDir(disk, GetINode(disk, TruncU32(ino)).value.dataBlock).value.entries
    ensures r.Ok? ==>
      && GetINode(disk, TruncU32(ino)).Ok? && GetINode(disk, TruncU32(ino)).value.IsDir()
      && GetDir(disk, GetINode(disk, TruncU32(ino)).value.dataBlock).Ok?
      && var entries := GetDir(disk, GetINode(disk, TruncU32(ino)).value.dataBlock).value.entries;
      && name in entries && GetINode(disk, entries[name]).Ok?
      && r.value.ino == entries[name]
      && r.value == GetINode(disk, entries[name]).value.AsAttr(entries[name])
    ensures
      && GetINode(disk, TruncU32(ino)).Ok? && GetINode(disk, TruncU32(ino)).value.IsDir()
      && GetDir(disk, GetINode(disk, TruncU32(ino)).value.dataBlock).Ok?
      && name in GetDir(disk, GetINode(disk, TruncU32(ino)).value.dataBlock).value.entries
      && GetINode(disk, GetDir(disk, GetINode(disk, TruncU32(ino)).value.dataBlock).value.entries[name]).Ok?
      ==> r.Ok?
    ensures r.Err? ==> r.error in {NoDirectory, NoEntry, Serialization}
  {
    match GetINode(disk, TruncU32(ino))
    case Err(e) => Err(e)
    case Ok(parent) =>
      if !parent.IsDir() then Err(NoDirectory)
      else
        match GetDir(disk, parent.dataBlock)
        case Err(e) => Err(e)
        case Ok(dir) =>
          if name !in dir.entries then Err(NoEntry)
          else
            var n := dir.entries[name];
            match GetINode(disk, n)
            case Err(e) => Err(e)
            case Ok(child) => Ok(child.AsAttr(n))
  }

  /** The errno a failed lookup is answered with. */
  lemma LookupErrorCodes(disk: Disk, ino: u64, name: string)
    requires LookupName(disk, ino, name).Err?
    ensures ToCode(LookupName(disk, ino, name).error) in {ENOTDIR, ENOENT, -1}
  {
  }

  /** One line of a directory listing: inode number, kind, name. */
  datatype DirEntry = DirEntry(ino: u64, kind: FileType, name: string)

  /**
   * The listing line for `name`: present only when the directory maps it to
   * a block that decodes as an inode.
   */
  function Line(disk: Disk, entries: map<string, u32>, name: string): seq<DirEntry>
  {
    if name !in entries then []
    else
      var i := entries[name];
      match GetINode(disk, i)
      case Ok(node) => [DirEntry(i, Kind(node), name)]
      case Err(_) => []
  }

  /** The listing lines for `names`, in order. */
  function Children(disk: Disk, names: seq<string>, entries: map<string, u32>): seq<DirEntry>
  {
    if names == [] then [] else Line(disk, entries, names[0]) + Children(disk, names[1..], entries)
  }

  /**
   * A line is listed exactly when its name is one of `names`, its block is
   * the one the directory maps the name to, and that block holds an inode of
   * the line's kind.
   */
  lemma {:induction false} ChildrenMembers(disk: Disk, names: seq<string>, entries: map<string, u32>, e: DirEntry)
    requires forall n :: n in names ==> n in entries
    ensures e in Children(disk, names, entries) <==>
      && e.name in names && e.ino == entries[e.name]
      && GetINode(disk, entries[e.name]).Ok? && e.kind == Kind(GetINode(disk, entries[e.name]).value)
  {
    if names != [] {
      ChildrenMembers(disk, names[1..], entries, e);
      assert names == [names[0]] + names[1..];
    }
  }

  /** Listing lines keep the order of `names`. */
  lemma {:induction false} ChildrenSorted(disk: Disk, names: seq<string>, entries: map<string, u32>)
    requires forall n :: n in names ==> n in entries
    requires forall i, j :: 0 <= i < j < |names| ==> Less(names[i], names[j])
    ensures forall i, j :: 0 <= i < j < |Children(disk, names, entries)| ==>
      Less(Children(disk, names, entries)[i].name, Children(disk, names, entries)[j].name)
  {
    if names != [] {
      var rest := Children(disk, names[1..], entries);
      ChildrenSorted(disk, names[1..], entries);
      forall k | 0 <= k < |rest| ensures Less(names[0], rest[k].name) {
        ChildrenMembers(disk, names[1..], entries, rest[k]);
        var m :| 1 <= m < |names| && names[m] == rest[k].name;
      }
    }
  }

  /** `get_directory_content` of the directory whose inode is in block `ino`. */
  function ParentEntries(disk: Disk, ino: u64): (r: Result<map<string, u32>>)
    ensures r.Ok? <==>
      GetINode(disk, TruncU32(ino)).Ok? && GetDir(disk, GetINode(disk, TruncU32(ino)).value.dataBlock).Ok?
    ensures r.Ok? ==> disk[GetINode(disk, TruncU32(ino)).value.dataBlock] == DirBlock(Dir(r.value))
    ensures r.Err? ==> r.error == Serialization
  {
    match GetINode(disk, TruncU32(ino))
    case Err(e) => Err(e)
    case Ok(parent) =>
      match GetDir(disk, parent.dataBlock)
      case Err(e) => Err(e)
      case Ok(dir) => Ok(dir.entries)
  }

  /** The first two lines of every listing. */
  function Dots(ino: u64): seq<DirEntry>
  {
    [DirEntry(ino, Directory, "."), DirEntry(1, Directory, "..")]
  }

  /**
   * What `list_entries` returns: `.` and `..`, then the children by ascending
   * name. It fails only when the parent inode or its directory block does
   * not decode; otherwise it starts with `.` (the inode asked for) and `..`
   * (inode 1).
   */
  ghost function ListSpec(disk: Disk, ino: u64): (r: Result<seq<DirEntry>>)
    ensures r.Err? <==> ParentEntries(disk, ino).Err?
    ensures r.Err? ==> r.error == Serialization
    ensures r.Ok? ==> |r.value| >= 2 && r.value[..2] == Dots(ino)
  {
    match ParentEntries(disk, ino)
    case Err(e) => Err(e)
    case Ok(entries) => Ok(Dots(ino) + Children(disk, SortedNames(entries.Keys), entries))
  }

  /** After `.` and `..`, a listing's names are strictly ascending. */
  lemma ListSorted(disk: Disk, ino: u64)
    requires ListSpec(disk, ino).Ok?
    ensures var r := ListSpec(disk, ino).value;
      forall i, j :: 2 <= i < j < |r| ==> Less(r[i].name, r[j].name)
  {
    var entries := ParentEntries(disk, ino).value;
    var names := SortedNames(entries.Keys);
    SortedNamesMembers(entries.Keys);
    var c := Children(disk, names, entries);
    var r := ListSpec(disk, ino).value;
    assert r == Dots(ino) + c;
    SortedNamesAscending(entries.Keys);
    ChildrenSorted(disk, names, entries);
    forall i, j | 2 <= i < j < |r| ensures Less(r[i].name, r[j].name) {
      assert r[i] == c[i - 2] && r[j] == c[j - 2];
      assert Less(c[i - 2].name, c[j - 2].name);
    }
  }

  /**
   * After `.` and `..`, a line is listed exactly when the directory maps its
   * name to its inode number and that block holds an inode of its kind.
   */
  lemma ListMembers(disk: Disk, ino: u64, e: DirEntry)
    requires ListSpec(disk, ino).Ok?
    ensures var entries := ParentEntries(disk, ino).value;
      e in ListSpec(disk, ino).value[2..] <==>
        && e.name in entries && e.ino == entries[e.name]
        && GetINode(disk, entries[e.name]).Ok? && e.kind == Kind(GetINode(disk, entries[e.name]).value)
  {
    var entries := ParentEntries(disk, ino).value;
    var names := SortedNames(entries.Keys);
    SortedNamesMembers(entries.Keys);
    assert ListSpec(disk, ino).value[2..] == Children(disk, names, entries);
    ChildrenMembers(disk, names, entries, e);
  }

  /** A directory inode whose data block holds an empty directory lists only `.` and `..`. */
  lemma EmptyDirectoryListing(disk: Disk, ino: u64)
    requires GetINode(disk, TruncU32(ino)).Ok?
    requires GetDir(disk, GetINode(disk, TruncU32(ino)).value.dataBlock) == Ok(Dir(map[]))
    ensures ListSpec(disk, ino) == Ok(Dots(ino))
  {
    var e: map<string, u32> := map[];
    assert ParentEntries(disk, ino) == Ok(e);
    assert e.Keys == {};
    assert SortedNames(e.Keys) == [];
    assert Children(disk, [], e) == [];
    assert Dots(ino) + [] == Dots(ino);
  }

  /**
   * One turn of the listing loop: the lines still to come are the least
   * remaining name's line, then the lines of the other remaining names.
   */
  lemma ListStep(disk: Disk, entries: map<string, u32>, remaining: set<string>, name: string)
    requires IsLeast(name, remaining)
    ensures Children(disk, SortedNames(remaining), entries)
         == Line(disk, entries, name) + Children(disk, SortedNames(remaining - {name}), entries)
  {
    SortedNamesStep(name, remaining);
    var s := SortedNames(remaining);
    assert s[0] == name && s[1..] == SortedNames(remaining - {name});
  }

  /** Proof helper for the listing loop: concatenation is associative. */
  lemma AppendAssoc<T>(a: seq<T>, b: seq<T>, c: seq<T>)
    ensures (a + b) + c == a + (b + c)
  {
  }

  /** The inode `init_root` stores for the root directory. */
  function RootINode(uid: u32, gid: u32, dataBlock: u32): (node: INode)
    ensures node.IsDir() && node.dataBlock == dataBlock && node.blockSize == BLOCK_SIZE
  {
    NewINode(S_IFDIR, uid, gid).(blockSize := BLOCK_SIZE, dataBlock := dataBlock)
  }

  /** The inode `create_entry` stores for a new file: no data block yet. */
  function FileINode(uid: u32, gid: u32): (node: INode)
    ensures !node.IsDir() && node.dataBlock == NO_ROOT && node.size == 0 && node.blockSize == BLOCK_SIZE
  {
    NewINode(S_IFREG, uid, gid).(blockSize := BLOCK_SIZE, dataBlock := NO_ROOT)
  }

  /** Every entry of every directory on the disk names a block the disk holds. */
  ghost predicate EntriesClosed(disk: Disk)
  {
    forall n, name :: n in disk && disk[n].DirBlock? && name in disk[n].dir.entries ==> disk[n].dir.entries[name] in disk
  }

  /**
   * The stores `create_entry` makes once block `idx` is taken: the parent
   * inode back to its block, the directory with `name` mapped to `idx`, and
   * the new inode into `idx`.
   */
  function PlaceEntry(disk: Disk, p: u32, name: string, idx: u32, node: INode): (r: Result<Disk>)
    ensures r.Err? <==> ParentEntries(disk, p).Err?
    ensures r.Err? ==> r.error == Serialization
  {
    match GetINode(disk, p)
    case Err(e) => Err(e)
    case Ok(parent) =>
      match GetDir(disk, parent.dataBlock)
      case Err(e) => Err(e)
      case Ok(dir) =>
        Ok(disk[p := INodeBlock(parent)]
               [parent.dataBlock := DirBlock(Dir(dir.entries[name := idx]))]
               [idx := INodeBlock(node)])
  }

  /**
   * After a create in a directory, looking the name up finds the new inode
   * in its fresh block, whether or not the name was there before.
   */
  lemma CreateThenLookup(disk: Disk, ino: u64, name: string, idx: u32, node: INode)
    requires PlaceEntry(disk, TruncU32(ino), name, idx, node).Ok?
    requires GetINode(disk, TruncU32(ino)).value.IsDir()
    requires idx != TruncU32(ino) && idx != GetINode(disk, TruncU32(ino)).value.dataBlock
    ensures LookupName(PlaceEntry(disk, TruncU32(ino), name, idx, node).value, ino, name) == Ok(node.AsAttr(idx))
  {
  }

  /**
   * A create leaves every other name's lookup as it was, provided the fresh
   * block was not already named in the directory.
   */
  lemma CreateKeepsOtherNames(disk: Disk, ino: u64, name: string, idx: u32, node: INode, other: string)
    requires PlaceEntry(disk, TruncU32(ino), name, idx, node).Ok?
    requires idx != TruncU32(ino) && idx != GetINode(disk, TruncU32(ino)).value.dataBlock
    requires other != name
    requires idx !in ParentEntries(disk, TruncU32(ino)).value.Values
    ensures LookupName(PlaceEntry(disk, TruncU32(ino), name, idx, node).value, ino, other) == LookupName(disk, ino, other)
  {
    var p := TruncU32(ino);
    var parent := GetINode(disk, p).value;
    var entries := GetDir(disk, parent.dataBlock).value.entries;
    if other in entries {
      assert entries[other] in entries.Values;
    }
  }

  /**
   * A create changes exactly one directory entry: `name` now maps to the
   * fresh block, every other entry is as it was.
   */
  lemma CreateChangesOneEntry(disk: Disk, ino: u64, name: string, idx: u32, node: INode)
    requires PlaceEntry(disk, TruncU32(ino), name, idx, node).Ok?
    requires idx != TruncU32(ino) && idx != GetINode(disk, TruncU32(ino)).value.dataBlock
    ensures ParentEntries(PlaceEntry(disk, TruncU32(ino), name, idx, node).value, ino)
         == Ok(ParentEntries(disk, ino).value[name := idx])
  {
  }

  /**
   * A create into a block the image does not hold yet adds just that block,
   * changes just the one entry, and makes the name find the new inode.
   */
  lemma PlaceFreshBlock(disk: Disk, ino: u64, name: string, idx: u32, node: INode)
    requires PlaceEntry(disk, TruncU32(ino), name, idx, node).Ok?
    requires idx !in disk
    ensures PlaceEntry(disk, TruncU32(ino), name, idx, node).value.Keys == disk.Keys + {idx}
    ensures ParentEntries(PlaceEntry(disk, TruncU32(ino), name, idx, node).value, ino)
         == Ok(ParentEntries(disk, ino).value[name := idx])
    ensures GetINode(disk, TruncU32(ino)).value.IsDir() ==>
      LookupName(PlaceEntry(disk, TruncU32(ino), name, idx, node).value, ino, name) == Ok(node.AsAttr(idx))
  {
    CreateChangesOneEntry(disk, ino, name, idx, node);
    if GetINode(disk, TruncU32(ino)).value.IsDir() {
      CreateThenLookup(disk, ino, name, idx, node);
    }
  }

  /** A create keeps every directory naming only blocks the disk holds. */
  lemma PlaceKeepsClosed(disk: Disk, p: u32, name: string, idx: u32, node: INode)
    requires PlaceEntry(disk, p, name, idx, node).Ok? && EntriesClosed(disk)
    ensures EntriesClosed(PlaceEntry(disk, p, name, idx, node).value)
  {
    var d := PlaceEntry(disk, p, name, idx, node).value;
    var dataBlock := GetINode(disk, p).value.dataBlock;
    forall n, x | n in d && d[n].DirBlock? && x in d[n].dir.entries
      ensures d[n].dir.entries[x] in d
    {
      if n != dataBlock {
        assert n in disk && d[n] == disk[n];
      } else if x != name {
        assert disk[dataBlock].dir.entries[x] in disk;
      }
    }
  }

  /**
   * On a disk whose directories only name blocks it holds, a create into a
   * fresh block leaves every other name's lookup as it was.
   */
  lemma PlaceKeepsOtherNames(disk: Disk, ino: u64, name: string, idx: u32, node: INode)
    requires PlaceEntry(disk, TruncU32(ino), name, idx, node).Ok?
    requires idx !in disk && EntriesClosed(disk)
    ensures forall other :: other != name ==>
      LookupName(PlaceEntry(disk, TruncU32(ino), name, idx, node).value, ino, other) == LookupName(disk, ino, other)
  {
    var p := TruncU32(ino);
    var dataBlock := GetINode(disk, p).value.dataBlock;
    var entries := GetDir(disk, dataBlock).value.entries;
    assert idx !in entries.Values;
    forall other | other != name
      ensures LookupName(PlaceEntry(disk, p, name, idx, node).value, ino, other) == LookupName(disk, ino, other)
    {
      CreateKeepsOtherNames(disk, ino, name, idx, node, other);
    }
  }

  /** After a create, the directory's listing shows the new name with the new block. */
  lemma CreateThenList(disk: Disk, ino: u64, name: string, idx: u32, node: INode)
    requires PlaceEntry(disk, TruncU32(ino), name, idx, node).Ok?
    requires idx != TruncU32(ino) && idx != GetINode(disk, TruncU32(ino)).value.dataBlock
    ensures var d := PlaceEntry(disk, TruncU32(ino), name, idx, node).value;
      ListSpec(d, ino).Ok? && DirEntry(idx, Kind(node), name) in ListSpec(d, ino).value
  {
    var d := PlaceEntry(disk, TruncU32(ino), name, idx, node).value;
    var parent := GetINode(disk, TruncU32(ino)).value;
    assert GetINode(d, TruncU32(ino)) == Ok(parent);
    assert ParentEntries(d, ino).Ok?;
    ListMembers(d, ino, DirEntry(idx, Kind(node), name));
  }

  /** Aspect `a` marks block `i` as its own. */
  predicate Owns(a: Aspect, i: nat)
  {
    i < |a.blockMap| && a.blockMap[i]
  }

  /** Some aspect among the first `k` marks block `i`. */
  predicate AnyOwns(aspects: seq<Aspect>, k: nat, i: nat)
    requires k <= |aspects|
  {
    k > 0 && (AnyOwns(aspects, k - 1, i) || Owns(aspects[k - 1], i))
  }

  lemma {:induction false} AnyOwnsIff(aspects: seq<Aspect>, k: nat, i: nat)
    requires k <= |aspects|
    ensures AnyOwns(aspects, k, i) <==> exists j :: 0 <= j < k && Owns(aspects[j], i)
  {
    if k > 0 {
      AnyOwnsIff(aspects, k - 1, i);
      if exists j :: 0 <= j < k && Owns(aspects[j], i) {
        var j :| 0 <= j < k && Owns(aspects[j], i);
        if j < k - 1 {
          assert exists j' :: 0 <= j' < k - 1 && Owns(aspects[j'], i);
        }
      }
    }
  }

  /** `PinoqFs`: the state of one mount. */
  class PinoqFs {
    const sblock: SuperBlock
    /** `config.current.aspect`: the index of the mounted aspect's slot. */
    const current: nat
    /** The mounted aspect: its key, root block and own bitmap. */
    var aspect: Aspect
    /** Every aspect slot, as decrypted with the mounted password. */
    var slots: seq<Aspect>
    /** The global used-block bitmap. */
    var blockMap: array<bool>
    var disk: Disk
    /** The aspect slots as they were when the block map was built. */
    ghost var Mounted: seq<Aspect>

    /** The shape every state has, before and after the block map exists. */
    ghost predicate Wf()
      reads this
    {
      && |slots| == sblock.aspects
      && current < |slots|
      && slots[current] == aspect
      && |aspect.blockMap| >= sblock.blocks
      && (forall n :: n in disk ==> Owns(aspect, n))
      && EntriesClosed(disk)
    }

    /**
     * The block map has one bit per block and covers every block that any
     * aspect marked when it was built, and every block the mounted aspect
     * marks now; the other slots are as they were then.
     */
    ghost predicate Valid()
      reads this, blockMap
    {
      && Wf()
      && blockMap.Length == sblock.blocks
      && |Mounted| == |slots|
      && (forall j :: 0 <= j < |slots| && j != current ==> slots[j] == Mounted[j])
      && (forall j, i :: 0 <= j < |Mounted| && 0 <= i < blockMap.Length && Owns(Mounted[j], i) ==> blockMap[i])
      && (forall i :: 0 <= i < blockMap.Length && Owns(aspect, i) ==> blockMap[i])
    }

    /**
     * The fields as `PinoqFs::new` fills them from the decrypted superblock
     * and aspect, before the block map is built.
     */
    constructor (sblock: SuperBlock, slots: seq<Aspect>, current: nat, disk: Disk)
      requires |slots| == sblock.aspects && current < |slots|
      requires |slots[current].blockMap| >= sblock.blocks
      requires forall n :: n in disk ==> Owns(slots[current], n)
      requires EntriesClosed(disk)
      ensures Wf()
      ensures this.sblock == sblock && this.slots == slots && this.current == current
      ensures this.disk == disk && aspect == slots[current]
    {
      this.sblock := sblock;
      this.slots := slots;
      this.current := current;
      this.disk := disk;
      aspect := slots[current];
      blockMap := new bool[0];
      Mounted := [];
    }

    /** `construct_block_map`: OR every aspect's bitmap into `blocks` clear bits. */
    method ConstructBlockMap()
      requires Wf()
      modifies this
      ensures Valid() && fresh(blockMap) && Mounted == slots
      ensures aspect == old(aspect) && slots == old(slots) && disk == old(disk)
      ensures blockMap.Length == sblock.blocks
      ensures forall i :: 0 <= i < blockMap.Length ==>
        (blockMap[i] <==> exists j :: 0 <= j < |slots| && Owns(slots[j], i))
    {
      var aspects := slots;
      var used := new bool[sblock.blocks](_ => false);
      var j := 0;
      while j < |aspects|
        invariant 0 <= j <= |aspects|
        invariant unchanged(this)
        invariant forall i :: 0 <= i < used.Length ==> (used[i] <==> AnyOwns(aspects, j, i))
      {
        var bits := aspects[j].blockMap;
        var n := Min(used.Length, |bits|);
        var k := 0;
        while k < n
          invariant 0 <= k <= n
          invariant unchanged(this)
          invariant forall i :: 0 <= i < k ==> (used[i] <==> AnyOwns(aspects, j + 1, i))
          invariant forall i :: k <= i < used.Length ==> (used[i] <==> AnyOwns(aspects, j, i))
        {
          used[k] := used[k] || bits[k];
          k := k + 1;
        }
        j := j + 1;
      }
      blockMap := used;
      Mounted := slots;
      forall i | 0 <= i < blockMap.Length
        ensures blockMap[i] <==> exists j :: 0 <= j < |slots| && Owns(slots[j], i)
      {
        AnyOwnsIff(slots, |slots|, i);
      }
    }

    /** `find_free_block`: the lowest clear bit, if any. */
    method FindFreeBlock() returns (r: Option<nat>)
      ensures r.Some? ==> r.value < blockMap.Length && !blockMap[r.value]
      ensures r.Some? ==> forall k :: 0 <= k < r.value ==> blockMap[k]
      ensures r.None? ==> forall k :: 0 <= k < blockMap.Length ==> blockMap[k]
    {
      var i := 0;
      while i < blockMap.Length
        invariant 0 <= i <= blockMap.Length
        invariant forall k :: 0 <= k < i ==> blockMap[k]
      {
        if !blockMap[i] {
          return Some(i);
        }
        i := i + 1;
      }
      return None;
    }

    /**
     * `allocate_block`: take the lowest clear bit and set it. The block was
     * clear in every aspect's bitmap when the map was built.
     */
    method AllocateBlock() returns (r: Result<nat>)
      requires Valid()
      modifies blockMap
      ensures Valid()
      ensures r.Err? ==> r.error == NoEnoughSpace && blockMap[..] == old(blockMap[..])
      ensures r.Err? <==> forall k :: 0 <= k < blockMap.Length ==> old(blockMap[k])
      ensures r.Ok? ==>
        && r.value < blockMap.Length && !old(blockMap[r.value])
        && (forall k :: 0 <= k < r.value ==> old(blockMap[k]))
        && blockMap[..] == old(blockMap[..])[r.value := true]
        && (forall j :: 0 <= j < |Mounted| ==> !Owns(Mounted[j], r.value))
        && !Owns(aspect, r.value)
    {
      var free := FindFreeBlock();
      if free.None? {
        return Err(NoEnoughSpace);
      }
      var index := free.value;
      blockMap[index] := true;
      return Ok(index);
    }

    /**
     * `init_root`: when the aspect has no root yet, allocate the root inode's
     * block and its directory block, mark both as the aspect's own, and store
     * a directory inode and an empty directory in them.
     */
    method InitRoot() returns (r: Result<()>)
      requires Valid()
      modifies this, blockMap
      ensures Valid() && blockMap == old(blockMap) && Mounted == old(Mounted)
      ensures old(aspect).HasRootBlock() ==>
        r == Ok(()) && aspect == old(aspect) && slots == old(slots) && disk == old(disk)
        && blockMap[..] == old(blockMap[..])
      ensures r.Ok? ==> aspect.HasRootBlock()
      ensures r.Err? ==>
        r.error == NoEnoughSpace && aspect == old(aspect) && slots == old(slots) && disk == old(disk)
        && forall k :: 0 <= k < blockMap.Length ==> blockMap[k]
      ensures !old(aspect).HasRootBlock() && r.Ok? ==>
        && ListSpec(disk, ConvertInodeIndex(1)) == Ok(Dots(ConvertInodeIndex(1)))
        && forall name :: LookupName(disk, ConvertInodeIndex(1), name) == Err(NoEntry)
      ensures !old(aspect).HasRootBlock() && r.Ok? ==>
        && aspect.rootBlock < blockMap.Length
        && aspect.rootBlock in disk && disk[aspect.rootBlock].INodeBlock?
        && var root := aspect.rootBlock;
           var data := disk[root].inode.dataBlock;
           && data < blockMap.Length && root != data
           && !old(blockMap[root]) && !old(blockMap[data])
           && blockMap[..] == old(blockMap[..])[root := true][data := true]
           && aspect == old(aspect).(rootBlock := root, blockMap := old(aspect).blockMap[root := true][data := true])
           && slots == old(slots)[current := aspect]
           && disk == old(disk)[root := INodeBlock(RootINode(sblock.uid, sblock.gid, data))][data := DirBlock(Dir(map[]))]
           && (forall j :: 0 <= j < |Mounted| ==> !Owns(Mounted[j], root) && !Owns(Mounted[j], data))
    {
      if aspect.HasRootBlock() {
        return Ok(());
      }
      var first := AllocateBlock();
      if first.Err? {
        return Err(first.error);
      }
      var second := AllocateBlock();
      if second.Err? {
        return Err(second.error);
      }
      var root: u32 := first.value;
      var data: u32 := second.value;
      StoreRoot(root, data);
      EmptyDirectoryListing(disk, root as u64);
      return Ok(());
    }

    /**
     * The stores that end `init_root`: the aspect gets `root` as its root
     * block and marks both blocks, a directory inode goes into `root` and an
     * empty directory into `data`, and the slot is written back.
     */
    method StoreRoot(root: u32, data: u32)
      requires Valid()
      requires root < blockMap.Length && data < blockMap.Length && blockMap[root] && blockMap[data]
      modifies this
      ensures Valid() && blockMap == old(blockMap) && Mounted == old(Mounted)
      ensures aspect == old(aspect).(rootBlock := root, blockMap := old(aspect).blockMap[root := true][data := true])
      ensures slots == old(slots)[current := aspect]
      ensures disk == old(disk)[root := INodeBlock(RootINode(sblock.uid, sblock.gid, data))][data := DirBlock(Dir(map[]))]
    {
      aspect := aspect.(rootBlock := root, blockMap := aspect.blockMap[root := true][data := true]);
      disk := disk[root := INodeBlock(RootINode(sblock.uid, sblock.gid, data))];
      disk := disk[data := DirBlock(Dir(map[]))];
      slots := slots[current := aspect];
    }

    /**
     * `create_entry`: allocate a block, map `name` to it in the directory of
     * inode `ino` (replacing any entry of that name), mark the block as the
     * aspect's own and store a new regular-file inode in it.
     */
    method CreateEntry(ino: u64, name: string) returns (r: Result<FileAttr>)
      requires Valid()
      modifies this, blockMap
      ensures Valid() && blockMap == old(blockMap) && Mounted == old(Mounted)
      ensures aspect.rootBlock == old(aspect.rootBlock)
      ensures r == Err(NoEnoughSpace) <==> forall k :: 0 <= k < blockMap.Length ==> old(blockMap[k])
      ensures r == Err(NoEnoughSpace) ==> blockMap[..] == old(blockMap[..])
      ensures r.Err? ==> aspect == old(aspect) && slots == old(slots) && disk == old(disk)
      ensures r.Err? && r.error != NoEnoughSpace ==>
        && r.error == Serialization && ParentEntries(old(disk), ino).Err?
        && exists k :: 0 <= k < blockMap.Length && !old(blockMap[k])
             && (forall i :: 0 <= i < k ==> old(blockMap[i])) && blockMap[..] == old(blockMap[..])[k := true]
      ensures r.Ok? ==>
        var idx := TruncU32(r.value.ino);
        && r.value.ino == idx && idx < blockMap.Length
        && r.value == FileINode(sblock.uid, sblock.gid).AsAttr(idx)
        && !old(blockMap[idx]) && (forall k :: 0 <= k < idx ==> old(blockMap[k]))
        && blockMap[..] == old(blockMap[..])[idx := true]
        && (forall j :: 0 <= j < |Mounted| ==> !Owns(Mounted[j], idx))
        && aspect == old(aspect).(blockMap := old(aspect).blockMap[idx := true])
        && slots == old(slots)[current := aspect]
        && PlaceEntry(old(disk), TruncU32(ino), name, idx, FileINode(sblock.uid, sblock.gid)) == Ok(disk)
        && ParentEntries(disk, ino) == Ok(ParentEntries(old(disk), ino).value[name := idx])
        && (GetINode(old(disk), TruncU32(ino)).value.IsDir() ==> LookupName(disk, ino, name) == Ok(r.value))
        && (forall other :: other != name ==> LookupName(disk, ino, other) == LookupName(old(disk), ino, other))
    {
      ghost var before := disk;
      var node := FileINode(sblock.uid, sblock.gid);
      var taken := AllocateBlock();
      if taken.Err? {
        return Err(taken.error);
      }
      var idx: u32 := taken.value;
      var p := TruncU32(ino);
      var parent := GetINode(disk, p);
      if parent.Err? {
        return Err(parent.error);
      }
      var dir := GetDir(disk, parent.value.dataBlock);
      if dir.Err? {
        return Err(dir.error);
      }
      StoreEntry(p, parent.value, dir.value, name, idx, node);
      PlaceFreshBlock(before, ino, name, idx, node);
      PlaceKeepsOtherNames(before, ino, name, idx, node);
      return Ok(node.AsAttr(idx));
    }

    /**
     * The stores that end `create_entry`: the parent inode back to its block,
     * the directory with `name` mapped to `idx`, the aspect with `idx` marked,
     * and the new inode into `idx`.
     */
    method StoreEntry(p: u32, parent: INode, dir: Dir, name: string, idx: u32, node: INode)
      requires Valid()
      requires GetINode(disk, p) == Ok(parent) && GetDir(disk, parent.dataBlock) == Ok(dir)
      requires idx < blockMap.Length && blockMap[idx]
      modifies this
      ensures Valid() && blockMap == old(blockMap) && Mounted == old(Mounted)
      ensures aspect == old(aspect).(blockMap := old(aspect).blockMap[idx := true])
      ensures slots == old(slots)[current := aspect]
      ensures PlaceEntry(old(disk), p, name, idx, node) == Ok(disk)
    {
      PlaceKeepsClosed(disk, p, name, idx, node);
      disk := disk[p := INodeBlock(parent)];
      disk := disk[parent.dataBlock := DirBlock(Dir(dir.entries[name := idx]))];
      aspect := aspect.(blockMap := aspect.blockMap[idx := true]);
      slots := slots[current := aspect];
      disk := disk[idx := INodeBlock(node)];
    }

    /** `list_entries`, collecting the lines in a loop over the names in ascending order. */
    method ListEntries(ino: u64) returns (r: Result<seq<DirEntry>>)
      ensures r == ListSpec(disk, ino)
    {
      var content := ParentEntries(disk, ino);
      if content.Err? {
        return Err(content.error);
      }
      var entries := content.value;
      var lines := Dots(ino);
      var remaining := entries.Keys;
      while remaining != {}
        invariant remaining <= entries.Keys
        invariant lines + Children(disk, SortedNames(remaining), entries)
               == Dots(ino) + Children(disk, SortedNames(entries.Keys), entries)
        decreases |remaining|
      {
        LeastExists(remaining);
        var name :| IsLeast(name, remaining);
        ListStep(disk, entries, remaining, name);
        ghost var before := lines;
        ghost var later := Children(disk, SortedNames(remaining - {name}), entries);
        var i := entries[name];
        match GetINode(disk, i) {
          case Ok(node) => lines := lines + [DirEntry(i, Kind(node), name)];
          case Err(_) =>
        }
        assert lines == before + Line(disk, entries, name);
        AppendAssoc(before, Line(disk, entries, name), later);
        remaining := remaining - {name};
      }
      assert SortedNames(remaining) == [] && lines + [] == lines;
      return Ok(lines);
    }

    /** `convert_inode_index`: FUSE's root inode 1 is the aspect's root block; others are shifted down by one. */
    function ConvertInodeIndex(n: u64): (r: u64)
      reads this
      requires n >= 1
      ensures n == 1 ==> r == aspect.rootBlock
      ensures n != 1 ==> r + 1 == n
    {
      if n == 1 then aspect.rootBlock else n - 1
    }
  }
}
