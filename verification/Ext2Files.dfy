/** File contents on a well-formed image, and what appending to a file changes. */
module Ext2Files {
  import opened Bytes
  import opened Ext2Layout
  import opened Ext2Path
  import opened Ext2Walk

  /** Regular files and directories own the blocks their direct pointers name. */
  predicate InUse(d: seq<byte>, g: Geo, i: nat)
    requires MetaOk(d, g) && ValidInode(g, i)
  {
    Kind(GetInode(d, g, i)) == DIRECTORY || Kind(GetInode(d, g, i)) == FILE
  }

  function Ptr(d: seq<byte>, g: Geo, i: nat, k: nat): u32
    requires MetaOk(d, g) && ValidInode(g, i) && k < DIRECT
  {
    Pointer(GetInode(d, g, i), k)
  }

  /** A block that can hold data: on the disk and none of the metadata. */
  ghost predicate DataBlock(d: seq<byte>, g: Geo, b: nat)
    requires MetaOk(d, g)
  {
    && 0 < b && InDisk(d, b) && b != g.firstBgd && b != g.sbBlock
    && forall x :: 0 <= x < g.groups ==> !Within(b, Table(d, g, x), TableBlocks(g))
  }

  ghost predicate Owns(d: seq<byte>, g: Geo, i: nat, k: nat)
    requires MetaOk(d, g)
  {
    ValidInode(g, i) && k < DIRECT && InUse(d, g, i) && Ptr(d, g, i, k) != 0
  }

  /** The blocks of directory `i` hold record chains of existing inodes. */
  ghost predicate DirOk(d: seq<byte>, g: Geo, i: nat)
    requires MetaOk(d, g) && ValidInode(g, i)
  {
    && BlocksChained(d, GetInode(d, g, i), 0)
    && forall e :: e in RecordsFrom(d, GetInode(d, g, i), 0) ==> ValidInode(g, e.inode)
  }

  lemma DirOkFirst(d: seq<byte>, g: Geo, i: nat)
    requires MetaOk(d, g) && ValidInode(g, i) && DirOk(d, g, i)
    ensures Chained(d, g, i) && forall e :: e in DirEntries(d, g, i) ==> ValidInode(g, e.inode)
  {
    var r := GetInode(d, g, i);
    assert FirstBlock(d, g, i) == Pointer(r, 0);
    if Pointer(r, 0) != 0 {
      assert RecordsFrom(d, r, 0) == Entries(Blk(d, Pointer(r, 0)), 0) + RecordsFrom(d, r, 1);
    }
  }

  /** The well-formed image: metadata in order, owned blocks are data blocks, no block is owned twice,
      and every directory is in order. */
  ghost predicate Wf(d: seq<byte>, g: Geo) {
    && MetaOk(d, g)
    && (forall i, k :: Owns(d, g, i, k) ==> DataBlock(d, g, Ptr(d, g, i, k)))
    && (forall i, k, j, l :: Owns(d, g, i, k) && Owns(d, g, j, l) && Ptr(d, g, i, k) == Ptr(d, g, j, l) ==>
          i == j && k == l)
    && (forall i :: ValidInode(g, i) && Kind(GetInode(d, g, i)) == DIRECTORY ==> DirOk(d, g, i))
  }

  // ----- contents -----

  /** The size is covered by direct blocks on the disk. */
  ghost predicate Readable(d: seq<byte>, r: seq<byte>)
    requires |r| == RECORD
  {
    Size(r) <= BLOCK * DIRECT && forall k :: 0 <= k < DIRECT && BLOCK * k < Size(r) ==> InDisk(d, Pointer(r, k))
  }

  /** The bytes of a file: byte n is byte n % 1024 of direct block n / 1024. */
  function Content(d: seq<byte>, r: seq<byte>): (c: seq<byte>)
    requires |r| == RECORD && Readable(d, r)
    ensures |c| == Size(r)
  {
    seq(Size(r), n requires 0 <= n < Size(r) =>
      assert InDisk(d, Pointer(r, n / BLOCK));
      d[BLOCK * Pointer(r, n / BLOCK) + n % BLOCK])
  }

  function FileContent(d: seq<byte>, g: Geo, i: nat): seq<byte>
    requires MetaOk(d, g) && ValidInode(g, i) && Readable(d, GetInode(d, g, i))
  {
    Content(d, GetInode(d, g, i))
  }

  // ----- writing inside a data block -----

  /** Nothing but block `b` differs. */
  ghost predicate OnlyBlock(d: seq<byte>, d': seq<byte>, b: nat) {
    |d'| == |d| && forall n :: 0 <= n < |d| && !(BLOCK * b <= n < BLOCK * b + BLOCK) ==> d'[n] == d[n]
  }

  lemma BlkSame(d: seq<byte>, d': seq<byte>, b: nat, c: nat)
    requires OnlyBlock(d, d', b) && b != c && InDisk(d, c)
    ensures Blk(d', c) == Blk(d, c)
  {
  }

  /** Writing a data block moves no record and changes none. */
  lemma DataWriteMeta(d: seq<byte>, d': seq<byte>, g: Geo, b: nat)
    requires MetaOk(d, g) && DataBlock(d, g, b) && OnlyBlock(d, d', b)
    ensures MetaOk(d', g) && Blk(d', g.firstBgd) == Blk(d, g.firstBgd) && Blk(d', g.sbBlock) == Blk(d, g.sbBlock)
    ensures forall j :: ValidInode(g, j) ==> GetInode(d', g, j) == GetInode(d, g, j)
  {
    BlkSame(d, d', b, g.firstBgd);
    BlkSame(d, d', b, g.sbBlock);
    MetaKept(d, d', g);
    forall j | ValidInode(g, j) ensures GetInode(d', g, j) == GetInode(d, g, j) {
      InodeAtFlat(d, g, j);
      assert !Within(b, Table(d, g, GroupOf(g, j)), TableBlocks(g));
      RecordOutside(d, g, j, b);
    }
  }

  /** A data block and a record do not meet. */
  lemma RecordOutside(d: seq<byte>, g: Geo, j: nat, b: nat)
    requires MetaOk(d, g) && DataBlock(d, g, b) && ValidInode(g, j)
    ensures InodeAt(d, g, j) + RECORD <= BLOCK * b || BLOCK * b + BLOCK <= InodeAt(d, g, j)
  {
    InodeAtFlat(d, g, j);
    assert !Within(b, Table(d, g, GroupOf(g, j)), TableBlocks(g));
  }

  /** Writing a record changes no data block, no descriptor and not the superblock. */
  lemma RecordWriteData(d: seq<byte>, g: Geo, i: nat, r: seq<byte>)
    requires MetaOk(d, g) && ValidInode(g, i) && |r| == RECORD
    ensures MetaOk(PutInode(d, g, i, r), g)
    ensures Blk(PutInode(d, g, i, r), g.firstBgd) == Blk(d, g.firstBgd)
    ensures Blk(PutInode(d, g, i, r), g.sbBlock) == Blk(d, g.sbBlock)
    ensures forall b :: DataBlock(d, g, b) ==> Blk(PutInode(d, g, i, r), b) == Blk(d, b)
    ensures forall b :: DataBlock(d, g, b) ==> DataBlock(PutInode(d, g, i, r), g, b)
  {
    PutInodeMeta(d, g, i, r);
    RecordsOutsideMeta(d, g, i);
    InodeAtFlat(d, g, i);
    var at, d' := InodeAt(d, g, i), PutInode(d, g, i, r);
    SpliceSlice(d, at, r, BLOCK * g.sbBlock, BLOCK * g.sbBlock + BLOCK);
    TablesKept(d, d', g);
    forall b | DataBlock(d, g, b) ensures Blk(d', b) == Blk(d, b) {
      RecordOutside(d, g, i, b);
      SpliceSlice(d, at, r, BLOCK * b, BLOCK * b + BLOCK);
    }
  }

  lemma TablesKept(d: seq<byte>, d': seq<byte>, g: Geo)
    requires MetaOk(d, g) && MetaOk(d', g) && |d| == |d'| && Blk(d', g.firstBgd) == Blk(d, g.firstBgd)
    ensures forall b :: DataBlock(d, g, b) <==> DataBlock(d', g, b)
  {
    forall x | 0 <= x < g.groups ensures Table(d', g, x) == Table(d, g, x) {
      TableLocal(d, d', g, x);
    }
  }

  // ----- appending -----

  /** The record with its size grown by `n`. */
  function Grown(r: seq<byte>, n: nat): (r': seq<byte>)
    requires |r| == RECORD
    ensures |r'| == RECORD
  {
    Splice(r, 4, LE32(Wrap(Size(r) + n)))
  }

  lemma GrownFields(r: seq<byte>, n: nat)
    requires |r| == RECORD && Size(r) + n < TWO32
    ensures Size(Grown(r, n)) == Size(r) + n && Kind(Grown(r, n)) == Kind(r)
    ensures forall k :: 0 <= k < DIRECT ==> Pointer(Grown(r, n), k) == Pointer(r, k)
  {
    var r' := Grown(r, n);
    SpliceSlice(r, 4, LE32(Wrap(Size(r) + n)), 4, 8);
    U32Stored(r', 4, Size(r) + n);
    assert r'[0] == r[0] && r'[1] == r[1];
    forall k | 0 <= k < DIRECT ensures Pointer(r', k) == Pointer(r, k) {
      var o := 40 + 4 * k;
      assert r'[o] == r[o] && r'[o + 1] == r[o + 1] && r'[o + 2] == r[o + 2] && r'[o + 3] == r[o + 3];
    }
  }

  /** The file is not empty and the new bytes fit in its last allocated block. */
  ghost predicate AppendFits(d: seq<byte>, g: Geo, i: nat, n: nat)
    requires MetaOk(d, g)
  {
    && ValidInode(g, i)
    && var r := GetInode(d, g, i);
       && 0 < Size(r) < BLOCK * DIRECT && Size(r) % BLOCK + n <= BLOCK
       && Owns(d, g, i, Size(r) / BLOCK)
  }

  /** The disk after the data went into the last block. */
  function AppendData(d: seq<byte>, g: Geo, i: nat, data: seq<byte>): (d': seq<byte>)
    requires Wf(d, g) && AppendFits(d, g, i, |data|)
    ensures |d'| == |d|
  {
    var r := GetInode(d, g, i);
    assert DataBlock(d, g, Ptr(d, g, i, Size(r) / BLOCK));
    Splice(d, BLOCK * Ptr(d, g, i, Size(r) / BLOCK) + Size(r) % BLOCK, data)
  }

  /** The disk after the grown record is written too. */
  function Append(d: seq<byte>, g: Geo, i: nat, data: seq<byte>): (d': seq<byte>)
    requires Wf(d, g) && AppendFits(d, g, i, |data|)
    ensures |d'| == |d|
  {
    AppendDataMeta(d, g, i, data);
    PutInode(AppendData(d, g, i, data), g, i, Grown(GetInode(d, g, i), |data|))
  }

  lemma AppendDataMeta(d: seq<byte>, g: Geo, i: nat, data: seq<byte>)
    requires Wf(d, g) && AppendFits(d, g, i, |data|)
    ensures var d1 := AppendData(d, g, i, data);
      && MetaOk(d1, g) && Blk(d1, g.firstBgd) == Blk(d, g.firstBgd) && Blk(d1, g.sbBlock) == Blk(d, g.sbBlock)
      && (forall j :: ValidInode(g, j) ==> GetInode(d1, g, j) == GetInode(d, g, j))
      && OnlyBlock(d, d1, Ptr(d, g, i, Size(GetInode(d, g, i)) / BLOCK))
      && (forall b :: DataBlock(d, g, b) <==> DataBlock(d1, g, b))
  {
    var r := GetInode(d, g, i);
    var b := Ptr(d, g, i, Size(r) / BLOCK);
    assert DataBlock(d, g, b);
    var d1 := AppendData(d, g, i, data);
    assert OnlyBlock(d, d1, b);
    DataWriteMeta(d, d1, g, b);
    TablesKept(d, d1, g);
  }

  function LastBlock(d: seq<byte>, g: Geo, i: nat): u32
    requires MetaOk(d, g) && ValidInode(g, i) && Size(GetInode(d, g, i)) < BLOCK * DIRECT
  {
    Ptr(d, g, i, Size(GetInode(d, g, i)) / BLOCK)
  }

  /** Descriptors, superblock and every other inode record are unchanged; the file's own record differs
      only by its size. */
  lemma AppendRecords(d: seq<byte>, g: Geo, i: nat, data: seq<byte>)
    requires Wf(d, g) && AppendFits(d, g, i, |data|)
    ensures var d2 := Append(d, g, i, data);
      && MetaOk(d2, g) && Blk(d2, g.firstBgd) == Blk(d, g.firstBgd) && Blk(d2, g.sbBlock) == Blk(d, g.sbBlock)
      && GetInode(d2, g, i) == Grown(GetInode(d, g, i), |data|)
      && (forall j :: ValidInode(g, j) && j != i ==> GetInode(d2, g, j) == GetInode(d, g, j))
  {
    AppendDataMeta(d, g, i, data);
    var d1, r' := AppendData(d, g, i, data), Grown(GetInode(d, g, i), |data|);
    RecordWriteData(d1, g, i, r');
    InodeStore(d1, g, i, r', i);
    forall j | ValidInode(g, j) && j != i ensures GetInode(Append(d, g, i, data), g, j) == GetInode(d, g, j) {
      InodeStore(d1, g, i, r', j);
    }
  }

  /** Every data block but the file's last is unchanged, and that one differs only by the new bytes. */
  lemma AppendBlocks(d: seq<byte>, g: Geo, i: nat, data: seq<byte>)
    requires Wf(d, g) && AppendFits(d, g, i, |data|)
    ensures var d2, b, off := Append(d, g, i, data), LastBlock(d, g, i), Size(GetInode(d, g, i)) % BLOCK;
      && MetaOk(d2, g) && (forall c :: DataBlock(d, g, c) ==> DataBlock(d2, g, c))
      && (forall c :: DataBlock(d, g, c) && c != b ==> Blk(d2, c) == Blk(d, c))
      && InDisk(d, b) && Blk(d2, b) == Splice(Blk(d, b), off, data)
  {
    AppendDataMeta(d, g, i, data);
    assert DataBlock(d, g, LastBlock(d, g, i));
    RecordWriteData(AppendData(d, g, i, data), g, i, Grown(GetInode(d, g, i), |data|));
    PatchedBlock(d, LastBlock(d, g, i), Size(GetInode(d, g, i)) % BLOCK, data);
    OtherBlocks(d, AppendData(d, g, i, data), Append(d, g, i, data), g, LastBlock(d, g, i));
  }

  lemma PatchedBlock(d: seq<byte>, b: nat, off: nat, data: seq<byte>)
    requires InDisk(d, b) && off + |data| <= BLOCK
    ensures Blk(Splice(d, BLOCK * b + off, data), b) == Splice(Blk(d, b), off, data)
  {
    SpliceSlice(d, BLOCK * b + off, data, BLOCK * b, BLOCK * b + BLOCK);
  }

  /** Changing one block and then no data block leaves the other data blocks. */
  lemma OtherBlocks(d: seq<byte>, d1: seq<byte>, d2: seq<byte>, g: Geo, b: nat)
    requires MetaOk(d, g) && OnlyBlock(d, d1, b) && |d2| == |d|
    requires forall c :: DataBlock(d, g, c) ==> Blk(d2, c) == Blk(d1, c)
    ensures forall c :: DataBlock(d, g, c) && c != b ==> Blk(d2, c) == Blk(d, c)
  {
    forall c | DataBlock(d, g, c) && c != b ensures Blk(d2, c) == Blk(d, c) {
      BlkSame(d, d1, b, c);
    }
  }

  /** What an append does to the bytes of the disk: the size field of the record at `at` grows, the data goes
      behind byte `size` into block `b`, and no other byte changes. */
  ghost predicate AppendEffect(d: seq<byte>, d': seq<byte>, at: nat, size: nat, b: nat, data: seq<byte>) {
    var lo := 1024 * b + size % 1024;
    && |d'| == |d| && at + 8 <= |d| && lo + |data| <= |d|
    && U32(d', at + 4) == size + |data| && d'[lo..lo + |data|] == data
    && forall n :: 0 <= n < |d| && !(at + 4 <= n < at + 8) && !(lo <= n < lo + |data|) ==> d'[n] == d[n]
  }

  /** The same for the record at `at`: its size field says where the data goes, the pointer that covers that byte
      says into which block. */
  ghost predicate AppendedAt(d: seq<byte>, d': seq<byte>, at: nat, data: seq<byte>) {
    && at + 128 <= |d|
    && var size := U32(d, at + 4);
       size < 12288 && AppendEffect(d, d', at, size, U32(d, at + (40 + 4 * (size / 1024))), data)
  }

  /** The whole disk after an append. */
  lemma AppendBytes(d: seq<byte>, g: Geo, i: nat, data: seq<byte>)
    requires Wf(d, g) && AppendFits(d, g, i, |data|)
    ensures AppendedAt(d, Append(d, g, i, data), InodeAt(d, g, i), data)
  {
    var at, r, b, d' := AppendFacts(d, g, i, data);
    FactsEffect(d, at, r, b, data, d');
  }

  lemma FactsEffect(d: seq<byte>, at: nat, r: seq<byte>, b: u32, data: seq<byte>, d': seq<byte>)
    requires at + 128 <= |d| && r == d[at..at + 128]
    requires Size(r) == U32(d, at + 4) < 12288 && Size(r) % 1024 + |data| <= 1024
    requires b == U32(d, at + (40 + 4 * (Size(r) as int / 1024))) && 1024 * b + 1024 <= |d|
    requires at + 128 <= 1024 * b || 1024 * b + 1024 <= at
    requires d' == Splice(Splice(d, 1024 * b + Size(r) % 1024, data), at, Grown(r, |data|))
    ensures AppendedAt(d, d', at, data)
  {
    GrownEffect(d, at, r, b, data, d');
    EffectAt(d, d', at, Size(r), b, data);
  }

  lemma AppendFacts(d: seq<byte>, g: Geo, i: nat, data: seq<byte>)
    returns (at: nat, r: seq<byte>, b: u32, d': seq<byte>)
    requires Wf(d, g) && AppendFits(d, g, i, |data|)
    ensures at == InodeAt(d, g, i) && d' == Append(d, g, i, data) && at + 128 <= |d| && r == d[at..at + 128]
    ensures Size(r) == U32(d, at + 4) < 12288 && Size(r) % 1024 + |data| <= 1024
    ensures b == U32(d, at + (40 + 4 * (Size(r) as int / 1024))) && 1024 * b + 1024 <= |d|
    ensures at + 128 <= 1024 * b || 1024 * b + 1024 <= at
    ensures d' == Splice(Splice(d, 1024 * b + Size(r) % 1024, data), at, Grown(r, |data|))
  {
    at, r, b := RecordFacts(d, g, i, data);
    AppendIs(d, g, i, data);
    d' := Append(d, g, i, data);
  }

  lemma RecordFacts(d: seq<byte>, g: Geo, i: nat, data: seq<byte>) returns (at: nat, r: seq<byte>, b: u32)
    requires Wf(d, g) && AppendFits(d, g, i, |data|)
    ensures at == InodeAt(d, g, i) && r == GetInode(d, g, i) && b == LastBlock(d, g, i)
    ensures at + 128 <= |d| && r == d[at..at + 128]
    ensures Size(r) == U32(d, at + 4) < 12288 && Size(r) % 1024 + |data| <= 1024
    ensures b == U32(d, at + (40 + 4 * (Size(r) as int / 1024))) && 1024 * b + 1024 <= |d|
    ensures at + 128 <= 1024 * b || 1024 * b + 1024 <= at
  {
    at, r, b := InodeAt(d, g, i), GetInode(d, g, i), LastBlock(d, g, i);
    LastOnDisk(d, g, i);
    AppendApart(d, g, i, data);
  }

  lemma EffectAt(d: seq<byte>, d': seq<byte>, at: nat, size: nat, b: nat, data: seq<byte>)
    requires at + 128 <= |d| && size == U32(d, at + 4) < 12288 && b == U32(d, at + (40 + 4 * (size / 1024)))
    requires AppendEffect(d, d', at, size, b, data)
    ensures AppendedAt(d, d', at, data)
  {
  }

  lemma GrownEffect(d: seq<byte>, at: nat, r: seq<byte>, b: u32, data: seq<byte>, d': seq<byte>)
    requires at + 128 <= |d| && r == d[at..at + 128] && 1024 * b + 1024 <= |d|
    requires at + 128 <= 1024 * b || 1024 * b + 1024 <= at
    requires Size(r) < 12288 && Size(r) % 1024 + |data| <= 1024
    requires d' == Splice(Splice(d, 1024 * b + Size(r) % 1024, data), at, Grown(r, |data|))
    ensures AppendEffect(d, d', at, Size(r), b, data)
  {
    GrownBytes(r, |data|);
    PatchEffect(d, at, r, Grown(r, |data|), b, data, d');
  }

  lemma LastOnDisk(d: seq<byte>, g: Geo, i: nat)
    requires MetaOk(d, g) && ValidInode(g, i) && Size(GetInode(d, g, i)) < 12288
    ensures InodeAt(d, g, i) + 128 <= |d|
    ensures var at, size := InodeAt(d, g, i), Size(GetInode(d, g, i));
      && GetInode(d, g, i) == d[at..at + 128]
      && size == U32(d, at + 4) && LastBlock(d, g, i) == U32(d, at + (40 + 4 * (size / 1024)))
  {
    FieldsOnDisk(d, g, i);
    InodeAtFlat(d, g, i);
    var k := Size(GetInode(d, g, i)) / 1024;
    assert Pointer(GetInode(d, g, i), k) == U32(d, InodeAt(d, g, i) + 40 + 4 * k);
  }

  /** The file's last block lies on the disk, apart from its record. */
  lemma AppendApart(d: seq<byte>, g: Geo, i: nat, data: seq<byte>)
    requires Wf(d, g) && AppendFits(d, g, i, |data|)
    ensures var at, b := InodeAt(d, g, i), LastBlock(d, g, i);
      1024 * b + 1024 <= |d| && (at + 128 <= 1024 * b || 1024 * b + 1024 <= at)
  {
    assert DataBlock(d, g, LastBlock(d, g, i));
    RecordOutside(d, g, i, LastBlock(d, g, i));
  }

  /** An append as two patches of the disk. */
  lemma AppendIs(d: seq<byte>, g: Geo, i: nat, data: seq<byte>)
    requires Wf(d, g) && AppendFits(d, g, i, |data|)
    ensures var r, at := GetInode(d, g, i), InodeAt(d, g, i);
      var lo := BLOCK * LastBlock(d, g, i) + Size(r) % BLOCK;
      && at + 128 <= |d| && lo + |data| <= |d|
      && Append(d, g, i, data) == Splice(Splice(d, lo, data), at, Grown(r, |data|))
  {
    AppendApart(d, g, i, data);
    InodeAtFlat(d, g, i);
    RecordStays(d, g, i, data);
  }

  lemma RecordStays(d: seq<byte>, g: Geo, i: nat, data: seq<byte>)
    requires Wf(d, g) && AppendFits(d, g, i, |data|)
    ensures MetaOk(AppendData(d, g, i, data), g) && InodeAt(AppendData(d, g, i, data), g, i) == InodeAt(d, g, i)
  {
    AppendDataMeta(d, g, i, data);
    MetaKept(d, AppendData(d, g, i, data), g);
  }

  lemma PatchEffect(d: seq<byte>, at: nat, r: seq<byte>, r': seq<byte>, b: nat, data: seq<byte>, d': seq<byte>)
    requires at + 128 <= |d| && r == d[at..at + 128] && |r'| == 128 && 1024 * b + 1024 <= |d|
    requires at + 128 <= 1024 * b || 1024 * b + 1024 <= at
    requires U32(r, 4) % 1024 + |data| <= 1024 && U32(r', 4) == U32(r, 4) + |data|
    requires forall k :: 0 <= k < 128 && !(4 <= k < 8) ==> r'[k] == r[k]
    requires d' == Splice(Splice(d, 1024 * b + U32(r, 4) % 1024, data), at, r')
    ensures AppendEffect(d, d', at, U32(r, 4), b, data)
  {
    PatchedBytes(d, at, r, r', 1024 * b + U32(r, 4) % 1024, data);
  }

  /** Growing a record changes its bytes 4 to 7 only. */
  lemma GrownBytes(r: seq<byte>, n: nat)
    requires |r| == RECORD && Size(r) + n < TWO32
    ensures U32(Grown(r, n), 4) == U32(r, 4) + n
    ensures forall k :: 0 <= k < 128 && !(4 <= k < 8) ==> Grown(r, n)[k] == r[k]
  {
    GrownFields(r, n);
  }

  /** Data and then a record written to places that do not meet. */
  lemma PatchedBytes(d: seq<byte>, at: nat, r: seq<byte>, r': seq<byte>, lo: nat, data: seq<byte>)
    requires at + 128 <= |d| && r == d[at..at + 128] && |r'| == 128 && lo + |data| <= |d|
    requires at + 128 <= lo || lo + |data| <= at
    requires forall k :: 0 <= k < 128 && !(4 <= k < 8) ==> r'[k] == r[k]
    ensures var d' := Splice(Splice(d, lo, data), at, r');
      && U32(d', at + 4) == U32(r', 4) && d'[lo..lo + |data|] == data
      && forall n :: 0 <= n < |d| && !(at + 4 <= n < at + 8) && !(lo <= n < lo + |data|) ==> d'[n] == d[n]
  {
    var d1 := Splice(d, lo, data);
    var d' := Splice(d1, at, r');
    SpliceSlice(d1, at, r', lo, lo + |data|);
    SpliceSlice(d, lo, data, lo, lo + |data|);
    assert d'[at..at + 128] == r' by {
      SpliceSlice(d1, at, r', at, at + 128);
    }
    FieldLocal(d', at, r', 4);
    forall n | 0 <= n < |d| && !(at + 4 <= n < at + 8) && !(lo <= n < lo + |data|) ensures d'[n] == d[n] {
      assert at <= n < at + 128 ==> d'[n] == r'[n - at] && r[n - at] == d[n];
    }
  }

  /** Every block the size reaches is allocated. */
  ghost predicate Covered(r: seq<byte>)
    requires |r| == RECORD
  {
    Size(r) <= BLOCK * DIRECT && forall k :: 0 <= k < DIRECT && BLOCK * k < Size(r) ==> Pointer(r, k) != 0
  }

  ghost predicate Allocated(d: seq<byte>, g: Geo, i: nat)
    requires MetaOk(d, g) && ValidInode(g, i)
  {
    InUse(d, g, i) && Covered(GetInode(d, g, i))
  }

  /** Appending takes no new block, so a file that has exactly the blocks its size reaches has a block for
      every byte afterwards exactly when the new bytes fit behind the old ones in a block already begun. */
  lemma AppendCoveredExactly(r: seq<byte>, n: nat)
    requires |r| == RECORD && Size(r) <= BLOCK * DIRECT && Size(r) + n < TWO32
    requires forall k :: 0 <= k < DIRECT ==> (Pointer(r, k) != 0 <==> BLOCK * k < Size(r))
    ensures Covered(Grown(r, n)) <==> n == 0 || (0 < Size(r) % BLOCK && Size(r) % BLOCK + n <= BLOCK)
  {
    GrownFields(r, n);
    var r', size := Grown(r, n), Size(r) as nat;
    var next := if size % BLOCK == 0 then size / BLOCK else size / BLOCK + 1;
    if next < DIRECT && BLOCK * next < size + n {
      assert Pointer(r, next) == 0 && Pointer(r', next) == 0;
    }
    forall k | 0 <= k < DIRECT && BLOCK * k < size ensures Pointer(r', k) != 0 {
      assert Pointer(r, k) != 0;
    }
  }

  lemma AllocatedReadable(d: seq<byte>, g: Geo, i: nat)
    requires Wf(d, g) && ValidInode(g, i) && Allocated(d, g, i)
    ensures Readable(d, GetInode(d, g, i))
    ensures forall k :: 0 <= k < DIRECT && BLOCK * k < Size(GetInode(d, g, i)) ==> DataBlock(d, g, Ptr(d, g, i, k))
  {
    var r := GetInode(d, g, i);
    forall k | 0 <= k < DIRECT && BLOCK * k < Size(r)
      ensures DataBlock(d, g, Ptr(d, g, i, k)) && InDisk(d, Pointer(r, k))
    {
      assert Owns(d, g, i, k);
    }
  }

  /** Blocks that agree give contents that agree. */
  lemma ContentLocal(d: seq<byte>, d': seq<byte>, r: seq<byte>, r': seq<byte>, n: nat)
    requires |r| == |r'| == RECORD && Readable(d, r) && Readable(d', r') && n <= Size(r) && n <= Size(r')
    requires forall k :: 0 <= k < DIRECT && BLOCK * k < n ==>
      Pointer(r', k) == Pointer(r, k) && InDisk(d, Pointer(r, k)) && InDisk(d', Pointer(r, k))
    requires forall k :: 0 <= k < DIRECT && BLOCK * k < n ==>
      forall o :: 0 <= o < BLOCK && BLOCK * k + o < n ==> Blk(d', Pointer(r, k))[o] == Blk(d, Pointer(r, k))[o]
    ensures Content(d', r')[..n] == Content(d, r)[..n]
  {
    forall m | 0 <= m < n ensures Content(d', r')[m] == Content(d, r)[m] {
      var k, o := m / BLOCK, m % BLOCK;
      assert Blk(d', Pointer(r, k))[o] == d'[BLOCK * Pointer(r, k) + o];
      assert Blk(d, Pointer(r, k))[o] == d[BLOCK * Pointer(r, k) + o];
    }
  }

  /** A record whose blocks are all the same has the same contents. */
  lemma ContentSame(d: seq<byte>, d': seq<byte>, r: seq<byte>)
    requires |r| == RECORD && Readable(d, r) && |d'| == |d|
    requires forall k :: 0 <= k < DIRECT && BLOCK * k < Size(r) ==> Blk(d', Pointer(r, k)) == Blk(d, Pointer(r, k))
    ensures Readable(d', r) && Content(d', r) == Content(d, r)
  {
    ContentLocal(d, d', r, r, Size(r));
    var c, c' := Content(d, r), Content(d', r);
    assert c == c[..Size(r)] && c' == c'[..Size(r)];
  }

  /** A record that grows within its last block stays readable. */
  lemma GrownReadable(d: seq<byte>, r: seq<byte>, n: nat)
    requires |r| == RECORD && 0 < Size(r) < BLOCK * DIRECT && Size(r) % BLOCK + n <= BLOCK
    requires InDisk(d, Pointer(r, Size(r) / BLOCK))
    requires forall k :: 0 <= k < DIRECT && BLOCK * k < Size(r) ==> InDisk(d, Pointer(r, k))
    ensures Readable(d, Grown(r, n))
  {
    GrownFields(r, n);
    forall k | 0 <= k < DIRECT && BLOCK * k < Size(r) + n ensures InDisk(d, Pointer(Grown(r, n), k)) {
      assert BLOCK * k < Size(r) || k == Size(r) / BLOCK;
    }
  }

  /** New bytes right after the end of a file, and a size to match, extend its contents. */
  lemma GrowContent(d: seq<byte>, d': seq<byte>, r: seq<byte>, data: seq<byte>)
    requires |r| == RECORD && 0 < Size(r) < BLOCK * DIRECT && Size(r) % BLOCK + |data| <= BLOCK && |d'| == |d|
    requires Readable(d, r) && InDisk(d, Pointer(r, Size(r) / BLOCK))
    requires forall k :: 0 <= k < Size(r) / BLOCK ==> Blk(d', Pointer(r, k)) == Blk(d, Pointer(r, k))
    requires Blk(d', Pointer(r, Size(r) / BLOCK)) == Splice(Blk(d, Pointer(r, Size(r) / BLOCK)), Size(r) % BLOCK, data)
    ensures Readable(d', Grown(r, |data|))
    ensures Content(d', Grown(r, |data|)) == Content(d, r) + data
  {
    var n, size := |data|, Size(r) as nat;
    GrownFields(r, n);
    GrownReadable(d', r, n);
    ContentLocal(d, d', r, Grown(r, n), size);
    LastBytes(d', Grown(r, n), data, Blk(d, Pointer(r, size / BLOCK)), size);
    Extends(Content(d, r), data, Content(d', Grown(r, n)));
  }

  lemma LastBytes(d: seq<byte>, r: seq<byte>, data: seq<byte>, was: seq<byte>, size: nat)
    requires |r| == RECORD && Readable(d, r) && 0 < size && Size(r) == size + |data|
    requires |was| == BLOCK && size % BLOCK + |data| <= BLOCK && size < BLOCK * DIRECT
    requires InDisk(d, Pointer(r, size / BLOCK)) && Blk(d, Pointer(r, size / BLOCK)) == Splice(was, size % BLOCK, data)
    ensures forall m :: size <= m < size + |data| ==> Content(d, r)[m] == data[m - size]
  {
    forall m | size <= m < size + |data| ensures Content(d, r)[m] == data[m - size] {
      LastByte(d, r, data, was, size, m);
    }
  }

  lemma Extends(a: seq<byte>, b: seq<byte>, c: seq<byte>)
    requires |c| == |a| + |b| && c[..|a|] == a[..|a|] && forall m :: |a| <= m < |c| ==> c[m] == b[m - |a|]
    ensures c == a + b
  {
    assert c == c[..|a|] + c[|a|..];
  }

  lemma LastByte(d: seq<byte>, r: seq<byte>, data: seq<byte>, was: seq<byte>, size: nat, m: nat)
    requires |r| == RECORD && Readable(d, r) && 0 < size <= m < Size(r) == size + |data|
    requires |was| == BLOCK && size % BLOCK + |data| <= BLOCK && size < BLOCK * DIRECT
    requires InDisk(d, Pointer(r, size / BLOCK)) && Blk(d, Pointer(r, size / BLOCK)) == Splice(was, size % BLOCK, data)
    ensures Content(d, r)[m] == data[m - size]
  {
    var b, o := Pointer(r, size / BLOCK), m % BLOCK;
    assert m / BLOCK == size / BLOCK && o == size % BLOCK + (m - size);
    assert Blk(d, b)[o] == d[BLOCK * b + o];
  }

  /** The file's contents become exactly the old contents followed by the new bytes. */
  lemma AppendContent(d: seq<byte>, g: Geo, i: nat, data: seq<byte>)
    requires Wf(d, g) && AppendFits(d, g, i, |data|) && Allocated(d, g, i)
    ensures var d2 := Append(d, g, i, data);
      && Readable(d, GetInode(d, g, i)) && MetaOk(d2, g) && Readable(d2, GetInode(d2, g, i))
      && FileContent(d2, g, i) == FileContent(d, g, i) + data
  {
    var d2, r := Append(d, g, i, data), GetInode(d, g, i);
    AllocatedReadable(d, g, i);
    AppendRecords(d, g, i, data);
    AppendBlocks(d, g, i, data);
    assert Owns(d, g, i, Size(r) / BLOCK);
    forall k | 0 <= k < Size(r) / BLOCK ensures Blk(d2, Pointer(r, k)) == Blk(d, Pointer(r, k)) {
      assert DataBlock(d, g, Ptr(d, g, i, k)) && Owns(d, g, i, k);
    }
    GrowContent(d, d2, r, data);
  }

  /** Every other file and directory keeps its record, its blocks and so its contents. */
  lemma AppendOthers(d: seq<byte>, g: Geo, i: nat, data: seq<byte>, j: nat)
    requires Wf(d, g) && AppendFits(d, g, i, |data|) && ValidInode(g, j) && j != i && InUse(d, g, j)
    ensures var d2 := Append(d, g, i, data);
      && MetaOk(d2, g) && GetInode(d2, g, j) == GetInode(d, g, j)
      && (forall k :: 0 <= k < DIRECT && Ptr(d, g, j, k) != 0 ==>
            InDisk(d, Ptr(d, g, j, k)) && Blk(d2, Ptr(d, g, j, k)) == Blk(d, Ptr(d, g, j, k)))
      && (Allocated(d, g, j) ==>
            Readable(d, GetInode(d, g, j)) && Readable(d2, GetInode(d2, g, j))
            && FileContent(d2, g, j) == FileContent(d, g, j))
  {
    AppendRecords(d, g, i, data);
    AppendBlocks(d, g, i, data);
    var d2, r := Append(d, g, i, data), GetInode(d, g, j);
    assert Owns(d, g, i, Size(GetInode(d, g, i)) / BLOCK);
    forall k | 0 <= k < DIRECT && Ptr(d, g, j, k) != 0
      ensures InDisk(d, Ptr(d, g, j, k)) && Blk(d2, Ptr(d, g, j, k)) == Blk(d, Ptr(d, g, j, k))
    {
      assert Owns(d, g, j, k);
      assert DataBlock(d, g, Ptr(d, g, j, k));
    }
    if Allocated(d, g, j) {
      AllocatedReadable(d, g, j);
      forall k | 0 <= k < DIRECT && BLOCK * k < Size(r)
        ensures InDisk(d2, Pointer(r, k)) && Blk(d2, Pointer(r, k)) == Blk(d, Pointer(r, k))
      {
        assert DataBlock(d, g, Ptr(d, g, j, k));
      }
      ContentSame(d, d2, r);
    }
  }

  lemma OwnsKept(d: seq<byte>, d': seq<byte>, g: Geo, j: nat, k: nat)
    requires MetaOk(d, g) && MetaOk(d', g) && Owns(d', g, j, k)
    requires Kind(GetInode(d', g, j)) == Kind(GetInode(d, g, j))
    requires Pointer(GetInode(d', g, j), k) == Pointer(GetInode(d, g, j), k)
    ensures Owns(d, g, j, k) && Ptr(d', g, j, k) == Ptr(d, g, j, k)
  {
  }

  /** Appending to a regular file keeps the image well formed. */
  lemma AppendWf(d: seq<byte>, g: Geo, i: nat, data: seq<byte>)
    requires Wf(d, g) && AppendFits(d, g, i, |data|) && Kind(GetInode(d, g, i)) == FILE
    ensures Wf(Append(d, g, i, data), g)
  {
    AppendRecords(d, g, i, data);
    AppendBlocks(d, g, i, data);
    GrownFields(GetInode(d, g, i), |data|);
    var d2 := Append(d, g, i, data);
    forall j: nat, k: nat | Owns(d2, g, j, k)
      ensures Owns(d, g, j, k) && Ptr(d2, g, j, k) == Ptr(d, g, j, k) && DataBlock(d2, g, Ptr(d2, g, j, k))
    {
      OwnsKept(d, d2, g, j, k);
      assert DataBlock(d, g, Ptr(d, g, j, k));
    }
    forall j | ValidInode(g, j) && Kind(GetInode(d2, g, j)) == DIRECTORY ensures DirOk(d2, g, j) {
      assert j != i && DirOk(d, g, j) && InUse(d, g, j);
      AppendOthers(d, g, i, data, j);
      DirKept(d, d2, g, j);
    }
  }

  lemma RecordsStep(d: seq<byte>, d': seq<byte>, r: seq<byte>, k: nat, b: nat)
    requires |r| == RECORD && k < DIRECT && |d'| == |d| && b == Pointer(r, k) != 0
    requires BlocksChained(d, r, k) && Blk(d', b) == Blk(d, b)
    requires BlocksChained(d', r, k + 1) && RecordsFrom(d', r, k + 1) == RecordsFrom(d, r, k + 1)
    ensures BlocksChained(d', r, k) && RecordsFrom(d', r, k) == RecordsFrom(d, r, k)
  {
  }

  lemma {:induction false} RecordsKept(d: seq<byte>, d': seq<byte>, r: seq<byte>, k: nat)
    requires |r| == RECORD && k <= DIRECT && |d'| == |d| && BlocksChained(d, r, k)
    requires forall l :: 0 <= l < DIRECT && Pointer(r, l) != 0 && InDisk(d, Pointer(r, l)) ==>
      Blk(d', Pointer(r, l)) == Blk(d, Pointer(r, l))
    ensures BlocksChained(d', r, k) && RecordsFrom(d', r, k) == RecordsFrom(d, r, k)
    decreases DIRECT - k
  {
    if k < DIRECT && Pointer(r, k) != 0 {
      var b := Pointer(r, k) as nat;
      assert InDisk(d, b) && BlocksChained(d, r, k + 1);
      RecordsKept(d, d', r, k + 1);
      RecordsStep(d, d', r, k, b);
    }
  }

  lemma DirKept(d: seq<byte>, d': seq<byte>, g: Geo, j: nat)
    requires MetaOk(d, g) && MetaOk(d', g) && ValidInode(g, j) && DirOk(d, g, j) && |d'| == |d|
    requires GetInode(d', g, j) == GetInode(d, g, j)
    requires forall k :: 0 <= k < DIRECT && Ptr(d, g, j, k) != 0 && InDisk(d, Ptr(d, g, j, k)) ==>
      Blk(d', Ptr(d, g, j, k)) == Blk(d, Ptr(d, g, j, k))
    ensures SameDir(d, d', g, j) && DirOk(d', g, j)
  {
    var r := GetInode(d, g, j);
    assert forall k :: 0 <= k < DIRECT ==> Ptr(d, g, j, k) == Pointer(r, k);
    RecordsKept(d, d', r, 0);
    assert FirstBlock(d, g, j) == Ptr(d, g, j, 0);
  }
}
