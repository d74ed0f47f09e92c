/** Runs of writes to many files: the image stays well formed and every file holds exactly what was
    written to it. */
module Ext2Runs {
  import opened Bytes
  import opened Ext2Layout
  import opened Ext2Files
  import opened Ext2Alloc
  import opened Ext2Path
  import opened Ext2Walk
  import opened Ext2ReadBack

  // ----- what a first write keeps -----

  /** The first write to an empty regular file keeps the image well formed. */
  lemma FreshWf(d: seq<byte>, g: Geo, i: nat, data: seq<byte>)
    requires FreshFits(d, g, i, |data|) && Kind(GetInode(d, g, i)) == FILE
    ensures FreshRuns(d, g, i, |data|) && Wf(Fresh(d, g, i, data), g)
  {
    FreshRecords(d, g, i, data);
    FreshDataBlocks(d, g, i, data);
    var d3, r, b := Fresh(d, g, i, data), GetInode(d, g, i), NextBlock(d, g, 0);
    StartedFields(r, b, |data|);
    forall j: nat, k: nat | Owns(d3, g, j, k) && !(j == i && k == 0)
      ensures Owns(d, g, j, k) && Ptr(d3, g, j, k) == Ptr(d, g, j, k) && DataBlock(d3, g, Ptr(d3, g, j, k))
    {
      OwnsKept(d, d3, g, j, k);
      assert DataBlock(d, g, Ptr(d, g, j, k));
    }
    assert Owns(d3, g, i, 0) ==> Ptr(d3, g, i, 0) == b;
    forall j | ValidInode(g, j) && Kind(GetInode(d3, g, j)) == DIRECTORY ensures DirOk(d3, g, j) {
      assert j != i && DirOk(d, g, j);
      FreshKeepsDir(d, g, i, data, j);
    }
  }

  lemma FreshDataBlocks(d: seq<byte>, g: Geo, i: nat, data: seq<byte>)
    requires FreshFits(d, g, i, |data|)
    ensures FreshRuns(d, g, i, |data|) && MetaOk(Fresh(d, g, i, data), g)
    ensures forall c :: DataBlock(d, g, c) ==> DataBlock(Fresh(d, g, i, data), g, c)
    ensures Blk(Fresh(d, g, i, data), g.firstBgd) == Blk(AllocIn(d, g, 0), g.firstBgd)
    ensures Blk(Fresh(d, g, i, data), g.sbBlock) == Blk(AllocIn(d, g, 0), g.sbBlock)
  {
    var d1, b := AllocIn(d, g, 0), NextBlock(d, g, 0);
    AllocFirstGroup(d, g);
    CountsKeepTables(d, d1, g);
    FreshIs(d, g, i, data);
    FreshOnBlocks(d1, g, i, Started(GetInode(d, g, i), b, |data|), b, data);
  }

  lemma FreshOnBlocks(d1: seq<byte>, g: Geo, i: nat, r: seq<byte>, b: nat, data: seq<byte>)
    requires MetaOk(d1, g) && ValidInode(g, i) && |r| == RECORD && DataBlock(d1, g, b) && |data| <= BLOCK
    ensures var d3 := FreshOn(d1, g, i, r, b, data);
      && MetaOk(d3, g) && (forall c :: DataBlock(d1, g, c) ==> DataBlock(d3, g, c))
      && Blk(d3, g.firstBgd) == Blk(d1, g.firstBgd) && Blk(d3, g.sbBlock) == Blk(d1, g.sbBlock)
  {
    var d2, d3 := PutInode(d1, g, i, r), FreshOn(d1, g, i, r, b, data);
    RecordWriteData(d1, g, i, r);
    assert OnlyBlock(d2, d3, b);
    DataWriteMeta(d2, d3, g, b);
    TablesKept(d2, d3, g);
  }

  lemma FreshKeepsDir(d: seq<byte>, g: Geo, i: nat, data: seq<byte>, j: nat)
    requires FreshFits(d, g, i, |data|) && ValidInode(g, j) && j != i && InUse(d, g, j) && DirOk(d, g, j)
    ensures FreshRuns(d, g, i, |data|) && MetaOk(Fresh(d, g, i, data), g) && DirOk(Fresh(d, g, i, data), g, j)
  {
    FreshRecords(d, g, i, data);
    OwnedKept(d, Fresh(d, g, i, data), g, NextBlock(d, g, 0));
    assert forall k :: 0 <= k < DIRECT && Ptr(d, g, j, k) != 0 ==> Owns(d, g, j, k);
    DirKept(d, Fresh(d, g, i, data), g, j);
  }

  /** After a first write to a regular file every path through directories leads where it did. */
  lemma FreshKeepsPaths(d: seq<byte>, g: Geo, i: nat, data: seq<byte>, comps: seq<seq<byte>>)
    requires FreshFits(d, g, i, |data|) && Kind(GetInode(d, g, i)) == FILE && DirPath(d, g, ROOT, comps)
    ensures FreshRuns(d, g, i, |data|)
    ensures var d3 := Fresh(d, g, i, data);
      && MetaOk(d3, g) && WalkOk(d, g, ROOT, comps) && WalkOk(d3, g, ROOT, comps) && DirPath(d3, g, ROOT, comps)
      && Walk(d3, g, 0, ROOT, comps) == Walk(d, g, 0, ROOT, comps)
  {
    DirPathWalk(d, g, ROOT, comps);
    FreshRecords(d, g, i, data);
    var d3 := Fresh(d, g, i, data);
    OwnedKept(d, d3, g, NextBlock(d, g, 0));
    forall j | ValidInode(g, j) && IsDir(d, g, j) ensures SameDir(d, d3, g, j) && IsDir(d3, g, j) {
      assert DirOk(d, g, j);
      assert forall k :: 0 <= k < DIRECT && Ptr(d, g, j, k) != 0 ==> Owns(d, g, j, k);
      DirKept(d, d3, g, j);
    }
    DirPathKept(d, d3, g, ROOT, comps);
    WalkKept(d, d3, g, 0, ROOT, comps);
  }

  // ----- why the allocator's next block is free -----

  /** Blocks are handed out in order: every owned block is below the next one, and from there to the end of
      the file system there are only data blocks. */
  ghost predicate Frontier(d: seq<byte>, g: Geo) {
    && Wf(d, g) && AllocOk(d, g) && g.bgs > 0 && g.firstBgd != g.sbBlock
    && FreeCount(d, g, 0) <= g.blocks && BLOCK * g.blocks <= |d|
    && (forall j, k :: Owns(d, g, j, k) ==> Ptr(d, g, j, k) <= g.blocks - FreeCount(d, g, 0))
    && (forall b :: g.blocks - FreeCount(d, g, 0) < b < g.blocks ==> DataBlock(d, g, b))
  }

  /** An empty file takes a first write of less than a block while group 0 has two free blocks. */
  ghost predicate Room(d: seq<byte>, g: Geo, i: nat, n: nat)
    requires Frontier(d, g)
  {
    && ValidInode(g, i) && InUse(d, g, i) && Size(GetInode(d, g, i)) == 0 && n < BLOCK
    && FreeCount(d, g, 0) >= 2
  }

  lemma RoomFits(d: seq<byte>, g: Geo, i: nat, n: nat)
    requires Frontier(d, g) && Room(d, g, i, n)
    ensures FreshFits(d, g, i, n)
  {
    assert NextBlock(d, g, 0) == g.blocks - FreeCount(d, g, 0) + 1;
  }

  /** The last free block has number `blocks`, one past a disk of `blocks` blocks: the number handed out is
      on the disk exactly when at least two blocks are free. */
  lemma NextOnDiskExactly(d: seq<byte>, g: Geo)
    requires AllocOk(d, g) && g.bgs > 0 && |d| == BLOCK * g.blocks && 0 < FreeCount(d, g, 0) <= g.blocks
    ensures InDisk(d, NextBlock(d, g, 0)) <==> FreeCount(d, g, 0) >= 2
  {
  }

  /** On a disk that just holds the file system, the next block is a free data block exactly while two
      blocks are free. */
  lemma FreshFitsExactly(d: seq<byte>, g: Geo, i: nat, n: nat)
    requires Frontier(d, g) && |d| == BLOCK * g.blocks
    ensures FreshFits(d, g, i, n) <==> Room(d, g, i, n)
  {
    if Room(d, g, i, n) {
      RoomFits(d, g, i, n);
    }
    if FreshFits(d, g, i, n) {
      NextOnDiskExactly(d, g);
    }
  }

  lemma SameBlkCounts(d: seq<byte>, d': seq<byte>, g: Geo)
    requires AllocOk(d, g) && g.bgs > 0 && |d'| == |d| && Blk(d', g.firstBgd) == Blk(d, g.firstBgd)
    ensures AllocOk(d', g) && FreeCount(d', g, 0) == FreeCount(d, g, 0)
  {
  }

  /** A first write moves the frontier up by the block it takes. */
  lemma FreshFrontier(d: seq<byte>, g: Geo, i: nat, data: seq<byte>)
    requires Frontier(d, g) && Room(d, g, i, |data|) && Kind(GetInode(d, g, i)) == FILE
    ensures FreshRuns(d, g, i, |data|)
    ensures var d3 := Fresh(d, g, i, data);
      Frontier(d3, g) && FreeCount(d3, g, 0) == FreeCount(d, g, 0) - 1
  {
    RoomFits(d, g, i, |data|);
    FreshWf(d, g, i, data);
    FreshDataBlocks(d, g, i, data);
    FreshRecords(d, g, i, data);
    AllocFirstGroup(d, g);
    var d3, r, b := Fresh(d, g, i, data), GetInode(d, g, i), NextBlock(d, g, 0);
    SameBlkCounts(AllocIn(d, g, 0), d3, g);
    StartedFields(r, b, |data|);
    forall j: nat, k: nat | Owns(d3, g, j, k) ensures Ptr(d3, g, j, k) <= b {
      if j == i && k == 0 {
        assert Ptr(d3, g, i, 0) == b;
      } else {
        OwnsKept(d, d3, g, j, k);
        assert Ptr(d, g, j, k) <= g.blocks - FreeCount(d, g, 0);
      }
    }
    forall c | b < c < g.blocks ensures DataBlock(d3, g, c) {
      assert DataBlock(d, g, c);
    }
  }

  /** A first write on an image in order: the image stays in order, the file holds exactly the bytes written,
      and every block any file or directory owned is as it was. */
  lemma FirstWrite(d: seq<byte>, g: Geo, i: nat, data: seq<byte>)
    requires Frontier(d, g) && Room(d, g, i, |data|) && Kind(GetInode(d, g, i)) == FILE
    ensures FreshRuns(d, g, i, |data|)
    ensures var d3 := Fresh(d, g, i, data);
      && Frontier(d3, g) && FreeCount(d3, g, 0) == FreeCount(d, g, 0) - 1
      && Readable(d3, GetInode(d3, g, i)) && FileContent(d3, g, i) == data
      && (forall j, k :: Owns(d, g, j, k) ==>
            InDisk(d, Ptr(d, g, j, k)) && Blk(d3, Ptr(d, g, j, k)) == Blk(d, Ptr(d, g, j, k)))
  {
    RoomFits(d, g, i, |data|);
    FreshFrontier(d, g, i, data);
    FreshContent(d, g, i, data);
    FreshRecords(d, g, i, data);
    OwnedKept(d, Fresh(d, g, i, data), g, NextBlock(d, g, 0));
  }

  lemma AppendFrontier(d: seq<byte>, g: Geo, i: nat, data: seq<byte>)
    requires Frontier(d, g) && AppendFits(d, g, i, |data|) && Kind(GetInode(d, g, i)) == FILE
    ensures Frontier(Append(d, g, i, data), g)
  {
    AppendWf(d, g, i, data);
    AppendRecords(d, g, i, data);
    AppendBlocks(d, g, i, data);
    GrownFields(GetInode(d, g, i), |data|);
    var d2 := Append(d, g, i, data);
    SameBlkCounts(d, d2, g);
    forall j: nat, k: nat | Owns(d2, g, j, k) ensures Ptr(d2, g, j, k) <= g.blocks - FreeCount(d, g, 0) {
      OwnsKept(d, d2, g, j, k);
    }
    forall c | g.blocks - FreeCount(d, g, 0) < c < g.blocks ensures DataBlock(d2, g, c) {
      assert DataBlock(d, g, c);
    }
  }

  // ----- one write -----

  datatype WriteOp = WriteOp(file: nat, data: seq<byte>)

  /** A regular file with every block its size reaches. */
  ghost predicate GoodFile(d: seq<byte>, g: Geo, i: nat) {
    Wf(d, g) && ValidInode(g, i) && Kind(GetInode(d, g, i)) == FILE && Allocated(d, g, i)
  }

  /** Inode 1 is never written: the driver takes it for a failed lookup. */
  ghost predicate CanWrite(d: seq<byte>, g: Geo, op: WriteOp)
    requires Frontier(d, g)
  {
    && GoodFile(d, g, op.file) && op.file != 1
    && if Size(GetInode(d, g, op.file)) == 0 then Room(d, g, op.file, |op.data|)
       else AppendFits(d, g, op.file, |op.data|)
  }

  ghost function DoWrite(d: seq<byte>, g: Geo, op: WriteOp): (d': seq<byte>)
    requires Frontier(d, g) && CanWrite(d, g, op)
    ensures Frontier(d', g)
  {
    if Size(GetInode(d, g, op.file)) == 0 then
      FreshFrontier(d, g, op.file, op.data);
      Fresh(d, g, op.file, op.data)
    else
      AppendFrontier(d, g, op.file, op.data);
      Append(d, g, op.file, op.data)
  }

  /** What inode j reads as. */
  ghost function Holds(d: seq<byte>, g: Geo, j: nat): seq<byte>
    requires GoodFile(d, g, j)
  {
    AllocatedReadable(d, g, j);
    FileContent(d, g, j)
  }

  lemma AppendAllocated(d: seq<byte>, g: Geo, i: nat, data: seq<byte>)
    requires GoodFile(d, g, i) && AppendFits(d, g, i, |data|)
    ensures GoodFile(Append(d, g, i, data), g, i)
  {
    AppendWf(d, g, i, data);
    AppendRecords(d, g, i, data);
    var r := GetInode(d, g, i);
    GrownFields(r, |data|);
    forall k | 0 <= k < DIRECT && BLOCK * k < Size(Grown(r, |data|)) ensures Pointer(Grown(r, |data|), k) != 0 {
      assert BLOCK * k < Size(r) || k == Size(r) / BLOCK;
    }
  }

  lemma FreshAllocated(d: seq<byte>, g: Geo, i: nat, data: seq<byte>)
    requires GoodFile(d, g, i) && FreshFits(d, g, i, |data|)
    ensures FreshRuns(d, g, i, |data|) && GoodFile(Fresh(d, g, i, data), g, i)
  {
    FreshWf(d, g, i, data);
    FreshRecords(d, g, i, data);
    var r, b := GetInode(d, g, i), NextBlock(d, g, 0);
    StartedFields(r, b, |data|);
    forall k | 0 <= k < DIRECT && BLOCK * k < Size(Started(r, b, |data|))
      ensures Pointer(Started(r, b, |data|), k) != 0
    {
      assert k == 0;
    }
  }

  /** One write: the file written grows by exactly the data, every other file is untouched. */
  lemma WriteEffect(d: seq<byte>, g: Geo, op: WriteOp, j: nat)
    requires Frontier(d, g) && CanWrite(d, g, op) && GoodFile(d, g, j)
    ensures GoodFile(DoWrite(d, g, op), g, j)
    ensures Holds(DoWrite(d, g, op), g, j) == Holds(d, g, j) + if j == op.file then op.data else []
  {
    var i := op.file;
    if Size(GetInode(d, g, i)) == 0 {
      RoomFits(d, g, i, |op.data|);
      FirstEffect(d, g, i, op.data, j);
    } else if j == i {
      AppendAllocated(d, g, i, op.data);
      AppendContent(d, g, i, op.data);
    } else {
      AppendWf(d, g, i, op.data);
      AppendOthers(d, g, i, op.data, j);
    }
  }

  lemma FirstEffect(d: seq<byte>, g: Geo, i: nat, data: seq<byte>, j: nat)
    requires GoodFile(d, g, i) && FreshFits(d, g, i, |data|) && GoodFile(d, g, j)
    ensures FreshRuns(d, g, i, |data|) && GoodFile(Fresh(d, g, i, data), g, j)
    ensures Holds(Fresh(d, g, i, data), g, j) == Holds(d, g, j) + if j == i then data else []
  {
    if j == i {
      FreshAllocated(d, g, i, data);
      FreshContent(d, g, i, data);
      EmptyHolds(d, g, i);
      assert [] + data == data;
    } else {
      FreshWf(d, g, i, data);
      FreshOther(d, g, i, data, j);
    }
  }

  lemma EmptyHolds(d: seq<byte>, g: Geo, i: nat)
    requires GoodFile(d, g, i) && Size(GetInode(d, g, i)) == 0
    ensures Holds(d, g, i) == []
  {
  }

  lemma FreshOther(d: seq<byte>, g: Geo, i: nat, data: seq<byte>, j: nat)
    requires GoodFile(d, g, j) && FreshFits(d, g, i, |data|) && j != i
    ensures FreshRuns(d, g, i, |data|)
    ensures MetaOk(Fresh(d, g, i, data), g) && GetInode(Fresh(d, g, i, data), g, j) == GetInode(d, g, j)
    ensures Readable(Fresh(d, g, i, data), GetInode(d, g, j))
    ensures Content(Fresh(d, g, i, data), GetInode(d, g, j)) == Holds(d, g, j)
  {
    FreshRecords(d, g, i, data);
    var d3, r := Fresh(d, g, i, data), GetInode(d, g, j);
    OwnedKept(d, d3, g, NextBlock(d, g, 0));
    AllocatedReadable(d, g, j);
    forall k | 0 <= k < DIRECT && BLOCK * k < Size(r)
      ensures InDisk(d3, Pointer(r, k)) && Blk(d3, Pointer(r, k)) == Blk(d, Pointer(r, k))
    {
      assert Owns(d, g, j, k);
    }
    ContentSame(d, d3, r);
  }

  // ----- whole runs -----

  ghost predicate CanRun(d: seq<byte>, g: Geo, ops: seq<WriteOp>)
    requires Frontier(d, g)
    decreases |ops|
  {
    ops == [] || (CanWrite(d, g, ops[0]) && CanRun(DoWrite(d, g, ops[0]), g, ops[1..]))
  }

  ghost function RunWrites(d: seq<byte>, g: Geo, ops: seq<WriteOp>): (d': seq<byte>)
    requires Frontier(d, g) && CanRun(d, g, ops)
    ensures Frontier(d', g)
    decreases |ops|
  {
    if ops == [] then d else RunWrites(DoWrite(d, g, ops[0]), g, ops[1..])
  }

  /** Everything written to file j, in order. */
  function WrittenTo(ops: seq<WriteOp>, j: nat): seq<byte>
    decreases |ops|
  {
    if ops == [] then [] else (if j == ops[0].file then ops[0].data else []) + WrittenTo(ops[1..], j)
  }

  /** After any run of writes the image is well formed and every regular file holds its old contents
      followed by exactly what was written to it, in order.  Of the allocator only the frontier of the first
      image is assumed. */
  lemma {:induction false} RunContents(d: seq<byte>, g: Geo, ops: seq<WriteOp>, j: nat)
    requires Frontier(d, g) && CanRun(d, g, ops) && GoodFile(d, g, j)
    ensures GoodFile(RunWrites(d, g, ops), g, j)
    ensures Holds(RunWrites(d, g, ops), g, j) == Holds(d, g, j) + WrittenTo(ops, j)
    decreases |ops|
  {
    if ops == [] {
      assert Holds(d, g, j) + [] == Holds(d, g, j);
    } else {
      var d', piece := DoWrite(d, g, ops[0]), if j == ops[0].file then ops[0].data else [];
      WriteEffect(d, g, ops[0], j);
      RunContents(d', g, ops[1..], j);
      Assoc(Holds(d, g, j), piece, WrittenTo(ops[1..], j));
    }
  }

  /** After any run of writes every path through directories leads where it did. */
  lemma {:induction false} RunKeepsPaths(d: seq<byte>, g: Geo, ops: seq<WriteOp>, comps: seq<seq<byte>>)
    requires Frontier(d, g) && CanRun(d, g, ops) && DirPath(d, g, ROOT, comps)
    ensures var d' := RunWrites(d, g, ops);
      && WalkOk(d, g, ROOT, comps) && WalkOk(d', g, ROOT, comps) && DirPath(d', g, ROOT, comps)
      && Walk(d', g, 0, ROOT, comps) == Walk(d, g, 0, ROOT, comps)
    decreases |ops|
  {
    DirPathWalk(d, g, ROOT, comps);
    if ops != [] {
      WriteKeepsPaths(d, g, ops[0], comps);
      RunKeepsPaths(DoWrite(d, g, ops[0]), g, ops[1..], comps);
    }
  }

  lemma WriteKeepsPaths(d: seq<byte>, g: Geo, op: WriteOp, comps: seq<seq<byte>>)
    requires Frontier(d, g) && CanWrite(d, g, op) && DirPath(d, g, ROOT, comps)
    ensures var d' := DoWrite(d, g, op);
      && WalkOk(d, g, ROOT, comps) && WalkOk(d', g, ROOT, comps) && DirPath(d', g, ROOT, comps)
      && Walk(d', g, 0, ROOT, comps) == Walk(d, g, 0, ROOT, comps)
  {
    if Size(GetInode(d, g, op.file)) == 0 {
      RoomFits(d, g, op.file, |op.data|);
      FreshKeepsPaths(d, g, op.file, op.data, comps);
    } else {
      AppendKeepsPaths(d, g, op.file, op.data, comps);
    }
  }

  lemma Assoc(a: seq<byte>, b: seq<byte>, c: seq<byte>)
    ensures (a + b) + c == a + (b + c)
  {
  }
}
