/** Block allocation by counting (ext2_alloc_block) and the first write to an empty file. */
module Ext2Alloc {
  import opened Bytes
  import opened Ext2Layout
  import opened Ext2Files

  /** The unallocated-block count of a group's descriptor. */
  function FreeCount(d: seq<byte>, g: Geo, x: nat): u16
    requires InDisk(d, g.firstBgd) && DESCRIPTOR * x + DESCRIPTOR <= BLOCK
  {
    U16(Blk(d, g.firstBgd), DESCRIPTOR * x + 12)
  }

  /** The unallocated-block count of the superblock. */
  function SuperFree(d: seq<byte>, g: Geo): u32
    requires InDisk(d, g.sbBlock)
  {
    U32(Blk(d, g.sbBlock), 12)
  }

  /** The first group from x on with a free block, or the number of groups. */
  function GroupWithRoom(d: seq<byte>, g: Geo, x: nat): (r: nat)
    requires InDisk(d, g.firstBgd) && DESCRIPTOR * g.bgs <= BLOCK && x <= g.bgs
    ensures x <= r <= g.bgs
    ensures r < g.bgs ==> FreeCount(d, g, r) != 0
    ensures forall y :: x <= y < r ==> FreeCount(d, g, y) == 0
    decreases g.bgs - x
  {
    if x == g.bgs || FreeCount(d, g, x) != 0 then x else GroupWithRoom(d, g, x + 1)
  }

  predicate AllocOk(d: seq<byte>, g: Geo) {
    && DESCRIPTOR * g.bgs <= BLOCK && InDisk(d, g.firstBgd) && InDisk(d, g.sbBlock)
    && (g.bgs > 0 ==> InDisk(d, g.firstBgd + (g.bgs - 1)))
  }

  /** The block number handed out: counted from the end by the free blocks of the chosen group. */
  function NextBlock(d: seq<byte>, g: Geo, x: nat): u32
    requires InDisk(d, g.firstBgd) && DESCRIPTOR * x + DESCRIPTOR <= BLOCK
  {
    Wrap(g.blocks as int - FreeCount(d, g, x) + 1)
  }

  /** The descriptor block with group x's count stepped down; it is written to block firstBgd + x. */
  function TakeFrom(d: seq<byte>, g: Geo, x: nat): (d': seq<byte>)
    requires AllocOk(d, g) && x < g.bgs && FreeCount(d, g, x) != 0
    ensures |d'| == |d|
  {
    PutBlk(d, g.firstBgd + x, Splice(Blk(d, g.firstBgd), DESCRIPTOR * x + 12, LE16(FreeCount(d, g, x) - 1)))
  }

  function TakeFromSuper(d: seq<byte>, g: Geo): (d': seq<byte>)
    requires InDisk(d, g.sbBlock)
    ensures |d'| == |d|
  {
    PutBlk(d, g.sbBlock, Splice(Blk(d, g.sbBlock), 12, LE32(Wrap(SuperFree(d, g) as int - 1))))
  }

  /** Allocation from group x. */
  function AllocIn(d: seq<byte>, g: Geo, x: nat): (d': seq<byte>)
    requires AllocOk(d, g) && x < g.bgs && FreeCount(d, g, x) != 0
    ensures |d'| == |d|
  {
    TakeFromSuper(TakeFrom(d, g, x), g)
  }

  lemma PutBlkReads(d: seq<byte>, b: nat, x: seq<byte>, c: nat)
    requires InDisk(d, b) && InDisk(d, c) && |x| == BLOCK
    ensures Blk(PutBlk(d, b, x), c) == if b == c then x else Blk(d, c)
  {
    SpliceSlice(d, BLOCK * b, x, BLOCK * c, BLOCK * c + BLOCK);
  }

  lemma TakeFirst(d: seq<byte>, g: Geo)
    requires AllocOk(d, g) && g.bgs > 0 && g.firstBgd != g.sbBlock && FreeCount(d, g, 0) != 0
    ensures var d1 := TakeFrom(d, g, 0);
      && FreeCount(d1, g, 0) == FreeCount(d, g, 0) - 1 && SuperFree(d1, g) == SuperFree(d, g)
      && d1 == Splice(d, BLOCK * g.firstBgd + 12, LE16(FreeCount(d, g, 0) - 1))
  {
    var n := LE16(FreeCount(d, g, 0) - 1);
    var desc := Splice(Blk(d, g.firstBgd), 12, n);
    PutBlkReads(d, g.firstBgd, desc, g.firstBgd);
    PutBlkReads(d, g.firstBgd, desc, g.sbBlock);
    assert desc[12..14] == n;
    U16Stored(desc, 12, FreeCount(d, g, 0) - 1);
    SplicePatch(d, BLOCK * g.firstBgd, BLOCK, 12, n);
  }

  lemma TakeSuper(d: seq<byte>, g: Geo)
    requires InDisk(d, g.firstBgd) && InDisk(d, g.sbBlock) && g.firstBgd != g.sbBlock
    ensures var d1 := TakeFromSuper(d, g);
      && SuperFree(d1, g) == Wrap(SuperFree(d, g) as int - 1) && Blk(d1, g.firstBgd) == Blk(d, g.firstBgd)
      && d1 == Splice(d, BLOCK * g.sbBlock + 12, LE32(Wrap(SuperFree(d, g) as int - 1)))
  {
    var n := LE32(Wrap(SuperFree(d, g) as int - 1));
    var super := Splice(Blk(d, g.sbBlock), 12, n);
    PutBlkReads(d, g.sbBlock, super, g.firstBgd);
    PutBlkReads(d, g.sbBlock, super, g.sbBlock);
    assert super[12..16] == n;
    U32Stored(super, 12, Wrap(SuperFree(d, g) as int - 1));
    SplicePatch(d, BLOCK * g.sbBlock, BLOCK, 12, n);
  }

  /** What taking a block from group x does to the bytes of the disk: block `firstBgd + x` becomes a copy of the
      descriptor block in which x's count is one less, the superblock's count is one less, and no other byte
      changes. */
  ghost predicate AllocEffect(d: seq<byte>, d': seq<byte>, g: Geo, x: nat) {
    CountsTaken(d, d', 1024 * g.firstBgd, 1024 * (g.firstBgd + x), 32 * x + 12, 1024 * g.sbBlock + 12)
  }

  ghost predicate CountsTaken(d: seq<byte>, d': seq<byte>, from: nat, to: nat, o: nat, super: nat) {
    && |d'| == |d| && super + 4 <= |d|
    && SteppedCopy(d, d', from, to, o)
    && U32(d', super) == Wrap(U32(d, super) as int - 1)
    && (forall n :: 0 <= n < |d| && !(to <= n < to + 1024) && !(super <= n < super + 4) ==> d'[n] == d[n])
  }

  /** The 1024 bytes at `to` are those that were at `from`, but for the count at offset o, which is one less. */
  ghost predicate SteppedCopy(d: seq<byte>, d': seq<byte>, from: nat, to: nat, o: nat) {
    && from + 1024 <= |d| && to + 1024 <= |d'| && o + 2 <= 1024
    && d'[to..to + o] == d[from..from + o] && d'[to + o + 2..to + 1024] == d[from + o + 2..from + 1024]
    && U16(d', to + o) == U16(d, from + o) as int - 1
  }

  /** The counts and the number handed out, by their bytes on the disk. */
  lemma CountsOnDisk(d: seq<byte>, g: Geo, x: nat)
    requires InDisk(d, g.firstBgd) && InDisk(d, g.sbBlock) && 32 * x + 32 <= 1024
    ensures FreeCount(d, g, x) == U16(d, 1024 * g.firstBgd + (32 * x + 12))
    ensures SuperFree(d, g) == U32(d, 1024 * g.sbBlock + 12)
    ensures NextBlock(d, g, x) == Wrap(g.blocks as int - U16(d, 1024 * g.firstBgd + (32 * x + 12)) + 1)
  {
    var at, o := 1024 * g.firstBgd, 32 * x + 12;
    assert Blk(d, g.firstBgd)[o] == d[at + o] && Blk(d, g.firstBgd)[o + 1] == d[at + o + 1];
    SubSlice(d, 1024 * g.sbBlock, 1024, 12, 4);
    U32Local(Blk(d, g.sbBlock), 12, d, 1024 * g.sbBlock + 12);
  }

  /** The whole disk after an allocation. */
  lemma AllocBytes(d: seq<byte>, g: Geo, x: nat)
    requires AllocOk(d, g) && x < g.bgs && FreeCount(d, g, x) != 0 && g.firstBgd + x != g.sbBlock
    ensures AllocEffect(d, AllocIn(d, g, x), g, x)
  {
    TakeFromBytes(d, g, x);
    TakeSuperBytes(TakeFrom(d, g, x), g);
    BothTaken(d, TakeFrom(d, g, x), AllocIn(d, g, x), g, x);
  }

  /** The first half of an allocation: the descriptors copied with one count less. */
  ghost predicate GroupTaken(d: seq<byte>, d1: seq<byte>, g: Geo, x: nat) {
    var to := 1024 * (g.firstBgd + x);
    && |d1| == |d| && SteppedCopy(d, d1, 1024 * g.firstBgd, to, 32 * x + 12)
    && forall n :: 0 <= n < |d| && !(to <= n < to + 1024) ==> d1[n] == d[n]
  }

  /** The second half: the superblock's count. */
  ghost predicate SuperTaken(d1: seq<byte>, d': seq<byte>, g: Geo) {
    var super := 1024 * g.sbBlock + 12;
    && |d'| == |d1| && super + 4 <= |d1| && U32(d', super) == Wrap(U32(d1, super) as int - 1)
    && forall n :: 0 <= n < |d1| && !(super <= n < super + 4) ==> d'[n] == d1[n]
  }

  lemma BothTaken(d: seq<byte>, d1: seq<byte>, d': seq<byte>, g: Geo, x: nat)
    requires GroupTaken(d, d1, g, x) && SuperTaken(d1, d', g) && g.firstBgd + x != g.sbBlock
    ensures AllocEffect(d, d', g, x)
  {
    var to, super := 1024 * (g.firstBgd + x), 1024 * g.sbBlock + 12;
    SameField(d, d1, to, to + 1024, super);
    CopyKept(d, d1, d', 1024 * g.firstBgd, to, 32 * x + 12, super, super + 4);
  }

  lemma SameField(d: seq<byte>, d': seq<byte>, from: nat, to: nat, at: nat)
    requires |d'| == |d| && at + 4 <= |d| && (at + 4 <= from || to <= at)
    requires forall n :: 0 <= n < |d| && !(from <= n < to) ==> d'[n] == d[n]
    ensures U32(d', at) == U32(d, at)
  {
    RangeKept(d, d', from, to, at, at + 4);
    U32Local(d', at, d, at);
  }

  lemma CopyKept(d: seq<byte>, d1: seq<byte>, d': seq<byte>, from: nat, to: nat, o: nat, lo: nat, hi: nat)
    requires SteppedCopy(d, d1, from, to, o) && |d'| == |d1| && (to + 1024 <= lo || hi <= to)
    requires forall n :: 0 <= n < |d1| && !(lo <= n < hi) ==> d'[n] == d1[n]
    ensures SteppedCopy(d, d', from, to, o)
  {
    RangeKept(d1, d', lo, hi, to, to + o);
    RangeKept(d1, d', lo, hi, to + o + 2, to + 1024);
  }

  lemma TakeFromBytes(d: seq<byte>, g: Geo, x: nat)
    requires AllocOk(d, g) && x < g.bgs && FreeCount(d, g, x) != 0
    ensures GroupTaken(d, TakeFrom(d, g, x), g, x)
  {
    CountsOnDisk(d, g, x);
    CopyStepped(d, 1024 * g.firstBgd, 1024 * (g.firstBgd + x), 32 * x + 12, TakeFrom(d, g, x));
  }

  lemma CopyStepped(d: seq<byte>, from: nat, to: nat, o: nat, d': seq<byte>)
    requires from + 1024 <= |d| && to + 1024 <= |d| && o + 2 <= 1024 && U16(d, from + o) != 0
    requires d' == Splice(d, to, Splice(d[from..from + 1024], o, LE16(U16(d, from + o) - 1)))
    ensures SteppedCopy(d, d', from, to, o)
  {
    var n := U16(d, from + o) - 1;
    var was, desc := CopyIs(d, from, to, o, LE16(n), d');
    CopyParts(d, d', from, to, was, desc, o);
    FieldStored(d', to, desc, was, o, n);
  }

  lemma CopyIs(d: seq<byte>, from: nat, to: nat, o: nat, cell: seq<byte>, d': seq<byte>)
    returns (was: seq<byte>, desc: seq<byte>)
    requires from + 1024 <= |d| && to + 1024 <= |d| && o + |cell| <= 1024
    requires d' == Splice(d, to, Splice(d[from..from + 1024], o, cell))
    ensures |d'| == |d| && was == d[from..from + 1024] && |desc| == 1024 && desc == d'[to..to + 1024]
    ensures desc == Splice(was, o, cell)
  {
    was := d[from..from + 1024];
    desc := Splice(was, o, cell);
    SpliceSlice(d, to, desc, to, to + 1024);
  }

  lemma CopyParts(d: seq<byte>, d': seq<byte>, from: nat, to: nat, was: seq<byte>, desc: seq<byte>, o: nat)
    requires from + 1024 <= |d| && to + 1024 <= |d'| && o + 2 <= 1024 && |desc| == 1024
    requires was == d[from..from + 1024] && desc == d'[to..to + 1024]
    requires forall n :: 0 <= n < 1024 && !(o <= n < o + 2) ==> desc[n] == was[n]
    ensures d'[to..to + o] == d[from..from + o] && d'[to + o + 2..to + 1024] == d[from + o + 2..from + 1024]
  {
    RangeKept(was, desc, o, o + 2, 0, o);
    RangeKept(was, desc, o, o + 2, o + 2, 1024);
    PartSame(d', to, desc, d, from, was, 0, o);
    PartSame(d', to, desc, d, from, was, o + 2, 1024);
  }

  /** The same part of two blocks that agree there. */
  lemma PartSame(d: seq<byte>, at: nat, blk: seq<byte>, d': seq<byte>, at': nat, blk': seq<byte>, lo: nat, hi: nat)
    requires at + 1024 <= |d| && at' + 1024 <= |d'| && blk == d[at..at + 1024] && blk' == d'[at'..at' + 1024]
    requires lo <= hi <= 1024 && blk[lo..hi] == blk'[lo..hi]
    ensures d[at + lo..at + hi] == d'[at' + lo..at' + hi]
  {
    SubSlice(d, at, 1024, lo, hi - lo);
    SubSlice(d', at', 1024, lo, hi - lo);
  }

  lemma FieldStored(d: seq<byte>, at: nat, blk: seq<byte>, was: seq<byte>, o: nat, n: u16)
    requires at + 1024 <= |d| && blk == d[at..at + 1024] && |was| == 1024 && o + 2 <= 1024
    requires blk == Splice(was, o, LE16(n))
    ensures U16(d, at + o) == n
  {
    SubSlice(d, at, 1024, o, 2);
    SpliceSlice(was, o, LE16(n), o, o + 2);
    U16Stored(d, at + o, n);
  }

  lemma TakeSuperBytes(d: seq<byte>, g: Geo)
    requires InDisk(d, g.sbBlock)
    ensures SuperTaken(d, TakeFromSuper(d, g), g)
  {
    var super := 1024 * g.sbBlock;
    SubSlice(d, super, 1024, 12, 4);
    U32Local(Blk(d, g.sbBlock), 12, d, super + 12);
    var n := Wrap(SuperFree(d, g) as int - 1);
    SplicePatch(d, super, 1024, 12, LE32(n));
    var d1 := TakeFromSuper(d, g);
    assert d1[super + 12..super + 12 + 4] == LE32(n);
    U32Stored(d1, super + 12, n);
  }

  /** Allocating from group 0 steps both counts down by one and touches no other byte. */
  lemma AllocFirstGroup(d: seq<byte>, g: Geo)
    requires AllocOk(d, g) && g.bgs > 0 && g.firstBgd != g.sbBlock && FreeCount(d, g, 0) != 0
    ensures var d' := AllocIn(d, g, 0);
      && FreeCount(d', g, 0) == FreeCount(d, g, 0) - 1 && SuperFree(d', g) == Wrap(SuperFree(d, g) as int - 1)
      && SameExceptCounts(d, d', g)
  {
    TakeFirst(d, g);
    TakeSuper(TakeFrom(d, g, 0), g);
  }

  /** The two bytes of group 0's count and the four of the superblock's. */
  predicate IsCount(g: Geo, n: nat) {
    || BLOCK * g.firstBgd + 12 <= n < BLOCK * g.firstBgd + 14
    || BLOCK * g.sbBlock + 12 <= n < BLOCK * g.sbBlock + 16
  }

  /** Only the two bytes of group 0's count and the four of the superblock's may differ. */
  ghost predicate SameExceptCounts(d: seq<byte>, d': seq<byte>, g: Geo) {
    && |d'| == |d|
    && forall n :: 0 <= n < |d| && !IsCount(g, n) ==> d'[n] == d[n]
  }

  /** One allocation on an image with a single group: the number handed out and the disk after it. */
  ghost predicate AllocStep(d: seq<byte>, g: Geo, out: u32, d': seq<byte>) {
    && AllocOk(d, g) && g.bgs == 1 && FreeCount(d, g, 0) != 0
    && out == NextBlock(d, g, 0) && d' == AllocIn(d, g, 0)
  }

  /** Successive allocations: the numbers handed out and the disks in between. */
  ghost predicate AllocRun(g: Geo, outs: seq<u32>, disks: seq<seq<byte>>) {
    |disks| == |outs| + 1 && forall j :: 0 <= j < |outs| ==> AllocStep(disks[j], g, outs[j], disks[j + 1])
  }

  lemma StepState(d: seq<byte>, g: Geo, out: u32, d': seq<byte>)
    requires AllocStep(d, g, out, d') && g.firstBgd != g.sbBlock
    requires FreeCount(d, g, 0) <= g.blocks && SuperFree(d, g) != 0
    ensures AllocOk(d', g) && out == g.blocks - FreeCount(d, g, 0) + 1 && SameExceptCounts(d, d', g)
    ensures FreeCount(d', g, 0) == FreeCount(d, g, 0) - 1 && SuperFree(d', g) == SuperFree(d, g) - 1
  {
    AllocFirstGroup(d, g);
  }

  /** The disk after j allocations. */
  ghost predicate Taken(d: seq<byte>, d': seq<byte>, g: Geo, j: nat) {
    && AllocOk(d, g) && AllocOk(d', g) && g.bgs == 1
    && FreeCount(d', g, 0) == FreeCount(d, g, 0) as int - j && SuperFree(d', g) == SuperFree(d, g) as int - j
    && SameExceptCounts(d, d', g)
  }

  lemma TakenStep(d: seq<byte>, dj: seq<byte>, g: Geo, j: nat, out: u32, d': seq<byte>)
    requires Taken(d, dj, g, j) && AllocStep(dj, g, out, d') && g.firstBgd != g.sbBlock
    requires FreeCount(d, g, 0) <= g.blocks && j < SuperFree(d, g)
    ensures Taken(d, d', g, j + 1) && out == g.blocks - FreeCount(d, g, 0) + 1 + j
  {
    StepState(dj, g, out, d');
  }

  lemma {:induction false} RunTaken(g: Geo, outs: seq<u32>, disks: seq<seq<byte>>, j: nat)
    requires AllocRun(g, outs, disks) && AllocOk(disks[0], g) && g.bgs == 1 && g.firstBgd != g.sbBlock && j <= |outs|
    requires FreeCount(disks[0], g, 0) <= g.blocks && |outs| <= SuperFree(disks[0], g)
    ensures Taken(disks[0], disks[j], g, j)
    ensures j < |outs| ==> outs[j] == g.blocks - FreeCount(disks[0], g, 0) + 1 + j
    decreases j
  {
    if j > 0 {
      RunTaken(g, outs, disks, j - 1);
      assert AllocStep(disks[j - 1], g, outs[j - 1], disks[j]);
      TakenStep(disks[0], disks[j - 1], g, j - 1, outs[j - 1], disks[j]);
    }
    if j < |outs| {
      assert AllocStep(disks[j], g, outs[j], disks[j + 1]);
      TakenStep(disks[0], disks[j], g, j, outs[j], disks[j + 1]);
    }
  }

  /** With one block group, successive allocations return strictly increasing, so distinct, block numbers,
      take their number from both counts, and change no other byte. */
  lemma AllocManyDistinct(g: Geo, outs: seq<u32>, disks: seq<seq<byte>>)
    requires AllocRun(g, outs, disks) && AllocOk(disks[0], g) && g.bgs == 1 && g.firstBgd != g.sbBlock
    requires FreeCount(disks[0], g, 0) <= g.blocks && |outs| <= SuperFree(disks[0], g)
    ensures forall j, l :: 0 <= j < l < |outs| ==> outs[j] < outs[l]
    ensures Taken(disks[0], disks[|outs|], g, |outs|)
  {
    RunTaken(g, outs, disks, |outs|);
    forall j, l | 0 <= j < l < |outs| ensures outs[j] < outs[l] {
      RunTaken(g, outs, disks, j);
      RunTaken(g, outs, disks, l);
    }
  }

  lemma SameBlkCount(d: seq<byte>, d': seq<byte>, g: Geo, y: nat)
    requires InDisk(d, g.firstBgd) && InDisk(d', g.firstBgd) && Blk(d', g.firstBgd) == Blk(d, g.firstBgd)
    requires DESCRIPTOR * y + DESCRIPTOR <= BLOCK
    ensures FreeCount(d', g, y) == FreeCount(d, g, y) && NextBlock(d', g, y) == NextBlock(d, g, y)
  {
  }

  lemma SameDescriptors(d: seq<byte>, d': seq<byte>, g: Geo, x: nat)
    requires InDisk(d, g.firstBgd) && |d'| == |d| && DESCRIPTOR * g.bgs <= BLOCK && x == GroupWithRoom(d, g, 0) < g.bgs
    requires Blk(d', g.firstBgd) == Blk(d, g.firstBgd)
    ensures GroupWithRoom(d', g, 0) == x && NextBlock(d', g, x) == NextBlock(d, g, x)
  {
    forall y | 0 <= y < g.bgs ensures FreeCount(d', g, y) == FreeCount(d, g, y) {
      SameBlkCount(d, d', g, y);
    }
    SameCountsSameGroup(d, d', g, 0);
    SameBlkCount(d, d', g, x);
  }

  /** When the first group with room is not group 0, the descriptor copy goes to the wrong block and the
      next allocation hands out the same number again. */
  lemma LaterGroupRepeats(d: seq<byte>, g: Geo, x: nat)
    requires AllocOk(d, g) && x == GroupWithRoom(d, g, 0) && 0 < x < g.bgs && g.firstBgd != g.sbBlock
    ensures var d' := AllocIn(d, g, x);
      GroupWithRoom(d', g, 0) == x && NextBlock(d', g, x) == NextBlock(d, g, x)
  {
    var desc := Splice(Blk(d, g.firstBgd), DESCRIPTOR * x + 12, LE16(FreeCount(d, g, x) - 1));
    PutBlkReads(d, g.firstBgd + x, desc, g.firstBgd);
    TakeSuper(TakeFrom(d, g, x), g);
    SameDescriptors(d, AllocIn(d, g, x), g, x);
  }

  /** An allocation from group 0 leaves the counts of the other groups alone. */
  lemma OtherCounts(d: seq<byte>, d': seq<byte>, g: Geo, y: nat)
    requires InDisk(d, g.firstBgd) && SameExceptCounts(d, d', g) && g.firstBgd != g.sbBlock
    requires 0 < y && DESCRIPTOR * y + DESCRIPTOR <= BLOCK
    ensures FreeCount(d', g, y) == FreeCount(d, g, y)
  {
    var o := BLOCK * g.firstBgd + (DESCRIPTOR * y + 12);
    assert !IsCount(g, o) && !IsCount(g, o + 1);
    assert Blk(d, g.firstBgd)[DESCRIPTOR * y + 12] == d[o] && Blk(d', g.firstBgd)[DESCRIPTOR * y + 12] == d'[o];
    assert Blk(d, g.firstBgd)[DESCRIPTOR * y + 13] == d[o + 1] && Blk(d', g.firstBgd)[DESCRIPTOR * y + 13] == d'[o + 1];
  }

  lemma {:induction false} SameCountsSameGroup(d: seq<byte>, d': seq<byte>, g: Geo, x: nat)
    requires InDisk(d, g.firstBgd) && InDisk(d', g.firstBgd) && DESCRIPTOR * g.bgs <= BLOCK && x <= g.bgs
    requires forall y :: x <= y < g.bgs ==> FreeCount(d', g, y) == FreeCount(d, g, y)
    ensures GroupWithRoom(d', g, x) == GroupWithRoom(d, g, x)
    decreases g.bgs - x
  {
    if x < g.bgs {
      assert FreeCount(d', g, x) == FreeCount(d, g, x);
      SameCountsSameGroup(d, d', g, x + 1);
    }
  }

  /** The group the allocation after one from group x takes, or the number of groups. */
  function GroupAfter(d: seq<byte>, g: Geo, x: nat): (y: nat)
    requires InDisk(d, g.firstBgd) && DESCRIPTOR * g.bgs <= BLOCK && x < g.bgs
  {
    if x == 0 && FreeCount(d, g, 0) == 1 then GroupWithRoom(d, g, 1) else x
  }

  lemma FirstGroupAfter(d: seq<byte>, g: Geo)
    requires AllocOk(d, g) && g.bgs > 0 && g.firstBgd != g.sbBlock && FreeCount(d, g, 0) != 0
    ensures var d', y := AllocIn(d, g, 0), GroupAfter(d, g, 0);
      && GroupWithRoom(d', g, 0) == y && FreeCount(d', g, 0) == FreeCount(d, g, 0) - 1
      && (0 < y < g.bgs ==> FreeCount(d', g, y) == FreeCount(d, g, y))
  {
    var d' := AllocIn(d, g, 0);
    AllocFirstGroup(d, g);
    forall y | 1 <= y < g.bgs ensures FreeCount(d', g, y) == FreeCount(d, g, y) {
      OtherCounts(d, d', g, y);
    }
    SameCountsSameGroup(d, d', g, 1);
    assert GroupWithRoom(d', g, 0) == if FreeCount(d', g, 0) != 0 then 0 else GroupWithRoom(d', g, 1);
  }

  lemma CountsDiffer(blocks: u32, f: u16, f': u16)
    ensures Wrap(blocks as int - f + 1) == Wrap(blocks as int - f' + 1) <==> f == f'
  {
  }

  /** Two allocations in a row hand out different blocks exactly when the first one comes from group 0 and
      the second one again from group 0, or, group 0 being used up, from a group with more than one free
      block. */
  lemma NextDiffersExactly(d: seq<byte>, g: Geo, x: nat)
    requires AllocOk(d, g) && x == GroupWithRoom(d, g, 0) < g.bgs && g.firstBgd != g.sbBlock
    ensures var d', y := AllocIn(d, g, x), GroupAfter(d, g, x);
      && GroupWithRoom(d', g, 0) == y
      && (y < g.bgs ==> (NextBlock(d', g, y) != NextBlock(d, g, x) <==> x == 0 && (y == 0 || FreeCount(d, g, y) != 1)))
  {
    var d', y := AllocIn(d, g, x), GroupAfter(d, g, x);
    if x == 0 {
      FirstGroupAfter(d, g);
      if y < g.bgs {
        CountsDiffer(g.blocks, FreeCount(d', g, y), FreeCount(d, g, x));
      }
    } else {
      LaterGroupRepeats(d, g, x);
    }
  }

  /** Descriptors of two groups with the given free counts, in block 2 of a disk of four blocks. */
  function TwoGroups(n: byte, m: byte): (d: seq<byte>)
    ensures |d| == 4 * BLOCK
  {
    seq(4 * BLOCK, o => if o == 2060 then n else if o == 2092 then m else 0)
  }

  lemma TwoCounts(n: byte, m: byte)
    ensures var d, g := TwoGroups(n, m), Geo(2, 2, 8, 2, 1, 100);
      AllocOk(d, g) && FreeCount(d, g, 0) == n && FreeCount(d, g, 1) == m
  {
    var d := TwoGroups(n, m);
    assert Blk(d, 2)[12] == n && Blk(d, 2)[13] == 0 && Blk(d, 2)[44] == m && Blk(d, 2)[45] == 0;
  }

  /** Group 0 full and five free blocks in group 1: the next allocation hands out block 96 again. */
  lemma LaterGroupExample()
    ensures var d, g := TwoGroups(0, 5), Geo(2, 2, 8, 2, 1, 100);
      && AllocOk(d, g) && GroupWithRoom(d, g, 0) == 1
      && GroupWithRoom(AllocIn(d, g, 1), g, 0) == 1
      && NextBlock(d, g, 1) == NextBlock(AllocIn(d, g, 1), g, 1) == 96
  {
    var d, g := TwoGroups(0, 5), Geo(2, 2, 8, 2, 1, 100);
    TwoCounts(0, 5);
    GroupUnique(d, g, 0, 1);
    NextDiffersExactly(d, g, 1);
  }

  /** One free block in each of two groups: both allocations hand out block 100. */
  lemma UsedUpExample()
    ensures var d, g := TwoGroups(1, 1), Geo(2, 2, 8, 2, 1, 100);
      && AllocOk(d, g) && GroupWithRoom(d, g, 0) == 0 && FreeCount(d, g, 0) != 0
      && GroupWithRoom(AllocIn(d, g, 0), g, 0) == 1
      && NextBlock(d, g, 0) == NextBlock(AllocIn(d, g, 0), g, 1) == 100
  {
    var d, g := TwoGroups(1, 1), Geo(2, 2, 8, 2, 1, 100);
    TwoCounts(1, 1);
    GroupUnique(d, g, 0, 0);
    GroupUnique(d, g, 1, 1);
    NextDiffersExactly(d, g, 0);
  }

  lemma {:induction false} GroupUnique(d: seq<byte>, g: Geo, from: nat, x: nat)
    requires InDisk(d, g.firstBgd) && DESCRIPTOR * g.bgs <= BLOCK && from <= x < g.bgs
    requires FreeCount(d, g, x) != 0 && forall y :: from <= y < x ==> FreeCount(d, g, y) == 0
    ensures GroupWithRoom(d, g, from) == x
    decreases x - from
  {
    if from < x {
      GroupUnique(d, g, from + 1, x);
    }
  }

  // ----- the first write to an empty file -----

  /** The record with its first pointer set to b and its size grown. */
  function Started(r: seq<byte>, b: u32, n: nat): (r': seq<byte>)
    requires |r| == RECORD
    ensures |r'| == RECORD
  {
    Grown(Splice(r, 40, LE32(b)), n)
  }

  lemma StartedFields(r: seq<byte>, b: u32, n: nat)
    requires |r| == RECORD && Size(r) == 0 && n < TWO32
    ensures Size(Started(r, b, n)) == n && Kind(Started(r, b, n)) == Kind(r) && Pointer(Started(r, b, n), 0) == b
    ensures forall k :: 1 <= k < DIRECT ==> Pointer(Started(r, b, n), k) == Pointer(r, k)
  {
    var s := Splice(r, 40, LE32(b));
    assert s[40..44] == LE32(b);
    U32Stored(s, 40, b);
    assert s[0] == r[0] && s[1] == r[1] && s[4] == r[4] && s[5] == r[5] && s[6] == r[6] && s[7] == r[7];
    forall k | 1 <= k < DIRECT ensures Pointer(s, k) == Pointer(r, k) {
      var o := 40 + 4 * k;
      assert s[o] == r[o] && s[o + 1] == r[o + 1] && s[o + 2] == r[o + 2] && s[o + 3] == r[o + 3];
    }
    GrownFields(s, n);
  }

  /** The number ext2_alloc_block hands out, or zero when no group has room. */
  function Bid(d: seq<byte>, g: Geo): u32
    requires AllocOk(d, g)
  {
    if GroupWithRoom(d, g, 0) == g.bgs then 0 else NextBlock(d, g, GroupWithRoom(d, g, 0))
  }

  function AfterAlloc(d: seq<byte>, g: Geo): (d': seq<byte>)
    requires AllocOk(d, g)
    ensures |d'| == |d|
  {
    if GroupWithRoom(d, g, 0) == g.bgs then d else AllocIn(d, g, GroupWithRoom(d, g, 0))
  }

  /** A first write of less than a block can be carried out: the tables are still in place after the
      allocation and the number handed out is on the disk. */
  ghost predicate FreshRuns(d: seq<byte>, g: Geo, i: nat, n: nat) {
    && MetaOk(d, g) && ValidInode(g, i) && n < BLOCK && AllocOk(d, g)
    && MetaOk(AfterAlloc(d, g), g) && InDisk(d, Bid(d, g))
  }

  /** It also lands where it should: the file is empty and the block is a data block nobody owns. */
  ghost predicate FreshFits(d: seq<byte>, g: Geo, i: nat, n: nat) {
    && Wf(d, g) && ValidInode(g, i) && n < BLOCK && AllocOk(d, g) && g.bgs > 0 && g.firstBgd != g.sbBlock
    && FreeCount(d, g, 0) != 0 && Size(GetInode(d, g, i)) == 0 && InUse(d, g, i)
    && DataBlock(d, g, NextBlock(d, g, 0))
    && (forall j, k :: Owns(d, g, j, k) ==> Ptr(d, g, j, k) != NextBlock(d, g, 0))
  }

  /** With no block free the number stays zero, and that is exactly when a first write leaves a file that has
      no block for its bytes. */
  lemma FreshCoveredExactly(d: seq<byte>, g: Geo, r: seq<byte>, n: nat)
    requires AllocOk(d, g) && |r| == RECORD && Size(r) == 0 && 0 < n < BLOCK
    requires GroupWithRoom(d, g, 0) < g.bgs ==> FreeCount(d, g, GroupWithRoom(d, g, 0)) <= g.blocks
    ensures Covered(Started(r, Bid(d, g), n)) <==> GroupWithRoom(d, g, 0) < g.bgs
  {
    StartedFields(r, Bid(d, g), n);
  }

  lemma FitsRuns(d: seq<byte>, g: Geo, i: nat, n: nat)
    requires FreshFits(d, g, i, n)
    ensures FreshRuns(d, g, i, n) && Bid(d, g) == NextBlock(d, g, 0) && AfterAlloc(d, g) == AllocIn(d, g, 0)
  {
    assert GroupWithRoom(d, g, 0) == 0;
    AllocFirstGroup(d, g);
    CountsKeepTables(d, AllocIn(d, g, 0), g);
  }

  lemma CountsTable(d: seq<byte>, d': seq<byte>, g: Geo, x: nat)
    requires MetaOk(d, g) && SameExceptCounts(d, d', g) && g.firstBgd != g.sbBlock && x < g.groups
    ensures Table(d', g, x) == Table(d, g, x)
  {
    var o := BLOCK * g.firstBgd + (DESCRIPTOR * x + 8);
    assert !IsCount(g, o) && !IsCount(g, o + 1) && !IsCount(g, o + 2) && !IsCount(g, o + 3);
  }

  lemma CountsRange(d: seq<byte>, d': seq<byte>, g: Geo, lo: nat, hi: nat)
    requires SameExceptCounts(d, d', g) && lo <= hi <= |d|
    requires hi <= BLOCK * g.firstBgd || BLOCK * g.firstBgd + BLOCK <= lo
    requires hi <= BLOCK * g.sbBlock || BLOCK * g.sbBlock + BLOCK <= lo
    ensures d'[lo..hi] == d[lo..hi]
  {
    forall n | lo <= n < hi ensures d'[n] == d[n] {
      assert !IsCount(g, n);
    }
  }

  /** The tables, records and data blocks do not depend on the counts. */
  lemma CountsKeepTables(d: seq<byte>, d': seq<byte>, g: Geo)
    requires MetaOk(d, g) && SameExceptCounts(d, d', g) && g.firstBgd != g.sbBlock
    ensures MetaOk(d', g)
    ensures forall j :: ValidInode(g, j) ==>
      InodeAt(d', g, j) == InodeAt(d, g, j) && GetInode(d', g, j) == GetInode(d, g, j)
    ensures forall b :: DataBlock(d, g, b) ==> DataBlock(d', g, b) && Blk(d', b) == Blk(d, b)
  {
    forall x | 0 <= x < g.groups ensures Table(d', g, x) == Table(d, g, x) {
      CountsTable(d, d', g, x);
    }
    MetaKeptByTables(d, d', g);
    forall j | ValidInode(g, j) ensures GetInode(d', g, j) == GetInode(d, g, j) {
      RecordsOutsideMeta(d, g, j);
      InodeAtFlat(d, g, j);
      CountsRange(d, d', g, InodeAt(d, g, j), InodeAt(d, g, j) + RECORD);
    }
    forall b | DataBlock(d, g, b) ensures DataBlock(d', g, b) && Blk(d', b) == Blk(d, b) {
      CountsRange(d, d', g, BLOCK * b, BLOCK * b + BLOCK);
    }
  }

  function FreshRecordWritten(d: seq<byte>, g: Geo, i: nat, n: nat): (d': seq<byte>)
    requires FreshRuns(d, g, i, n)
    ensures |d'| == |d|
  {
    PutInode(AfterAlloc(d, g), g, i, Started(GetInode(d, g, i), Bid(d, g), n))
  }

  /** Allocate, write the record, write the data. */
  function Fresh(d: seq<byte>, g: Geo, i: nat, data: seq<byte>): (d': seq<byte>)
    requires FreshRuns(d, g, i, |data|)
    ensures |d'| == |d|
  {
    Splice(FreshRecordWritten(d, g, i, |data|), BLOCK * Bid(d, g), data)
  }

  /** The first write as a value: the record and the data written to the disk after the allocation. */
  function FreshOn(d1: seq<byte>, g: Geo, i: nat, r: seq<byte>, b: nat, data: seq<byte>): (d': seq<byte>)
    requires MetaOk(d1, g) && ValidInode(g, i) && |r| == RECORD && BLOCK * b + |data| <= |d1|
    ensures |d'| == |d1|
  {
    Splice(PutInode(d1, g, i, r), BLOCK * b, data)
  }

  lemma FreshIs(d: seq<byte>, g: Geo, i: nat, data: seq<byte>)
    requires FreshFits(d, g, i, |data|)
    ensures FreshRuns(d, g, i, |data|) && MetaOk(AllocIn(d, g, 0), g)
    ensures DataBlock(AllocIn(d, g, 0), g, NextBlock(d, g, 0))
    ensures Fresh(d, g, i, data) ==
      FreshOn(AllocIn(d, g, 0), g, i, Started(GetInode(d, g, i), NextBlock(d, g, 0), |data|), NextBlock(d, g, 0), data)
  {
    FitsRuns(d, g, i, |data|);
    AllocFirstGroup(d, g);
    CountsKeepTables(d, AllocIn(d, g, 0), g);
  }

  /** The record after the first write; every other record and every block in use are unchanged. */
  lemma FreshRecords(d: seq<byte>, g: Geo, i: nat, data: seq<byte>)
    requires FreshFits(d, g, i, |data|)
    ensures FreshRuns(d, g, i, |data|)
    ensures var d3, b := Fresh(d, g, i, data), NextBlock(d, g, 0);
      && MetaOk(d3, g) && GetInode(d3, g, i) == Started(GetInode(d, g, i), b, |data|)
      && (forall j :: ValidInode(g, j) && j != i ==> GetInode(d3, g, j) == GetInode(d, g, j))
      && (forall c :: DataBlock(d, g, c) && c != b ==> Blk(d3, c) == Blk(d, c))
      && InDisk(d, b) && Blk(d3, b) == Splice(Blk(d, b), 0, data)
  {
    var b, d1 := NextBlock(d, g, 0), AllocIn(d, g, 0);
    AllocFirstGroup(d, g);
    CountsKeepTables(d, d1, g);
    FreshIs(d, g, i, data);
    FreshAfterAlloc(d1, g, i, Started(GetInode(d, g, i), b, |data|), b, data);
  }

  /** Writing a record and then the start of a data block. */
  lemma FreshAfterAlloc(d: seq<byte>, g: Geo, i: nat, r: seq<byte>, b: nat, data: seq<byte>)
    requires MetaOk(d, g) && ValidInode(g, i) && |r| == RECORD && DataBlock(d, g, b) && |data| <= BLOCK
    ensures var d3 := FreshOn(d, g, i, r, b, data);
      && MetaOk(d3, g) && GetInode(d3, g, i) == r
      && (forall j :: ValidInode(g, j) && j != i ==> GetInode(d3, g, j) == GetInode(d, g, j))
      && (forall c :: DataBlock(d, g, c) && c != b ==> Blk(d3, c) == Blk(d, c))
      && Blk(d3, b) == Splice(Blk(d, b), 0, data)
  {
    var d2 := PutInode(d, g, i, r);
    RecordWriteData(d, g, i, r);
    var d3 := Splice(d2, BLOCK * b, data);
    assert OnlyBlock(d2, d3, b);
    DataWriteMeta(d2, d3, g, b);
    InodeStore(d, g, i, r, i);
    forall j | ValidInode(g, j) && j != i ensures GetInode(d3, g, j) == GetInode(d, g, j) {
      InodeStore(d, g, i, r, j);
    }
    forall c | DataBlock(d, g, c) && c != b ensures Blk(d3, c) == Blk(d, c) {
      BlkSame(d2, d3, b, c);
    }
    SpliceSlice(d2, BLOCK * b, data, BLOCK * b, BLOCK * b + BLOCK);
  }

  predicate StartedByte(n: nat, at: nat, b: nat, len: nat) {
    at + 4 <= n < at + 8 || at + 40 <= n < at + 44 || 1024 * b <= n < 1024 * b + len
  }

  /** What the rest of a first write does to the bytes of the disk `d1` left by the allocation: the size field of
      the record at `at` becomes the length, its first pointer the block, the block starts with the data, and no
      other byte changes. */
  ghost predicate FreshEffect(d1: seq<byte>, d': seq<byte>, at: nat, b: nat, data: seq<byte>) {
    && |d'| == |d1| && at + 128 <= |d1| && 1024 * b + |data| <= |d1|
    && U32(d', at + 4) == |data| && U32(d', at + 40) == b && d'[1024 * b..1024 * b + |data|] == data
    && forall n :: 0 <= n < |d1| && !StartedByte(n, at, b, |data|) ==> d'[n] == d1[n]
  }

  /** The whole disk after a first write, from the disk after the allocation. */
  lemma FreshBytes(d: seq<byte>, g: Geo, i: nat, data: seq<byte>)
    requires FreshFits(d, g, i, |data|)
    ensures FreshRuns(d, g, i, |data|)
    ensures FreshEffect(AllocIn(d, g, 0), Fresh(d, g, i, data), InodeAt(d, g, i), NextBlock(d, g, 0), data)
  {
    var d1, b, r := AllocIn(d, g, 0), NextBlock(d, g, 0), GetInode(d, g, i);
    FreshIs(d, g, i, data);
    FreshPlace(d, g, i, |data|);
    StartedBytes(r, b, |data|);
    StartedEffect(d1, InodeAt(d, g, i), r, Started(r, b, |data|), b, data, Fresh(d, g, i, data));
  }

  lemma FreshPlace(d: seq<byte>, g: Geo, i: nat, n: nat)
    requires FreshFits(d, g, i, n)
    ensures var d1, at, b := AllocIn(d, g, 0), InodeAt(d, g, i), NextBlock(d, g, 0);
      && MetaOk(d1, g) && InodeAt(d1, g, i) == at && at + 128 <= |d1| && GetInode(d, g, i) == d1[at..at + 128]
      && 1024 * b + 1024 <= |d1| && (at + 128 <= 1024 * b || 1024 * b + 1024 <= at)
  {
    RecordOutside(d, g, i, NextBlock(d, g, 0));
    FreshRecordAt(d, g, i);
  }

  lemma FreshRecordAt(d: seq<byte>, g: Geo, i: nat)
    requires MetaOk(d, g) && ValidInode(g, i) && AllocOk(d, g) && g.bgs > 0 && g.firstBgd != g.sbBlock
    requires FreeCount(d, g, 0) != 0
    ensures var d1, at := AllocIn(d, g, 0), InodeAt(d, g, i);
      MetaOk(d1, g) && InodeAt(d1, g, i) == at && at + 128 <= |d1| && GetInode(d, g, i) == d1[at..at + 128]
  {
    AllocFirstGroup(d, g);
    CountsKeepTables(d, AllocIn(d, g, 0), g);
    SameRecordAt(d, AllocIn(d, g, 0), g, i);
  }

  lemma SameRecordAt(d: seq<byte>, d1: seq<byte>, g: Geo, i: nat)
    requires MetaOk(d, g) && MetaOk(d1, g) && ValidInode(g, i) && |d1| == |d|
    requires InodeAt(d1, g, i) == InodeAt(d, g, i) && GetInode(d1, g, i) == GetInode(d, g, i)
    ensures InodeAt(d, g, i) + 128 <= |d1|
    ensures GetInode(d, g, i) == d1[InodeAt(d, g, i)..InodeAt(d, g, i) + 128]
  {
    InodeAtFlat(d1, g, i);
  }

  /** Starting a record changes its bytes 4 to 7 and 40 to 43 only. */
  lemma StartedBytes(r: seq<byte>, b: u32, n: nat)
    requires |r| == RECORD && Size(r) == 0 && n < BLOCK
    ensures U32(Started(r, b, n), 4) == n && U32(Started(r, b, n), 40) == b
    ensures forall k :: 0 <= k < 128 && !(4 <= k < 8) && !(40 <= k < 44) ==> Started(r, b, n)[k] == r[k]
  {
    StartedFields(r, b, n);
    var s := Splice(r, 40, LE32(b));
    assert Size(s) == 0 by {
      assert s[4] == r[4] && s[5] == r[5] && s[6] == r[6] && s[7] == r[7];
    }
    GrownBytes(s, n);
    assert Pointer(Started(r, b, n), 0) == b;
  }

  /** A record and then data written to places that do not meet. */
  lemma StartedEffect(d1: seq<byte>, at: nat, r: seq<byte>, r': seq<byte>, b: nat, data: seq<byte>, d': seq<byte>)
    requires at + 128 <= |d1| && r == d1[at..at + 128] && |r'| == 128 && 1024 * b + 1024 <= |d1| && |data| < 1024
    requires at + 128 <= 1024 * b || 1024 * b + 1024 <= at
    requires U32(r', 4) == |data| && U32(r', 40) == b
    requires forall k :: 0 <= k < 128 && !(4 <= k < 8) && !(40 <= k < 44) ==> r'[k] == r[k]
    requires d' == Splice(Splice(d1, at, r'), 1024 * b, data)
    ensures FreshEffect(d1, d', at, b, data)
  {
    var d2, lo := Splice(d1, at, r'), 1024 * b;
    SpliceSlice(d1, at, r', at, at + 128);
    StartedFieldsAt(d2, d', at, r', lo, data);
    SpliceSlice(d2, lo, data, lo, lo + |data|);
    RecordPatched(d1, at, r, r');
    RestKept(d1, d2, d', at, b, |data|);
  }

  lemma RestKept(d1: seq<byte>, d2: seq<byte>, d': seq<byte>, at: nat, b: nat, len: nat)
    requires |d1| == |d2| == |d'|
    requires forall n :: 0 <= n < |d1| && !(at + 4 <= n < at + 8) && !(at + 40 <= n < at + 44) ==> d2[n] == d1[n]
    requires forall n :: 0 <= n < |d1| && !(1024 * b <= n < 1024 * b + len) ==> d'[n] == d2[n]
    ensures forall n :: 0 <= n < |d1| && !StartedByte(n, at, b, len) ==> d'[n] == d1[n]
  {
  }

  lemma StartedFieldsAt(d2: seq<byte>, d': seq<byte>, at: nat, r': seq<byte>, lo: nat, data: seq<byte>)
    requires at + 128 <= |d2| && d2[at..at + 128] == r' && lo + |data| <= |d2| && d' == Splice(d2, lo, data)
    requires at + 128 <= lo || lo + |data| <= at
    ensures U32(d', at + 4) == U32(r', 4) && U32(d', at + 40) == U32(r', 40)
  {
    RangeKept(d2, d', lo, lo + |data|, at, at + 128);
    FieldLocal(d', at, r', 4);
    FieldLocal(d', at, r', 40);
  }

  lemma RecordPatched(d: seq<byte>, at: nat, r: seq<byte>, r': seq<byte>)
    requires at + 128 <= |d| && r == d[at..at + 128] && |r'| == 128
    requires forall k :: 0 <= k < 128 && !(4 <= k < 8) && !(40 <= k < 44) ==> r'[k] == r[k]
    ensures forall n :: 0 <= n < |d| && !(at + 4 <= n < at + 8) && !(at + 40 <= n < at + 44) ==>
      Splice(d, at, r')[n] == d[n]
  {
    forall n | 0 <= n < |d| && !(at + 4 <= n < at + 8) && !(at + 40 <= n < at + 44)
      ensures Splice(d, at, r')[n] == d[n]
    {
      assert at <= n < at + 128 ==> r'[n - at] == r[n - at] == d[n];
    }
  }

  /** After the first write the file's contents are exactly the bytes written, and every other file and
      directory keeps its record and blocks. */
  lemma FreshContent(d: seq<byte>, g: Geo, i: nat, data: seq<byte>)
    requires FreshFits(d, g, i, |data|)
    ensures FreshRuns(d, g, i, |data|)
    ensures var d3 := Fresh(d, g, i, data);
      && MetaOk(d3, g) && Readable(d3, GetInode(d3, g, i)) && FileContent(d3, g, i) == data
      && (forall j, k :: Owns(d, g, j, k) && j != i ==>
            && GetInode(d3, g, j) == GetInode(d, g, j)
            && InDisk(d, Ptr(d, g, j, k)) && Blk(d3, Ptr(d, g, j, k)) == Blk(d, Ptr(d, g, j, k)))
  {
    FreshRecords(d, g, i, data);
    var d3, b := Fresh(d, g, i, data), NextBlock(d, g, 0);
    StartedReads(d3, g, i, GetInode(d, g, i), b, data, Blk(d, b));
    OwnedKept(d, d3, g, b);
  }

  /** A disk that differs in no data block but an unowned one has every owned block as it was. */
  lemma OwnedKept(d: seq<byte>, d': seq<byte>, g: Geo, b: nat)
    requires Wf(d, g) && |d'| == |d| && forall j, k :: Owns(d, g, j, k) ==> Ptr(d, g, j, k) != b
    requires forall c :: DataBlock(d, g, c) && c != b ==> Blk(d', c) == Blk(d, c)
    ensures forall j, k :: Owns(d, g, j, k) ==>
      InDisk(d, Ptr(d, g, j, k)) && Blk(d', Ptr(d, g, j, k)) == Blk(d, Ptr(d, g, j, k))
  {
    forall j, k | Owns(d, g, j, k)
      ensures InDisk(d, Ptr(d, g, j, k)) && Blk(d', Ptr(d, g, j, k)) == Blk(d, Ptr(d, g, j, k))
    {
      assert DataBlock(d, g, Ptr(d, g, j, k));
    }
  }

  lemma StartedReads(d: seq<byte>, g: Geo, i: nat, r: seq<byte>, b: u32, data: seq<byte>, was: seq<byte>)
    requires MetaOk(d, g) && ValidInode(g, i) && |r| == RECORD && Size(r) == 0 && |data| < BLOCK
    requires GetInode(d, g, i) == Started(r, b, |data|)
    requires InDisk(d, b) && |was| == BLOCK && Blk(d, b) == Splice(was, 0, data)
    ensures Readable(d, GetInode(d, g, i)) && FileContent(d, g, i) == data
  {
    StartedFields(r, b, |data|);
    StartedContent(d, Started(r, b, |data|), b, data, was);
  }

  lemma StartedContent(d: seq<byte>, r: seq<byte>, b: nat, data: seq<byte>, was: seq<byte>)
    requires |r| == RECORD && Pointer(r, 0) == b && Size(r) == |data| <= BLOCK && InDisk(d, b)
    requires |was| == BLOCK && Blk(d, b) == Splice(was, 0, data)
    ensures Readable(d, r) && Content(d, r) == data
  {
    forall k | 0 <= k < DIRECT && BLOCK * k < Size(r) ensures InDisk(d, Pointer(r, k)) {
      assert k == 0;
    }
    forall m | 0 <= m < |data| ensures Content(d, r)[m] == data[m] {
      assert m / BLOCK == 0 && m % BLOCK == m;
      assert Blk(d, b)[m] == d[BLOCK * b + m];
    }
  }
}
