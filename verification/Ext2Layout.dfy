/** The on-disk layout kernel/arch/i386/ext2.c works on: 1 KiB blocks, group descriptors, inode tables.
    The disk is a sequence of bytes; block b starts at byte 1024 * b. */
module Ext2Layout {
  import opened Bytes

  const BLOCK: nat := 1024
  const RECORD: nat := 128    // sizeof(inode_t)
  const PER_BLOCK: nat := 8   // inodes_per_block
  const DESCRIPTOR: nat := 32 // sizeof(block_group_desc_t)
  const DIRECT: nat := 12

  /** What probing leaves in memory: the number of groups it counts (`bgs`), inodes per group, the descriptor
      block, the superblock's block and the number of blocks; and the number of groups the image has. */
  datatype Geo = Geo(bgs: nat, groups: nat, ipg: nat, firstBgd: nat, sbBlock: nat, blocks: u32)

  /** number_of_bgs */
  function CountedGroups(blocks: u32, perGroup: u32): u32
    requires perGroup > 0
  {
    var n := blocks / perGroup;
    if n == 0 then 1 else n
  }

  /** The groups of an image of 1 KiB blocks: block 0 belongs to none, and the last group may be short. */
  function ImageGroups(blocks: u32, perGroup: u32): u32
    requires perGroup > 0 && blocks > 0
  {
    if blocks == 1 then 0 else (blocks - 2) / perGroup + 1
  }

  /** Rounding down counts the groups right exactly when there is just one, or when no more than one block is
      left over (which is block 0 of the count); otherwise the short last group is missed, and allocation never
      looks at it. */
  lemma CountedExactly(blocks: u32, perGroup: u32)
    requires perGroup > 1 && blocks > 1
    ensures CountedGroups(blocks, perGroup) == ImageGroups(blocks, perGroup)
      <==> blocks < perGroup || blocks % perGroup <= 1
    ensures CountedGroups(blocks, perGroup) <= ImageGroups(blocks, perGroup) <= CountedGroups(blocks, perGroup) + 1
  {
    var q, r := blocks as int / perGroup, blocks as int % perGroup;
    assert blocks == q * perGroup + r;
    TwoLess(blocks, perGroup, q, r);
    NoWholeGroup(blocks, perGroup);
  }

  lemma NoWholeGroup(a: nat, n: nat)
    requires n > 0
    ensures a / n == 0 <==> a < n
  {
    if a < n {
      QuotientIs(a, n, 0, a);
    }
    assert a == a / n * n + a % n;
  }

  /** Dividing by n after taking two off. */
  lemma TwoLess(a: nat, n: nat, q: nat, r: nat)
    requires n > 1 && a > 1 && a == q * n + r && r < n
    ensures (a - 2) / n == if r >= 2 then q else q - 1
  {
    if r >= 2 {
      QuotientIs(a - 2, n, q, r - 2);
    } else {
      assert q >= 1;
      assert q * n == (q - 1) * n + n;
      QuotientIs(a - 2, n, q - 1, n + r - 2);
    }
  }

  lemma QuotientIs(a: nat, b: nat, q: nat, r: nat)
    requires b > 0 && r < b && a == q * b + r
    ensures a / b == q
  {
    var q' := a / b;
    assert a == q' * b + a % b;
    assert q' < q ==> (q' + 1) * b <= q * b;
    assert q' > q ==> (q + 1) * b <= q' * b;
  }

  predicate InDisk(d: seq<byte>, b: nat) {
    BLOCK * b + BLOCK <= |d|
  }

  function Blk(d: seq<byte>, b: nat): (r: seq<byte>)
    requires InDisk(d, b)
    ensures |r| == BLOCK
  {
    d[BLOCK * b..BLOCK * b + BLOCK]
  }

  function PutBlk(d: seq<byte>, b: nat, x: seq<byte>): (r: seq<byte>)
    requires InDisk(d, b) && |x| == BLOCK
    ensures |r| == |d|
  {
    Splice(d, BLOCK * b, x)
  }

  function Doubled(n: nat, times: nat): (r: nat)
    ensures n > 0 ==> r > 0
  {
    if times == 0 then n else 2 * Doubled(n, times - 1)
  }

  /** 1024 << hint, in 32 bits; a shift by 32 or more has no value. */
  function BlockSize(hint: nat): u32
    requires hint < 32
  {
    Wrap(Doubled(1024, hint))
  }

  /** From a hint of 22 on the shift has moved everything out. */
  lemma {:induction false} DoubledVanishes(hint: nat)
    ensures hint < 22 ==> Doubled(1024, hint) < TWO32
    ensures hint >= 22 ==> Wrap(Doubled(1024, hint)) == 0
    decreases hint
  {
    if hint > 22 {
      DoubledVanishes(hint - 1);
    } else {
      assert Doubled(1024, 8) == 0x4_0000;
      assert Doubled(1024, 15) == 0x200_0000;
      assert Doubled(1024, 22) == TWO32;
      DoubledLess(hint, 22);
    }
  }

  lemma {:induction false} DoubledLess(a: nat, b: nat)
    requires a <= b
    ensures Doubled(1024, a) <= Doubled(1024, b)
    ensures a < b ==> Doubled(1024, a) < Doubled(1024, b)
    decreases b
  {
    if a < b {
      DoubledLess(a, b - 1);
    }
  }

  /** The driver's choice of descriptor block; a block size of zero traps in the division. */
  function FirstBgd(superblockId: u32, hint: nat): u32
    requires hint < 32 && BlockSize(hint) != 0
  {
    Wrap(superblockId as int + 1024 / BlockSize(hint))
  }

  /** The table belongs in the block after the superblock's; the driver looks there exactly when blocks
      are 1 KiB.  From a hint of 22 on its block size is zero. */
  lemma FirstBgdExact(superblockId: u32, hint: nat)
    requires hint < 32
    ensures BlockSize(hint) == 0 <==> hint >= 22
    ensures hint < 22 ==> (FirstBgd(superblockId, hint) == Wrap(superblockId + 1) <==> hint == 0)
  {
    DoubledVanishes(hint);
    if 0 < hint < 22 {
      DoubledLess(0, hint);
      SmallQuotient(1024, BlockSize(hint));
    }
  }

  lemma SmallQuotient(a: nat, b: nat)
    requires a < b
    ensures a / b == 0
  {
  }

  // ----- where an inode is -----

  predicate ValidInode(g: Geo, i: nat) {
    g.ipg > 0 && 1 <= i && (i - 1) / g.ipg < g.groups
  }

  function GroupOf(g: Geo, i: nat): nat
    requires g.ipg > 0 && 1 <= i
  {
    (i - 1) / g.ipg
  }

  function IndexOf(g: Geo, i: nat): (r: nat)
    requires g.ipg > 0 && 1 <= i
    ensures r < g.ipg
  {
    (i - 1) % g.ipg
  }

  /** The first block of a group's inode table, from the group's descriptor. */
  function Table(d: seq<byte>, g: Geo, group: nat): u32
    requires InDisk(d, g.firstBgd) && DESCRIPTOR * group + DESCRIPTOR <= BLOCK
  {
    U32(d, BLOCK * g.firstBgd + (DESCRIPTOR * group + 8))
  }

  /** Blocks taken by one group's table. */
  function TableBlocks(g: Geo): nat {
    (g.ipg + 7) / 8
  }

  predicate Within(b: nat, first: nat, n: nat) {
    first <= b < first + n
  }

  /** Descriptors fit their block; every table lies on the disk, apart from the descriptor block, the
      superblock and the other tables. */
  ghost predicate MetaOk(d: seq<byte>, g: Geo) {
    && 0 < g.ipg <= 8 * BLOCK // one bitmap block covers a group
    && DESCRIPTOR * g.groups <= BLOCK && InDisk(d, g.firstBgd) && InDisk(d, g.sbBlock)
    && (forall x :: 0 <= x < g.groups ==>
          && BLOCK * (Table(d, g, x) + TableBlocks(g)) <= |d|
          && !Within(g.firstBgd, Table(d, g, x), TableBlocks(g))
          && !Within(g.sbBlock, Table(d, g, x), TableBlocks(g)))
    && (forall x, y :: 0 <= x < y < g.groups ==>
          || Table(d, g, x) + TableBlocks(g) <= Table(d, g, y)
          || Table(d, g, y) + TableBlocks(g) <= Table(d, g, x))
  }

  /** The address as the driver computes it: table block plus block offset, then the slot. */
  function InodeBlock(d: seq<byte>, g: Geo, i: nat): nat
    requires MetaOk(d, g) && ValidInode(g, i)
  {
    Table(d, g, GroupOf(g, i)) + IndexOf(g, i) * RECORD / BLOCK
  }

  function InodeAt(d: seq<byte>, g: Geo, i: nat): nat
    requires MetaOk(d, g) && ValidInode(g, i)
  {
    BLOCK * InodeBlock(d, g, i) + RECORD * (IndexOf(g, i) % PER_BLOCK)
  }

  /** Block offset and slot agree: records are laid out one after another from the table's start. */
  lemma InodeAtFlat(d: seq<byte>, g: Geo, i: nat)
    requires MetaOk(d, g) && ValidInode(g, i)
    ensures InodeAt(d, g, i) == BLOCK * Table(d, g, GroupOf(g, i)) + RECORD * IndexOf(g, i)
    ensures InodeBlock(d, g, i) < Table(d, g, GroupOf(g, i)) + TableBlocks(g)
    ensures InodeAt(d, g, i) + RECORD <= BLOCK * InodeBlock(d, g, i) + BLOCK <= |d|
  {
    var x, n := GroupOf(g, i), IndexOf(g, i);
    assert n * RECORD / BLOCK == n / 8;
    assert BLOCK * (Table(d, g, x) + TableBlocks(g)) <= |d|;
  }

  lemma DivModUnique(a: nat, b: nat, n: nat)
    requires n > 0 && a / n == b / n && a % n == b % n
    ensures a == b
  {
    assert a == n * (a / n) + a % n && b == n * (b / n) + b % n;
  }

  /** Different inodes have records that do not meet. */
  lemma RecordsApart(d: seq<byte>, g: Geo, i: nat, j: nat)
    requires MetaOk(d, g) && ValidInode(g, i) && ValidInode(g, j) && i != j
    ensures InodeAt(d, g, i) + RECORD <= InodeAt(d, g, j) || InodeAt(d, g, j) + RECORD <= InodeAt(d, g, i)
  {
    InodeAtFlat(d, g, i);
    InodeAtFlat(d, g, j);
    var x, y := GroupOf(g, i), GroupOf(g, j);
    var m, n := IndexOf(g, i), IndexOf(g, j);
    if x == y {
      if m == n {
        DivModUnique(i - 1, j - 1, g.ipg);
      }
    } else {
      TablesApart(d, g, x, y);
    }
  }

  lemma TablesApart(d: seq<byte>, g: Geo, x: nat, y: nat)
    requires MetaOk(d, g) && x < g.groups && y < g.groups && x != y
    ensures Table(d, g, x) + TableBlocks(g) <= Table(d, g, y) || Table(d, g, y) + TableBlocks(g) <= Table(d, g, x)
    ensures RECORD * g.ipg <= BLOCK * TableBlocks(g)
  {
    if x > y {
      TablesApart(d, g, y, x);
    }
  }

  // ----- reading and writing records -----

  function GetInode(d: seq<byte>, g: Geo, i: nat): (r: seq<byte>)
    requires MetaOk(d, g) && ValidInode(g, i)
    ensures |r| == RECORD
  {
    InodeAtFlat(d, g, i);
    d[InodeAt(d, g, i)..InodeAt(d, g, i) + RECORD]
  }

  function PutInode(d: seq<byte>, g: Geo, i: nat, r: seq<byte>): (d': seq<byte>)
    requires MetaOk(d, g) && ValidInode(g, i) && |r| == RECORD
    ensures |d'| == |d|
  {
    InodeAtFlat(d, g, i);
    Splice(d, InodeAt(d, g, i), r)
  }

  /** Inode `group * ipg + k + 1` is record k of its group's table, whose first block the group's descriptor
      gives in its bytes 8 to 11. */
  lemma InodePlace(d: seq<byte>, g: Geo, group: nat, k: nat)
    requires MetaOk(d, g) && group < g.groups && k < g.ipg
    ensures var i, table := group * g.ipg + k + 1, U32(d, 1024 * g.firstBgd + (32 * group + 8));
      ValidInode(g, i) && InodeAt(d, g, i) == 1024 * table + 128 * k
  {
    QuotientIs(group * g.ipg + k, g.ipg, group, k);
    var i := group * g.ipg + k + 1;
    assert i - 1 == (i - 1) / g.ipg * g.ipg + (i - 1) % g.ipg;
    InodeAtFlat(d, g, i);
  }

  /** Reading takes the 128 bytes at that place, writing changes those and no other. */
  lemma InodeBytes(d: seq<byte>, g: Geo, i: nat, r: seq<byte>)
    requires MetaOk(d, g) && ValidInode(g, i) && |r| == 128
    ensures InodeAt(d, g, i) + 128 <= |d| && |GetInode(d, g, i)| == 128
    ensures forall n :: 0 <= n < 128 ==> GetInode(d, g, i)[n] == d[InodeAt(d, g, i) + n]
    ensures forall n :: 0 <= n < |d| ==>
      (PutInode(d, g, i, r)[n] ==
       if InodeAt(d, g, i) <= n < InodeAt(d, g, i) + 128 then r[n - InodeAt(d, g, i)] else d[n])
  {
    InodeAtFlat(d, g, i);
  }

  lemma SubSlice<T>(d: seq<T>, at: nat, n: nat, o: nat, m: nat)
    requires at + n <= |d| && o + m <= n
    ensures d[at..at + n][o..o + m] == d[at + o..at + o + m]
  {
    var x, y := d[at..at + n][o..o + m], d[at + o..at + o + m];
    assert forall k :: 0 <= k < m ==> x[k] == d[at + o + k] && y[k] == d[at + o + k];
  }

  /** The descriptor block decides where every table is. */
  lemma TableLocal(d: seq<byte>, d': seq<byte>, g: Geo, x: nat)
    requires |d| == |d'| && InDisk(d, g.firstBgd) && Blk(d', g.firstBgd) == Blk(d, g.firstBgd)
    requires DESCRIPTOR * x + DESCRIPTOR <= BLOCK
    ensures Table(d', g, x) == Table(d, g, x)
  {
    var o, at := DESCRIPTOR * x + 8, BLOCK * g.firstBgd;
    SubSlice(d, at, BLOCK, o, 4);
    SubSlice(d', at, BLOCK, o, 4);
    U32Local(d, at + o, d', at + o);
  }

  /** Tables in the same places keep the metadata well formed and every record in its place. */
  lemma MetaKeptByTables(d: seq<byte>, d': seq<byte>, g: Geo)
    requires MetaOk(d, g) && |d| == |d'|
    requires forall x :: 0 <= x < g.groups ==> Table(d', g, x) == Table(d, g, x)
    ensures MetaOk(d', g)
    ensures forall i :: ValidInode(g, i) ==> InodeAt(d', g, i) == InodeAt(d, g, i)
  {
  }

  /** The same descriptor block keeps the metadata well formed and every record in its place. */
  lemma MetaKept(d: seq<byte>, d': seq<byte>, g: Geo)
    requires MetaOk(d, g) && |d| == |d'| && Blk(d', g.firstBgd) == Blk(d, g.firstBgd)
    ensures MetaOk(d', g)
    ensures forall i :: ValidInode(g, i) ==> InodeAt(d', g, i) == InodeAt(d, g, i)
  {
    forall x | 0 <= x < g.groups ensures Table(d', g, x) == Table(d, g, x) {
      TableLocal(d, d', g, x);
    }
  }

  /** Records lie outside the descriptor block and the superblock. */
  lemma RecordsOutsideMeta(d: seq<byte>, g: Geo, i: nat)
    requires MetaOk(d, g) && ValidInode(g, i)
    ensures InodeAt(d, g, i) + RECORD <= BLOCK * g.firstBgd || BLOCK * g.firstBgd + BLOCK <= InodeAt(d, g, i)
    ensures InodeAt(d, g, i) + RECORD <= BLOCK * g.sbBlock || BLOCK * g.sbBlock + BLOCK <= InodeAt(d, g, i)
  {
    InodeAtFlat(d, g, i);
    var x := GroupOf(g, i);
    assert !Within(g.firstBgd, Table(d, g, x), TableBlocks(g)) && !Within(g.sbBlock, Table(d, g, x), TableBlocks(g));
  }

  lemma PutInodeMeta(d: seq<byte>, g: Geo, i: nat, r: seq<byte>)
    requires MetaOk(d, g) && ValidInode(g, i) && |r| == RECORD
    ensures MetaOk(PutInode(d, g, i, r), g)
    ensures Blk(PutInode(d, g, i, r), g.firstBgd) == Blk(d, g.firstBgd)
    ensures forall j :: ValidInode(g, j) ==> InodeAt(PutInode(d, g, i, r), g, j) == InodeAt(d, g, j)
  {
    RecordsOutsideMeta(d, g, i);
    InodeAtFlat(d, g, i);
    SpliceSlice(d, InodeAt(d, g, i), r, BLOCK * g.firstBgd, BLOCK * g.firstBgd + BLOCK);
    MetaKept(d, PutInode(d, g, i, r), g);
  }

  /** The inode tables are a faithful indexed store: a record written is the record read, and every other
      inode reads as before. */
  lemma InodeStore(d: seq<byte>, g: Geo, i: nat, r: seq<byte>, j: nat)
    requires MetaOk(d, g) && ValidInode(g, i) && ValidInode(g, j) && |r| == RECORD
    ensures MetaOk(PutInode(d, g, i, r), g)
    ensures GetInode(PutInode(d, g, i, r), g, j) == if i == j then r else GetInode(d, g, j)
  {
    PutInodeMeta(d, g, i, r);
    InodeAtFlat(d, g, i);
    InodeAtFlat(d, g, j);
    if i != j {
      RecordsApart(d, g, i, j);
    }
    SpliceSlice(d, InodeAt(d, g, i), r, InodeAt(d, g, j), InodeAt(d, g, j) + RECORD);
  }

  // ----- fields of a record -----

  const DIRECTORY: nat := 4 // the type nibble of a directory
  const FILE: nat := 8      // the type nibble of a regular file

  function Kind(r: seq<byte>): nat
    requires |r| == RECORD
  {
    U16(r, 0) as int / 4096
  }

  function Size(r: seq<byte>): u32
    requires |r| == RECORD
  {
    U32(r, 4)
  }

  /** dbp[k], the k-th direct block pointer. */
  function Pointer(r: seq<byte>, k: nat): u32
    requires |r| == RECORD && k < DIRECT
  {
    U32(r, 40 + 4 * k)
  }

  /** The fields of a record, by their bytes on the disk. */
  lemma FieldsOnDisk(d: seq<byte>, g: Geo, i: nat)
    requires MetaOk(d, g) && ValidInode(g, i)
    ensures InodeAt(d, g, i) + 128 <= |d|
    ensures var at, r := InodeAt(d, g, i), GetInode(d, g, i);
      && Kind(r) == d[at + 1] as int / 16 && Size(r) == U32(d, at + 4)
      && forall k :: 0 <= k < 12 ==> Pointer(r, k) == U32(d, at + 40 + 4 * k)
  {
    InodeAtFlat(d, g, i);
    var at, r := InodeAt(d, g, i), GetInode(d, g, i);
    FieldLocal(d, at, r, 4);
    forall k | 0 <= k < 12 ensures Pointer(r, k) == U32(d, at + 40 + 4 * k) {
      FieldLocal(d, at, r, 40 + 4 * k);
    }
    assert r[1] == d[at + 1];
    KindNibble(r);
  }

  lemma KindNibble(r: seq<byte>)
    requires |r| == RECORD
    ensures Kind(r) == r[1] as int / 16
  {
  }

  lemma FieldLocal(d: seq<byte>, at: nat, r: seq<byte>, o: nat)
    requires at + 128 <= |d| && r == d[at..at + 128] && o + 4 <= 128
    ensures U32(r, o) == U32(d, at + o)
  {
    SubSlice(d, at, 128, o, 4);
    U32Local(r, o, d, at + o);
  }
}
