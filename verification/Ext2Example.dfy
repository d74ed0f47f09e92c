/** A small well-formed image: it meets the assumptions made elsewhere, and shows on concrete paths and
    writes where the driver fails. */
module Ext2Example {
  import opened Bytes
  import opened Ext2Layout
  import opened Ext2Path
  import opened Ext2Walk
  import opened Ext2Files
  import opened Ext2Alloc
  import opened Ext2Runs
  import opened Ext2ReadBack
  import opened Ext2Driver

  /** One group of eight inodes; the superblock in block 1, the descriptor in block 2, the table in block 3. */
  const G: Geo := Geo(1, 1, 8, 2, 1, 10)

  /** Inode 2, the root, has blocks 4 (entries "a", "home", "up" and "$h") and 5 (entry "z"); inode 3 is the file
      "a", whose 20 bytes in block 6 happen to read as an entry "b"; inode 4 is the empty file "home", also named "$h"
      and "z"; "up" is the root itself; inode 5 is a file of 1500 bytes in blocks 7 and 8.
      `free` is the count of free blocks in the descriptor. */
  function Cell(n: nat, free: byte): byte {
    match n
    case 2056 => 3
    case 2060 => free
    case 3201 => 64
    case 3240 => 4
    case 3244 => 5
    case 3329 => 128
    case 3332 => 20
    case 3368 => 6
    case 3457 => 128
    case 3585 => 128
    case 3588 => 220
    case 3589 => 5
    case 3624 => 7
    case 3628 => 8
    case 4096 => 3
    case 4100 => 12
    case 4102 => 1
    case 4104 => 97
    case 4108 => 4
    case 4112 => 12
    case 4114 => 4
    case 4116 => 104
    case 4117 => 111
    case 4118 => 109
    case 4119 => 101
    case 4120 => 2
    case 4124 => 12
    case 4126 => 2
    case 4128 => 117
    case 4129 => 112
    case 4132 => 4
    case 4136 => 12
    case 4138 => 2
    case 4140 => 36
    case 4141 => 104
    case 5120 => 4
    case 5124 => 12
    case 5126 => 1
    case 5128 => 122
    case 6144 => 4
    case 6148 => 12
    case 6150 => 1
    case 6152 => 98
    case _ => 0
  }

  function Image(free: byte): (d: seq<byte>)
    ensures |d| == 10 * BLOCK && forall n :: 0 <= n < |d| ==> d[n] == Cell(n, free)
  {
    seq(10 * BLOCK, n requires 0 <= n => Cell(n, free))
  }

  lemma Meta(d: seq<byte>, free: byte)
    requires d == Image(free)
    ensures MetaOk(d, G) && Table(d, G, 0) == 3 && AllocOk(d, G) && FreeCount(d, G, 0) == free
  {
    assert Blk(d, 2)[12] == d[2060] && Blk(d, 2)[13] == d[2061];
  }

  lemma RecordBytes(d: seq<byte>, free: byte, i: nat)
    requires d == Image(free) && 1 <= i <= 8
    ensures MetaOk(d, G) && ValidInode(G, i) && InodeAt(d, G, i) == 3072 + 128 * (i - 1)
    ensures forall n :: 0 <= n < RECORD ==> GetInode(d, G, i)[n] == Cell(3072 + 128 * (i - 1) + n, free)
  {
    Meta(d, free);
    InodeAtFlat(d, G, i);
  }

  function Points(i: nat, k: nat): u32 {
    if i == 2 && k == 0 then 4 else if i == 2 && k == 1 then 5 else if i == 3 && k == 0 then 6
    else if i == 5 && k == 0 then 7 else if i == 5 && k == 1 then 8 else 0
  }

  lemma InodeHead(free: byte, i: nat, r: seq<byte>)
    requires |r| == RECORD && 1 <= i <= 8
    requires forall n :: 0 <= n < RECORD ==> r[n] == Cell(3072 + 128 * (i - 1) + n, free)
    ensures Kind(r) == (if i == 2 then DIRECTORY else if 3 <= i <= 5 then FILE else 0)
    ensures Size(r) == (if i == 3 then 20 else if i == 5 then 1500 else 0)
  {
  }

  lemma InodePointer(free: byte, i: nat, r: seq<byte>, k: nat)
    requires |r| == RECORD && 1 <= i <= 8
    requires forall n :: 0 <= n < RECORD ==> r[n] == Cell(3072 + 128 * (i - 1) + n, free)
    requires k < DIRECT
    ensures Pointer(r, k) == Points(i, k)
  {
    var o := 40 + 4 * k;
    assert r[o] == Cell(3072 + 128 * (i - 1) + o, free) && r[o + 1] == r[o + 2] == r[o + 3] == 0;
  }

  /** What the eight inodes are. */
  lemma Inodes(d: seq<byte>, free: byte, i: nat)
    requires d == Image(free) && 1 <= i <= 8
    ensures MetaOk(d, G) && ValidInode(G, i)
    ensures var r := GetInode(d, G, i);
      && Kind(r) == (if i == 2 then DIRECTORY else if 3 <= i <= 5 then FILE else 0)
      && Size(r) == (if i == 3 then 20 else if i == 5 then 1500 else 0)
      && (forall k :: 0 <= k < DIRECT ==> Pointer(r, k) == Points(i, k))
  {
    RecordBytes(d, free, i);
    var r := GetInode(d, G, i);
    InodeHead(free, i, r);
    forall k | 0 <= k < DIRECT ensures Pointer(r, k) == Points(i, k) {
      InodePointer(free, i, r, k);
    }
  }

  /** One record of twelve bytes, with a name of at most four. */
  predicate RecordIs(blk: seq<byte>, o: nat, ino: u32, name: seq<byte>)
    requires |blk| == BLOCK && o + 16 <= BLOCK && |name| <= 4
  {
    U32(blk, o) == ino && U16(blk, o + 4) == 12 && blk[o + 6] == |name| && blk[o + 8..o + 8 + |name|] == name
  }

  lemma OneRecord(blk: seq<byte>, o: nat, ino: u32, name: seq<byte>)
    requires |blk| == BLOCK && o + 16 <= BLOCK && |name| <= 4 && RecordIs(blk, o, ino, name) && ino != 0 && 0 !in name
    requires ChainOk(blk, o + 12)
    ensures ChainOk(blk, o) && Entries(blk, o) == [Entry(ino, name)] + Entries(blk, o + 12)
  {
    assert RecordOk(blk, o);
    BearsExactly(blk, o, name);
    assert NameAt(blk, o) == name;
    var e := Entry(U32(blk, o), NameAt(blk, o));
    assert Entries(blk, o) == [e] + Entries(blk, o + U16(blk, o + 4));
  }

  lemma BlkCells(d: seq<byte>, free: byte, b: nat)
    requires d == Image(free) && b < 10
    ensures forall n :: 0 <= n < BLOCK ==> Blk(d, b)[n] == Cell(1024 * b + n, free)
  {
  }

  lemma CellRecord(d: seq<byte>, free: byte, b: nat, o: nat, ino: byte, name: seq<byte>)
    requires d == Image(free) && b < 10 && o + 16 <= BLOCK && |name| <= 4
    requires var at := 1024 * b + o;
      && Cell(at, free) == ino && Cell(at + 1, free) == Cell(at + 2, free) == Cell(at + 3, free) == 0
      && Cell(at + 4, free) == 12 && Cell(at + 5, free) == 0 && Cell(at + 6, free) == |name|
      && (|name| > 0 ==> Cell(at + 8, free) == name[0]) && (|name| > 1 ==> Cell(at + 9, free) == name[1])
      && (|name| > 2 ==> Cell(at + 10, free) == name[2]) && (|name| > 3 ==> Cell(at + 11, free) == name[3])
    ensures RecordIs(Blk(d, b), o, ino, name)
  {
    BlkCells(d, free, b);
    NameIs(Blk(d, b), o, name);
  }

  lemma NameIs(blk: seq<byte>, o: nat, name: seq<byte>)
    requires o + 16 <= |blk| && |name| <= 4
    requires (|name| > 0 ==> blk[o + 8] == name[0]) && (|name| > 1 ==> blk[o + 9] == name[1])
    requires (|name| > 2 ==> blk[o + 10] == name[2]) && (|name| > 3 ==> blk[o + 11] == name[3])
    ensures blk[o + 8..o + 8 + |name|] == name
  {
  }

  lemma NoRecord(d: seq<byte>, free: byte, b: nat, o: nat)
    requires d == Image(free) && b < 10 && o + 4 <= BLOCK
    requires var at := 1024 * b + o;
      Cell(at, free) == Cell(at + 1, free) == Cell(at + 2, free) == Cell(at + 3, free) == 0
    ensures ChainOk(Blk(d, b), o) && Entries(Blk(d, b), o) == []
  {
    BlkCells(d, free, b);
  }

  lemma FourthRecord(d: seq<byte>, free: byte)
    requires d == Image(free)
    ensures ChainOk(Blk(d, 4), 36) && Entries(Blk(d, 4), 36) == [Entry(4, [36, 104])]
  {
    NoRecord(d, free, 4, 48);
    CellRecord(d, free, 4, 36, 4, [36, 104]);
    OneRecord(Blk(d, 4), 36, 4, [36, 104]);
  }

  lemma ThirdRecord(d: seq<byte>, free: byte)
    requires d == Image(free)
    ensures ChainOk(Blk(d, 4), 24) && Entries(Blk(d, 4), 24) == [Entry(2, [117, 112]), Entry(4, [36, 104])]
  {
    FourthRecord(d, free);
    CellRecord(d, free, 4, 24, 2, [117, 112]);
    OneRecord(Blk(d, 4), 24, 2, [117, 112]);
  }

  lemma SecondRecord(d: seq<byte>, free: byte)
    requires d == Image(free)
    ensures ChainOk(Blk(d, 4), 12)
    ensures Entries(Blk(d, 4), 12) == [Entry(4, HOME), Entry(2, [117, 112]), Entry(4, [36, 104])]
  {
    ThirdRecord(d, free);
    CellRecord(d, free, 4, 12, 4, HOME);
    OneRecord(Blk(d, 4), 12, 4, HOME);
  }

  lemma Block4(d: seq<byte>, free: byte)
    requires d == Image(free)
    ensures ChainOk(Blk(d, 4), 0) && Entries(Blk(d, 4), 0) == FIRST
  {
    SecondRecord(d, free);
    CellRecord(d, free, 4, 0, 3, [97]);
    OneRecord(Blk(d, 4), 0, 3, [97]);
  }

  lemma Block5(d: seq<byte>, free: byte)
    requires d == Image(free)
    ensures ChainOk(Blk(d, 5), 0) && Entries(Blk(d, 5), 0) == [Entry(4, [122])]
  {
    NoRecord(d, free, 5, 12);
    CellRecord(d, free, 5, 0, 4, [122]);
    OneRecord(Blk(d, 5), 0, 4, [122]);
  }

  lemma Block6(d: seq<byte>, free: byte)
    requires d == Image(free)
    ensures ChainOk(Blk(d, 6), 0) && Entries(Blk(d, 6), 0) == [Entry(4, [98])]
  {
    NoRecord(d, free, 6, 12);
    CellRecord(d, free, 6, 0, 4, [98]);
    OneRecord(Blk(d, 6), 0, 4, [98]);
  }

  lemma TwoBlocks(d: seq<byte>, r: seq<byte>, b: nat, c: nat)
    requires |r| == RECORD && Pointer(r, 0) == b != 0 && Pointer(r, 1) == c != 0 && Pointer(r, 2) == 0
    requires InDisk(d, b) && InDisk(d, c) && ChainOk(Blk(d, b), 0) && ChainOk(Blk(d, c), 0)
    ensures BlocksChained(d, r, 0) && RecordsFrom(d, r, 0) == Entries(Blk(d, b), 0) + Entries(Blk(d, c), 0)
  {
    var one := 1;
    assert BlocksChained(d, r, one + 1) && RecordsFrom(d, r, one + 1) == [];
    assert BlocksChained(d, r, one) && RecordsFrom(d, r, one) == Entries(Blk(d, c), 0) + [];
  }

  const HOME: seq<byte> := [104, 111, 109, 101]
  const FIRST: seq<Entry> := [Entry(3, [97]), Entry(4, HOME), Entry(2, [117, 112]), Entry(4, [36, 104])]
  const ALL: seq<Entry> :=
    [Entry(3, [97]), Entry(4, HOME), Entry(2, [117, 112]), Entry(4, [36, 104]), Entry(4, [122])]

  lemma RootFirst(d: seq<byte>, free: byte)
    requires d == Image(free)
    ensures MetaOk(d, G) && ValidInode(G, ROOT) && IsDir(d, G, ROOT) && Chained(d, G, ROOT)
    ensures FirstBlock(d, G, ROOT) == 4 && DirEntries(d, G, ROOT) == FIRST
  {
    Inodes(d, free, ROOT);
    Block4(d, free);
  }

  lemma RootAll(d: seq<byte>, free: byte)
    requires d == Image(free)
    ensures MetaOk(d, G) && ValidInode(G, ROOT)
    ensures BlocksChained(d, GetInode(d, G, ROOT), 0) && RecordsFrom(d, GetInode(d, G, ROOT), 0) == ALL
  {
    Inodes(d, free, ROOT);
    Block4(d, free);
    Block5(d, free);
    TwoBlocks(d, GetInode(d, G, ROOT), 4, 5);
  }

  lemma Owned(d: seq<byte>, free: byte, i: nat, k: nat)
    requires d == Image(free) && MetaOk(d, G) && Owns(d, G, i, k)
    ensures Ptr(d, G, i, k) == Points(i, k) != 0
  {
    Inodes(d, free, i);
  }

  lemma PointsApart(i: nat, k: nat, j: nat, l: nat)
    requires Points(i, k) == Points(j, l) != 0
    ensures i == j && k == l
  {
  }

  lemma DataBlocks(d: seq<byte>, free: byte, b: nat)
    requires d == Image(free) && 4 <= b < 10
    ensures MetaOk(d, G) && DataBlock(d, G, b)
  {
    Meta(d, free);
  }

  lemma RootOk(d: seq<byte>, free: byte, i: nat)
    requires d == Image(free) && MetaOk(d, G) && ValidInode(G, i) && Kind(GetInode(d, G, i)) == DIRECTORY
    ensures DirOk(d, G, i)
  {
    Inodes(d, free, i);
    assert i == ROOT;
    RootAll(d, free);
    AllExist();
  }

  lemma AllExist()
    ensures forall e :: e in ALL ==> ValidInode(G, e.inode)
  {
  }

  /** The image is well formed, and the allocator's assumption holds. */
  lemma WellFormed(d: seq<byte>, free: byte)
    requires d == Image(free)
    ensures Wf(d, G)
  {
    Meta(d, free);
    forall i, k | Owns(d, G, i, k)
      ensures Ptr(d, G, i, k) == Points(i, k) != 0 && DataBlock(d, G, Ptr(d, G, i, k))
    {
      Owned(d, free, i, k);
      DataBlocks(d, free, Points(i, k));
    }
    forall i, k, j, l | Owns(d, G, i, k) && Owns(d, G, j, l) && Ptr(d, G, i, k) == Ptr(d, G, j, l)
      ensures i == j && k == l
    {
      PointsApart(i, k, j, l);
    }
    forall i | ValidInode(G, i) && Kind(GetInode(d, G, i)) == DIRECTORY ensures DirOk(d, G, i) {
      RootOk(d, free, i);
    }
  }

  lemma InOrder(d: seq<byte>, free: byte)
    requires d == Image(free) && free <= 2
    ensures Frontier(d, G)
  {
    Meta(d, free);
    WellFormed(d, free);
    forall i, k | Owns(d, G, i, k) ensures Ptr(d, G, i, k) <= 8 {
      Owned(d, free, i, k);
    }
    forall b | 10 - free < b < 10 ensures DataBlock(d, G, b) {
      DataBlocks(d, free, b);
    }
  }

  // ----- paths -----

  lemma SpelledOne(d: seq<byte>, g: Geo, x: nat, path: seq<seq<byte>>)
    requires MetaOk(d, g) && WalkOk(d, g, x, path) && |path| == 1 && Chained(d, g, x)
    ensures Spelled(d, g, x, path) <==> FirstBlock(d, g, x) == 0 || Child(d, g, x, path[0]) != 0
  {
    var c, rest := Child(d, g, x, path[0]), path[1..];
    if c != 0 {
      assert Spelled(d, g, c, rest);
    }
  }

  /** In a file the driver looks up one more name, the lookup finds nothing. */
  lemma InFile(d: seq<byte>, g: Geo, x: nat, path: seq<seq<byte>>)
    requires MetaOk(d, g) && ValidInode(g, x) && !IsDir(d, g, x) && Chained(d, g, x) && |path| == 1
    requires Child(d, g, x, path[0]) != 0 ==> ValidInode(g, Child(d, g, x, path[0]))
    ensures WalkOk(d, g, x, path) && ResolveOk(d, g, x, path) && Resolve(d, g, x, path) == 0
    ensures Trespasses(d, g, x, path) <==> FirstBlock(d, g, x) == 0 || Child(d, g, x, path[0]) != 0
    ensures Walk(d, g, x, x, path) ==
      if FirstBlock(d, g, x) == 0 then Found(x, x) else AnswerOf(Child(d, g, x, path[0]))
  {
    var rest := path[1..];
    if Child(d, g, x, path[0]) != 0 {
      assert WalkOk(d, g, Child(d, g, x, path[0]), rest);
    }
    SpelledOne(d, g, x, path);
  }

  /** A path of two names whose first one is in the root's first block. */
  lemma FromRoot(d: seq<byte>, g: Geo, a: seq<byte>, b: seq<byte>, x: nat)
    requires MetaOk(d, g) && ValidInode(g, ROOT) && IsDir(d, g, ROOT) && Chained(d, g, ROOT)
    requires FirstBlock(d, g, ROOT) != 0 && BlocksChained(d, GetInode(d, g, ROOT), 0)
    requires x == Child(d, g, ROOT, a) && x != 0 && WalkOk(d, g, x, [b]) && ResolveOk(d, g, x, [b])
    ensures WalkOk(d, g, ROOT, [a, b]) && ResolveOk(d, g, ROOT, [a, b])
    ensures Resolve(d, g, ROOT, [a, b]) == Resolve(d, g, x, [b])
    ensures Trespasses(d, g, ROOT, [a, b]) <==> Trespasses(d, g, x, [b])
    ensures Walk(d, g, 0, ROOT, [a, b]) == Walk(d, g, x, x, [b])
  {
    var path := [a, b];
    assert path[0] == a && path[1..] == [b];
    FirstBlockNames(d, g, ROOT, a);
  }

  /** "/a/b": the regular file "a" is walked as if it were a directory, and its data answers. */
  lemma ThroughFile(d: seq<byte>)
    requires d == Image(2)
    ensures Wf(d, G) && ValidInode(G, 3) && Kind(GetInode(d, G, 3)) == FILE
    ensures var path := [[97], [98]];
      && WalkOk(d, G, ROOT, path) && ResolveOk(d, G, ROOT, path) && Trespasses(d, G, ROOT, path)
      && Walk(d, G, 0, ROOT, path) == Found(4, 4) && Resolve(d, G, ROOT, path) == 0
  {
    WellFormed(d, 2);
    RootFirst(d, 2);
    RootAll(d, 2);
    Inodes(d, 2, 3);
    Block6(d, 2);
    assert Child(d, G, ROOT, [97]) == 3 && Child(d, G, 3, [98]) == 4;
    InFile(d, G, 3, [[98]]);
    FromRoot(d, G, [97], [98], 3);
  }

  /** "/home/x": the empty file "home" ends the walk, which answers with "home" itself. */
  lemma ThroughBlockless(d: seq<byte>)
    requires d == Image(2)
    ensures Wf(d, G) && ValidInode(G, 4) && FirstBlock(d, G, 4) == 0
    ensures var path := [[104, 111, 109, 101], [120]];
      && WalkOk(d, G, ROOT, path) && ResolveOk(d, G, ROOT, path) && Trespasses(d, G, ROOT, path)
      && Walk(d, G, 0, ROOT, path) == Found(4, 4) && Resolve(d, G, ROOT, path) == 0
  {
    WellFormed(d, 2);
    RootFirst(d, 2);
    RootAll(d, 2);
    Inodes(d, 2, 4);
    LookupHome();
    InFile(d, G, 4, [[120]]);
    FromRoot(d, G, HOME, [120], 4);
  }

  /** "/home" is found by its whole name, and by no shorter one. */
  lemma FindHome(d: seq<byte>)
    requires d == Image(2)
    ensures MetaOk(d, G) && WalkOk(d, G, ROOT, [[104, 111, 109, 101]]) && WalkOk(d, G, ROOT, [[104, 111, 109]])
    ensures Walk(d, G, 0, ROOT, [[104, 111, 109, 101]]) == Found(4, 4)
    ensures Walk(d, G, 0, ROOT, [[104, 111, 109]]) == Missing
  {
    RootFirst(d, 2);
    Inodes(d, 2, 4);
    LookupHome();
    OneStep(d, G, HOME);
    OneStep(d, G, [104, 111, 109]);
  }

  lemma OneStep(d: seq<byte>, g: Geo, name: seq<byte>)
    requires MetaOk(d, g) && ValidInode(g, ROOT) && Chained(d, g, ROOT) && FirstBlock(d, g, ROOT) != 0
    requires Child(d, g, ROOT, name) != 0 ==> ValidInode(g, Child(d, g, ROOT, name))
    ensures WalkOk(d, g, ROOT, [name]) && Walk(d, g, 0, ROOT, [name]) == AnswerOf(Child(d, g, ROOT, name))
  {
    var path := [name];
    var rest := path[1..];
    assert path[0] == name && rest == [];
    if Child(d, g, ROOT, name) != 0 {
      assert WalkOk(d, g, Child(d, g, ROOT, name), rest);
    }
  }

  lemma LookupHome()
    ensures Lookup(FIRST, HOME) == 4 && Lookup(FIRST, [104, 111, 109]) == 0
  {
    var rest := FIRST[1..];
    assert |FIRST[0].name| == 1 && rest[0] == Entry(4, HOME) && rest != [];
    assert Lookup(FIRST, HOME) == Lookup(rest, HOME);
    var hom := [104, 111, 109];
    assert |FIRST[1].name| == 4 && |FIRST[2].name| == 2 && |FIRST[3].name| == 2 && |hom| == 3;
    forall k | 0 <= k < |FIRST| ensures FIRST[k].name != hom {
      assert |FIRST[k].name| != 3;
    }
    LookupAbsent(FIRST, hom);
  }

  /** A name the root has only in a later block. */
  lemma OnlyLater(d: seq<byte>, g: Geo, a: seq<byte>)
    requires MetaOk(d, g) && ValidInode(g, ROOT) && IsDir(d, g, ROOT) && Chained(d, g, ROOT)
    requires FirstBlock(d, g, ROOT) != 0 && BlocksChained(d, GetInode(d, g, ROOT), 0)
    requires Child(d, g, ROOT, a) == 0 && Named(d, g, ROOT, a) != 0 && ValidInode(g, Named(d, g, ROOT, a))
    ensures WalkOk(d, g, ROOT, [a]) && ResolveOk(d, g, ROOT, [a]) && Overlooks(d, g, ROOT, [a])
    ensures Walk(d, g, 0, ROOT, [a]) == Missing && Resolve(d, g, ROOT, [a]) == Named(d, g, ROOT, a)
  {
    var path := [a];
    assert path[0] == a && path[1..] == [];
    assert ResolveOk(d, g, Named(d, g, ROOT, a), path[1..]);
  }

  lemma LookupZ()
    ensures Lookup(FIRST, [122]) == 0 && Lookup(ALL, [122]) == 4
  {
    LookupAbsent(FIRST, [122]);
    LookupConcat(FIRST, [Entry(4, [122])], [122]);
    assert ALL == FIRST + [Entry(4, [122])];
  }

  lemma {:induction false} LookupAbsent(es: seq<Entry>, name: seq<byte>)
    requires forall k :: 0 <= k < |es| ==> es[k].name != name
    ensures Lookup(es, name) == 0
    decreases |es|
  {
    if es != [] {
      LookupAbsent(es[1..], name);
    }
  }

  /** "/z": the name is in the root's second block, where the driver does not look. */
  lemma InLaterBlock(d: seq<byte>)
    requires d == Image(2)
    ensures Wf(d, G)
    ensures var path := [[122]];
      && WalkOk(d, G, ROOT, path) && ResolveOk(d, G, ROOT, path) && Overlooks(d, G, ROOT, path)
      && Walk(d, G, 0, ROOT, path) == Missing && Resolve(d, G, ROOT, path) == 4
  {
    WellFormed(d, 2);
    RootFirst(d, 2);
    RootAll(d, 2);
    LookupZ();
    OnlyLater(d, G, [122]);
  }

  /** Listing "/": "a" and "home" as files, "up" as a directory, and not "$h". */
  lemma ListRoot(d: seq<byte>)
    requires d == Image(2)
    ensures MetaOk(d, G) && InDisk(d, 4) && Listable(G, Blk(d, 4), 0)
    ensures ShownFrom(d, G, Blk(d, 4), 0) == [([97], false), ([104, 111, 109, 101], false), ([117, 112], true)]
  {
    RootFirst(d, 2);
    Block4(d, 2);
    Inodes(d, 2, 2);
    Inodes(d, 2, 3);
    Inodes(d, 2, 4);
    AllExist();
    RootLines(d, G);
  }

  lemma RootLines(d: seq<byte>, g: Geo)
    requires MetaOk(d, g) && ValidInode(g, 2) && ValidInode(g, 3) && ValidInode(g, 4) && EntriesValid(g, FIRST)
    requires Kind(GetInode(d, g, 2)) == 4 && Kind(GetInode(d, g, 3)) == 8 && Kind(GetInode(d, g, 4)) == 8
    ensures Shown(d, g, FIRST) == [([97], false), ([104, 111, 109, 101], false), ([117, 112], true)]
  {
    var a, h, u, x := Entry(3, [97]), Entry(4, HOME), Entry(2, [117, 112]), Entry(4, [36, 104]);
    ShownCons(d, g, [x], x, []);
    ShownCons(d, g, [u, x], u, [x]);
    ShownCons(d, g, [h, u, x], h, [u, x]);
    ShownCons(d, g, FIRST, a, [h, u, x]);
  }

  // ----- writes -----

  /** Two blocks free: a first write to "home" and an append to "a" can be carried out. */
  lemma CanWriteHere(d: seq<byte>)
    requires d == Image(2)
    ensures Frontier(d, G) && CanWrite(d, G, WriteOp(4, [65])) && CanWrite(d, G, WriteOp(3, [65]))
  {
    InOrder(d, 2);
    Meta(d, 2);
    Inodes(d, 2, 3);
    Inodes(d, 2, 4);
    assert Owns(d, G, 3, 0);
  }

  /** One block free: the number handed out is 10, past the end of the disk. */
  lemma LastFreeBlock(d: seq<byte>)
    requires d == Image(1)
    ensures Frontier(d, G) && FreeCount(d, G, 0) == 1 && NextBlock(d, G, 0) == 10 && !InDisk(d, 10)
  {
    InOrder(d, 1);
    Meta(d, 1);
  }

  /** No block free: the number stays 0, and a first write to "home" leaves it without a block for its byte. */
  lemma NoBlockFree(d: seq<byte>)
    requires d == Image(0)
    ensures AllocOk(d, G) && GroupWithRoom(d, G, 0) == G.bgs && Bid(d, G) == 0
    ensures MetaOk(d, G) && ValidInode(G, 4) && !Covered(Started(GetInode(d, G, 4), Bid(d, G), 1))
  {
    Meta(d, 0);
    Inodes(d, 0, 4);
    FreshCoveredExactly(d, G, GetInode(d, G, 4), 1);
  }

  /** 1010 more bytes behind the 20 of "a" need a second block, which appending does not take. */
  lemma AppendPastBlock(d: seq<byte>)
    requires d == Image(2)
    ensures MetaOk(d, G) && ValidInode(G, 3)
    ensures Covered(GetInode(d, G, 3)) && !Covered(Grown(GetInode(d, G, 3), 1010))
  {
    Inodes(d, 2, 3);
    AppendCoveredExactly(GetInode(d, G, 3), 1010);
  }

  /** Reading the 1500 bytes of inode 5, two blocks, returns 3000. */
  lemma TwoBlockCount(d: seq<byte>)
    requires d == Image(2)
    ensures MetaOk(d, G) && ValidInode(G, 5)
    ensures Size(GetInode(d, G, 5)) == 1500 && ReadCount(GetInode(d, G, 5)) == 3000
  {
    Inodes(d, 2, 5);
    TwoLeading(GetInode(d, G, 5));
  }

  lemma TwoLeading(r: seq<byte>)
    requires |r| == RECORD && Pointer(r, 0) != 0 && Pointer(r, 1) != 0 && Pointer(r, 2) == 0
    ensures Leading(r, 0) == 2
  {
    assert Leading(r, 2) == 2;
    assert Leading(r, 1) == 2;
  }
}
