/** Reading a file through its path, and appending followed by reading. */
module Ext2ReadBack {
  import opened Bytes
  import opened Ext2Layout
  import opened Ext2Path
  import opened Ext2Walk
  import opened Ext2Files

  /** The number of direct pointers before the first zero one. */
  function Leading(r: seq<byte>, k: nat): (n: nat)
    requires |r| == RECORD && k <= DIRECT
    ensures k <= n <= DIRECT && (n < DIRECT ==> Pointer(r, n) == 0)
    ensures forall j :: k <= j < n ==> Pointer(r, j) != 0
    decreases DIRECT - k, r
  {
    if k == DIRECT || Pointer(r, k) == 0 then k else Leading(r, k + 1)
  }

  ghost predicate BlocksInDisk(d: seq<byte>, r: seq<byte>)
    requires |r| == RECORD
  {
    forall k :: 0 <= k < DIRECT && k < Leading(r, 0) ==> InDisk(d, Pointer(r, k))
  }

  /** The first n direct blocks, one after another. */
  function Blocks(d: seq<byte>, r: seq<byte>, n: nat): (s: seq<byte>)
    requires |r| == RECORD && n <= DIRECT && forall k :: 0 <= k < n ==> InDisk(d, Pointer(r, k))
    ensures |s| == BLOCK * n
    decreases n, r
  {
    if n == 0 then [] else Blocks(d, r, n - 1) + Blk(d, Pointer(r, n - 1))
  }

  /** The count ext2_read_file returns: the file's size once for every block copied. */
  function ReadCount(r: seq<byte>): u32
    requires |r| == RECORD
  {
    Wrap(Leading(r, 0) * Size(r))
  }

  /** The returned count is the size exactly when one block was copied. */
  lemma ReadCountExactly(r: seq<byte>)
    requires |r| == RECORD && 0 < Size(r) <= BLOCK * DIRECT
    ensures ReadCount(r) == Size(r) <==> Leading(r, 0) == 1
  {
    TimesExactly(Leading(r, 0), Size(r));
  }

  lemma TimesExactly(n: nat, size: nat)
    requires n <= DIRECT && 0 < size <= BLOCK * DIRECT
    ensures Wrap(n * size) == size <==> n == 1
  {
    var p := n * size;
    assert 0 <= p <= DIRECT * size;
    assert n >= 2 ==> p >= 2 * size;
  }

  lemma {:induction false} BlocksByte(d: seq<byte>, r: seq<byte>, n: nat, k: nat, o: nat)
    requires |r| == RECORD && k < n <= DIRECT && o < BLOCK && forall j :: 0 <= j < n ==> InDisk(d, Pointer(r, j))
    ensures Blocks(d, r, n)[BLOCK * k + o] == d[BLOCK * Pointer(r, k) + o]
    decreases n
  {
    var before, last := Blocks(d, r, n - 1), Blk(d, Pointer(r, n - 1));
    var p := BLOCK * k + o;
    assert Blocks(d, r, n) == before + last;
    if k < n - 1 {
      BlocksByte(d, r, n - 1, k, o);
      assert (before + last)[p] == before[p];
    } else {
      assert (before + last)[p] == last[o];
    }
  }

  lemma LeadingCovers(d: seq<byte>, r: seq<byte>)
    requires |r| == RECORD && BlocksInDisk(d, r) && Size(r) <= BLOCK * Leading(r, 0)
    ensures Readable(d, r)
  {
    forall k | 0 <= k < DIRECT && BLOCK * k < Size(r) ensures InDisk(d, Pointer(r, k)) {
      assert k < Leading(r, 0);
    }
  }

  /** The bytes copied are the file's contents and then the rest of the last block. */
  lemma BlocksAreContent(d: seq<byte>, r: seq<byte>)
    requires |r| == RECORD && BlocksInDisk(d, r) && Size(r) <= BLOCK * Leading(r, 0)
    ensures Readable(d, r) && Blocks(d, r, Leading(r, 0))[..Size(r)] == Content(d, r)
  {
    LeadingCovers(d, r);
    var b := Blocks(d, r, Leading(r, 0));
    forall m | 0 <= m < Size(r) ensures b[m] == d[BLOCK * Pointer(r, m / BLOCK) + m % BLOCK] {
      assert m == BLOCK * (m / BLOCK) + m % BLOCK && m / BLOCK < Leading(r, 0);
      BlocksByte(d, r, Leading(r, 0), m / BLOCK, m % BLOCK);
    }
  }

  // ----- paths through directories -----

  /** Every inode the path passes through is a directory. */
  predicate DirPath(d: seq<byte>, g: Geo, i: nat, comps: seq<seq<byte>>)
    requires MetaOk(d, g)
    decreases |comps|
  {
    && ValidInode(g, i)
    && (comps != [] ==> (Kind(GetInode(d, g, i)) == DIRECTORY && Chained(d, g, i)
                         && (Child(d, g, i, comps[0]) != 0 && comps[1..] != [] ==>
                               DirPath(d, g, Child(d, g, i, comps[0]), comps[1..]))))
  }

  lemma {:induction false} LookupIsEntry(es: seq<Entry>, name: seq<byte>)
    ensures Lookup(es, name) != 0 ==> exists e :: e in es && e.inode == Lookup(es, name)
    decreases |es|
  {
    if es != [] {
      if es[0].name == name {
        assert es[0] in es;
      } else {
        LookupIsEntry(es[1..], name);
      }
    }
  }

  /** On a well-formed image a path through directories can be walked. */
  lemma {:induction false} DirPathWalk(d: seq<byte>, g: Geo, i: nat, comps: seq<seq<byte>>)
    requires Wf(d, g) && DirPath(d, g, i, comps)
    ensures WalkOk(d, g, i, comps) && ThroughDirs(d, g, i, comps)
    decreases |comps|
  {
    if comps != [] {
      assert DirOk(d, g, i);
      DirOkFirst(d, g, i);
      var c := Child(d, g, i, comps[0]);
      LookupIsEntry(DirEntries(d, g, i), comps[0]);
      if c != 0 {
        assert ValidInode(g, c);
        if comps[1..] != [] {
          DirPathWalk(d, g, c, comps[1..]);
        }
      }
    }
  }

  /** On a well-formed image every path can be looked up. */
  lemma {:induction false} ImageResolves(d: seq<byte>, g: Geo, i: nat, comps: seq<seq<byte>>)
    requires Wf(d, g) && ValidInode(g, i)
    ensures ResolveOk(d, g, i, comps)
    decreases |comps|
  {
    if comps != [] && IsDir(d, g, i) {
      assert DirOk(d, g, i);
      LookupIsEntry(RecordsFrom(d, GetInode(d, g, i), 0), comps[0]);
      var n := Named(d, g, i, comps[0]);
      if n != 0 {
        ImageResolves(d, g, n, comps[1..]);
      }
    }
  }

  /** On a well-formed image, for every path the driver can walk: finding is the lookup exactly when the root
      has no block or the walk neither answers past something that is not a directory with blocks, nor misses a
      name in a later block; and then, unless the root has no block, it ends holding the inode looked up. */
  lemma FindOnImage(d: seq<byte>, g: Geo, comps: seq<seq<byte>>)
    requires Wf(d, g) && WalkOk(d, g, ROOT, comps) && comps != []
    ensures ResolveOk(d, g, ROOT, comps)
    ensures Number(Walk(d, g, 0, ROOT, comps)) == Resolve(d, g, ROOT, comps)
      <==> FirstBlock(d, g, ROOT) == 0 || (!Trespasses(d, g, ROOT, comps) && !Overlooks(d, g, ROOT, comps))
    ensures FirstBlock(d, g, ROOT) != 0 && !Trespasses(d, g, ROOT, comps) && !Overlooks(d, g, ROOT, comps) ==>
      Walk(d, g, 0, ROOT, comps) == AnswerOf(Resolve(d, g, ROOT, comps))
  {
    ImageResolves(d, g, ROOT, comps);
    FindExactly(d, g, comps);
  }

  /** Directory `i` has exactly one block. */
  predicate OneBlockDir(d: seq<byte>, g: Geo, i: nat)
    requires MetaOk(d, g) && ValidInode(g, i)
  {
    FirstBlock(d, g, i) != 0 && Pointer(GetInode(d, g, i), 1) == 0
  }

  lemma OneBlockNames(d: seq<byte>, g: Geo, i: nat, name: seq<byte>)
    requires MetaOk(d, g) && ValidInode(g, i) && IsDir(d, g, i) && Chained(d, g, i) && OneBlockDir(d, g, i)
    requires BlocksChained(d, GetInode(d, g, i), 0)
    ensures Named(d, g, i, name) == Child(d, g, i, name)
  {
    var r := GetInode(d, g, i);
    var es := Entries(Blk(d, Pointer(r, 0)), 0);
    assert RecordsFrom(d, r, 1) == [];
    assert RecordsFrom(d, r, 0) == es + [] == es;
  }

  /** A path through directories of one block each neither trespasses nor overlooks. */
  lemma {:induction false} NeverAstray(d: seq<byte>, g: Geo, i: nat, comps: seq<seq<byte>>)
    requires Wf(d, g) && DirPath(d, g, i, comps) && WalkOk(d, g, i, comps) && ResolveOk(d, g, i, comps)
    requires forall j :: ValidInode(g, j) && IsDir(d, g, j) ==> OneBlockDir(d, g, j)
    ensures !Trespasses(d, g, i, comps) && !Overlooks(d, g, i, comps)
    decreases |comps|
  {
    if comps != [] {
      var c := Child(d, g, i, comps[0]);
      assert OneBlockDir(d, g, i);
      OneBlockNames(d, g, i, comps[0]);
      if comps[1..] != [] && c != 0 {
        NeverAstray(d, g, c, comps[1..]);
      }
    }
  }

  /** On a well-formed image whose directories have one block each, finding a path through directories is
      the component-by-component lookup: the same inode, or nothing when a component is missing. */
  lemma FindThroughDirs(d: seq<byte>, g: Geo, comps: seq<seq<byte>>)
    requires Wf(d, g) && DirPath(d, g, ROOT, comps) && comps != []
    requires forall j :: ValidInode(g, j) && IsDir(d, g, j) ==> OneBlockDir(d, g, j)
    ensures WalkOk(d, g, ROOT, comps) && ResolveOk(d, g, ROOT, comps)
    ensures Walk(d, g, 0, ROOT, comps) == AnswerOf(Resolve(d, g, ROOT, comps))
  {
    DirPathWalk(d, g, ROOT, comps);
    ImageResolves(d, g, ROOT, comps);
    NeverAstray(d, g, ROOT, comps);
    assert OneBlockDir(d, g, ROOT);
    FindExactly(d, g, comps);
  }

  /** Every directory's record and entries are the same on both disks. */
  ghost predicate SameDirs(d: seq<byte>, d': seq<byte>, g: Geo)
    requires MetaOk(d, g) && MetaOk(d', g)
  {
    forall j :: ValidInode(g, j) && IsDir(d, g, j) ==> SameDir(d, d', g, j) && IsDir(d', g, j)
  }

  lemma {:induction false} DirPathKept(d: seq<byte>, d': seq<byte>, g: Geo, i: nat, comps: seq<seq<byte>>)
    requires MetaOk(d, g) && MetaOk(d', g) && DirPath(d, g, i, comps) && SameDirs(d, d', g)
    ensures DirPath(d', g, i, comps)
    decreases |comps|
  {
    if comps != [] {
      assert SameDir(d, d', g, i);
      var c := Child(d, g, i, comps[0]);
      assert Chained(d', g, i) && Child(d', g, i, comps[0]) == c;
      if c != 0 && comps[1..] != [] {
        DirPathKept(d, d', g, c, comps[1..]);
      }
    }
  }

  /** After an append to a regular file every path through directories leads where it did. */
  lemma AppendKeepsPaths(d: seq<byte>, g: Geo, i: nat, data: seq<byte>, comps: seq<seq<byte>>)
    requires Wf(d, g) && AppendFits(d, g, i, |data|) && Kind(GetInode(d, g, i)) == FILE
    requires DirPath(d, g, ROOT, comps)
    ensures var d2 := Append(d, g, i, data);
      && MetaOk(d2, g) && WalkOk(d, g, ROOT, comps) && WalkOk(d2, g, ROOT, comps) && DirPath(d2, g, ROOT, comps)
      && Walk(d2, g, 0, ROOT, comps) == Walk(d, g, 0, ROOT, comps)
  {
    DirPathWalk(d, g, ROOT, comps);
    var d2 := Append(d, g, i, data);
    AppendRecords(d, g, i, data);
    forall j | ValidInode(g, j) && IsDir(d, g, j) ensures SameDir(d, d2, g, j) && IsDir(d2, g, j) {
      assert DirOk(d, g, j);
      AppendOthers(d, g, i, data, j);
      DirKept(d, d2, g, j);
    }
    DirPathKept(d, d2, g, ROOT, comps);
    WalkKept(d, d2, g, 0, ROOT, comps);
  }

  /** Reading this record returns the length of `c` and a buffer that starts with `c`. */
  ghost predicate ReadsAs(d: seq<byte>, r: seq<byte>, c: seq<byte>)
    requires |r| == RECORD
  {
    && Leading(r, 0) == 1 && InDisk(d, Pointer(r, 0)) && ReadCount(r) == |c| <= BLOCK
    && Blocks(d, r, 1)[..|c|] == c
  }

  /** A file held in one direct block. */
  predicate OneBlock(r: seq<byte>)
    requires |r| == RECORD
  {
    Pointer(r, 0) != 0 && Pointer(r, 1) == 0 && 0 < Size(r) < BLOCK
  }

  lemma OneBlockFacts(d: seq<byte>, g: Geo, i: nat, n: nat)
    requires Wf(d, g) && AppendFits(d, g, i, n) && OneBlock(GetInode(d, g, i))
    ensures Allocated(d, g, i) && InDisk(d, Ptr(d, g, i, 0)) && Readable(d, GetInode(d, g, i))
  {
    var r := GetInode(d, g, i);
    forall k | 0 <= k < DIRECT && BLOCK * k < Size(r) ensures Pointer(r, k) != 0 {
      assert k == 0;
    }
    AllocatedReadable(d, g, i);
  }

  lemma OneBlockReads(d: seq<byte>, r: seq<byte>)
    requires |r| == RECORD && Pointer(r, 0) != 0 && Pointer(r, 1) == 0 && 0 < Size(r) <= BLOCK
    requires InDisk(d, Pointer(r, 0)) && Readable(d, r)
    ensures ReadsAs(d, r, Content(d, r))
  {
    assert Leading(r, 1) == 1;
    ReadCountExactly(r);
    BlocksAreContent(d, r);
  }

  /** Append, then read by the same path: for a file held in one block the path still leads to the file,
      the count returned is the grown size, and the buffer starts with the old contents followed by the
      new bytes. */
  lemma AppendThenRead(d: seq<byte>, g: Geo, i: nat, data: seq<byte>, comps: seq<seq<byte>>, d2: seq<byte>)
    requires Wf(d, g) && AppendFits(d, g, i, |data|) && Kind(GetInode(d, g, i)) == FILE
    requires OneBlock(GetInode(d, g, i)) && Readable(d, GetInode(d, g, i)) && d2 == Append(d, g, i, data)
    requires DirPath(d, g, ROOT, comps) && WalkOk(d, g, ROOT, comps) && Walk(d, g, 0, ROOT, comps) == Found(i, i)
    ensures MetaOk(d2, g) && WalkOk(d2, g, ROOT, comps) && Walk(d2, g, 0, ROOT, comps) == Found(i, i)
    ensures ReadsAs(d2, GetInode(d2, g, i), FileContent(d, g, i) + data)
  {
    AppendKeepsPaths(d, g, i, data, comps);
    AppendReads(d, g, i, data, d2);
  }

  lemma AppendReads(d: seq<byte>, g: Geo, i: nat, data: seq<byte>, d2: seq<byte>)
    requires Wf(d, g) && AppendFits(d, g, i, |data|)
    requires OneBlock(GetInode(d, g, i)) && Readable(d, GetInode(d, g, i)) && d2 == Append(d, g, i, data)
    ensures MetaOk(d2, g) && ReadsAs(d2, GetInode(d2, g, i), FileContent(d, g, i) + data)
  {
    var r := GetInode(d, g, i);
    OneBlockFacts(d, g, i, |data|);
    AppendContent(d, g, i, data);
    AppendRecords(d, g, i, data);
    GrownFields(r, |data|);
    OneBlockReads(d2, Grown(r, |data|));
  }
}
