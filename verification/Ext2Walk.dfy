/** What a path leads to: the lookup the paths are meant to have, the walk the driver performs, and
    where the two agree. */
module Ext2Walk {
  import opened Bytes
  import opened Ext2Layout
  import opened Ext2Path

  /** The first direct block of an inode. */
  function FirstBlock(d: seq<byte>, g: Geo, i: nat): u32
    requires MetaOk(d, g) && ValidInode(g, i)
  {
    Pointer(GetInode(d, g, i), 0)
  }

  /** The inode has no first block, or that block holds a record chain. */
  predicate Chained(d: seq<byte>, g: Geo, i: nat)
    requires MetaOk(d, g) && ValidInode(g, i)
  {
    var b := FirstBlock(d, g, i);
    b != 0 ==> InDisk(d, b) && ChainOk(Blk(d, b), 0)
  }

  /** The records of the first block; none without one. */
  function DirEntries(d: seq<byte>, g: Geo, i: nat): seq<Entry>
    requires MetaOk(d, g) && ValidInode(g, i) && Chained(d, g, i)
  {
    var b := FirstBlock(d, g, i);
    if b == 0 then [] else Entries(Blk(d, b), 0)
  }

  function Child(d: seq<byte>, g: Geo, i: nat, name: seq<byte>): u32
    requires MetaOk(d, g) && ValidInode(g, i) && Chained(d, g, i)
  {
    Lookup(DirEntries(d, g, i), name)
  }

  /** Every inode the path passes through has a record chain (or no block), and the inode numbers found
      on the way exist. */
  predicate WalkOk(d: seq<byte>, g: Geo, i: nat, comps: seq<seq<byte>>)
    requires MetaOk(d, g)
    decreases |comps|
  {
    && ValidInode(g, i)
    && (comps != [] ==> (Chained(d, g, i)
                         && (Child(d, g, i, comps[0]) != 0 ==> WalkOk(d, g, Child(d, g, i, comps[0]), comps[1..]))))
  }

  /** The driver's answer: nothing, or an inode number to return and the inode it holds in memory. */
  datatype Answer = Missing | Found(ret: nat, held: nat)

  function Number(a: Answer): nat {
    if a.Missing? then 0 else a.ret
  }

  /** The driver's walk: an inode without a first block ends it, with whatever was found so far. */
  function Walk(d: seq<byte>, g: Geo, ret: nat, i: nat, comps: seq<seq<byte>>): Answer
    requires MetaOk(d, g) && WalkOk(d, g, i, comps)
    decreases |comps|
  {
    if comps == [] || FirstBlock(d, g, i) == 0 then Found(ret, i)
    else if Child(d, g, i, comps[0]) == 0 then Missing
    else Walk(d, g, Child(d, g, i, comps[0]), Child(d, g, i, comps[0]), comps[1..])
  }

  // ----- the lookup a path is meant to have -----

  predicate IsDir(d: seq<byte>, g: Geo, i: nat)
    requires MetaOk(d, g) && ValidInode(g, i)
  {
    Kind(GetInode(d, g, i)) == DIRECTORY
  }

  /** The direct blocks from pointer k on, up to the first zero pointer, hold record chains. */
  predicate BlocksChained(d: seq<byte>, r: seq<byte>, k: nat)
    requires |r| == RECORD && k <= DIRECT
    decreases DIRECT - k, r
  {
    k == DIRECT || Pointer(r, k) == 0 ||
    (InDisk(d, Pointer(r, k)) && ChainOk(Blk(d, Pointer(r, k)), 0) && BlocksChained(d, r, k + 1))
  }

  /** All records of those blocks, in order. */
  function RecordsFrom(d: seq<byte>, r: seq<byte>, k: nat): seq<Entry>
    requires |r| == RECORD && k <= DIRECT && BlocksChained(d, r, k)
    decreases DIRECT - k, r
  {
    if k == DIRECT || Pointer(r, k) == 0 then []
    else Entries(Blk(d, Pointer(r, k)), 0) + RecordsFrom(d, r, k + 1)
  }

  /** What a name means in inode `i`: only directories contain names, and a name may be in any of their
      direct blocks. */
  function Named(d: seq<byte>, g: Geo, i: nat, name: seq<byte>): u32
    requires MetaOk(d, g) && ValidInode(g, i) && (IsDir(d, g, i) ==> BlocksChained(d, GetInode(d, g, i), 0))
  {
    if IsDir(d, g, i) then Lookup(RecordsFrom(d, GetInode(d, g, i), 0), name) else 0
  }

  /** The directories on the way are in order. */
  predicate ResolveOk(d: seq<byte>, g: Geo, i: nat, comps: seq<seq<byte>>)
    requires MetaOk(d, g)
    decreases |comps|
  {
    && ValidInode(g, i)
    && (comps != [] && IsDir(d, g, i) ==>
          && BlocksChained(d, GetInode(d, g, i), 0)
          && (Named(d, g, i, comps[0]) != 0 ==> ResolveOk(d, g, Named(d, g, i, comps[0]), comps[1..])))
  }

  /** Component by component from inode `i`; zero when a component is missing. */
  function Resolve(d: seq<byte>, g: Geo, i: nat, comps: seq<seq<byte>>): nat
    requires MetaOk(d, g) && ResolveOk(d, g, i, comps)
    decreases |comps|
  {
    if comps == [] then i
    else if Named(d, g, i, comps[0]) == 0 then 0
    else Resolve(d, g, Named(d, g, i, comps[0]), comps[1..])
  }

  lemma {:induction false} LookupConcat(a: seq<Entry>, b: seq<Entry>, name: seq<byte>)
    requires forall e :: e in a ==> e.inode != 0
    ensures Lookup(a + b, name) == if Lookup(a, name) != 0 then Lookup(a, name) else Lookup(b, name)
    decreases |a|
  {
    if a == [] {
      assert a + b == b;
    } else {
      assert (a + b)[0] == a[0] && (a + b)[1..] == a[1..] + b && a[0] in a;
      LookupConcat(a[1..], b, name);
    }
  }

  /** A name in a directory's first block is the name the driver finds there. */
  lemma FirstBlockNames(d: seq<byte>, g: Geo, i: nat, name: seq<byte>)
    requires MetaOk(d, g) && ValidInode(g, i) && Chained(d, g, i)
    requires IsDir(d, g, i) && BlocksChained(d, GetInode(d, g, i), 0)
    ensures Child(d, g, i, name) != 0 ==> Named(d, g, i, name) == Child(d, g, i, name)
    ensures FirstBlock(d, g, i) == 0 ==> Named(d, g, i, name) == 0
  {
    if FirstBlock(d, g, i) != 0 {
      BlockDecides(d, GetInode(d, g, i), 0, name);
    }
  }

  /** The blocks are looked through in order. */
  lemma BlockDecides(d: seq<byte>, r: seq<byte>, k: nat, name: seq<byte>)
    requires |r| == RECORD && k < DIRECT && Pointer(r, k) != 0 && BlocksChained(d, r, k)
    ensures InDisk(d, Pointer(r, k)) && ChainOk(Blk(d, Pointer(r, k)), 0) && BlocksChained(d, r, k + 1)
    ensures var rc := Lookup(Entries(Blk(d, Pointer(r, k)), 0), name);
      Lookup(RecordsFrom(d, r, k), name) == if rc != 0 then rc else Lookup(RecordsFrom(d, r, k + 1), name)
  {
    var es := Entries(Blk(d, Pointer(r, k)), 0);
    EntriesNonZero(Blk(d, Pointer(r, k)), 0);
    LookupConcat(es, RecordsFrom(d, r, k + 1), name);
  }

  // ----- where the two differ -----

  /** Read as directories whatever they are, the inodes from `i` on spell out the components, or lead to
      one without a first block. */
  predicate Spelled(d: seq<byte>, g: Geo, i: nat, comps: seq<seq<byte>>)
    requires MetaOk(d, g) && WalkOk(d, g, i, comps)
    decreases |comps|
  {
    comps == [] || FirstBlock(d, g, i) == 0 ||
    (Child(d, g, i, comps[0]) != 0 && Spelled(d, g, Child(d, g, i, comps[0]), comps[1..]))
  }

  /** Following first blocks, the path comes, with components left, to something that cannot contain
      them: an inode that is not a directory or that has no first block, and the walk goes on from there
      to an answer. */
  predicate Trespasses(d: seq<byte>, g: Geo, i: nat, comps: seq<seq<byte>>)
    requires MetaOk(d, g) && WalkOk(d, g, i, comps)
    decreases |comps|
  {
    comps != [] &&
    if IsDir(d, g, i) && FirstBlock(d, g, i) != 0 then
      Child(d, g, i, comps[0]) != 0 && Trespasses(d, g, Child(d, g, i, comps[0]), comps[1..])
    else Spelled(d, g, i, comps)
  }

  /** Following first blocks, the path comes to a directory that has the next name only in a later block,
      and the rest of the path exists from there. */
  predicate Overlooks(d: seq<byte>, g: Geo, i: nat, comps: seq<seq<byte>>)
    requires MetaOk(d, g) && WalkOk(d, g, i, comps) && ResolveOk(d, g, i, comps)
    decreases |comps|
  {
    comps != [] && IsDir(d, g, i) &&
    var c, n := Child(d, g, i, comps[0]), Named(d, g, i, comps[0]);
    if c != 0 then
      FirstBlockNames(d, g, i, comps[0]);
      Overlooks(d, g, c, comps[1..])
    else n != 0 && Resolve(d, g, n, comps[1..]) != 0
  }

  /** From an inode that was found, the driver's walk answers exactly when the blocks spell the path out. */
  lemma {:induction false} WalkSpelled(d: seq<byte>, g: Geo, ret: nat, i: nat, comps: seq<seq<byte>>)
    requires MetaOk(d, g) && WalkOk(d, g, i, comps) && ret != 0
    ensures Walk(d, g, ret, i, comps) == Missing <==> !Spelled(d, g, i, comps)
    ensures Number(Walk(d, g, ret, i, comps)) == 0 <==> Walk(d, g, ret, i, comps) == Missing
    decreases |comps|
  {
    if comps != [] && FirstBlock(d, g, i) != 0 && Child(d, g, i, comps[0]) != 0 {
      var c := Child(d, g, i, comps[0]);
      WalkSpelled(d, g, c, c, comps[1..]);
    }
  }

  /** What the driver finds in an inode, by the bytes on the disk: in the block its first pointer names, the inode of
      the first record that bears the name. */
  lemma ChildOnDisk(d: seq<byte>, g: Geo, i: nat, name: seq<byte>, offs: seq<nat>)
    requires MetaOk(d, g) && ValidInode(g, i) && Chained(d, g, i) && 0 !in name
    ensures InodeAt(d, g, i) + 128 <= |d| && (IsDir(d, g, i) <==> d[InodeAt(d, g, i) + 1] as int / 16 == 4)
    ensures var b := U32(d, InodeAt(d, g, i) + 40);
      if b == 0 then Child(d, g, i, name) == 0
      else InDisk(d, b) && (Offsets(Blk(d, b), offs) && offs[0] == 0 ==>
             FirstBearing(Blk(d, b), offs, name, Child(d, g, i, name)))
  {
    FieldsOnDisk(d, g, i);
    var b := FirstBlock(d, g, i);
    assert b == U32(d, InodeAt(d, g, i) + 40 + 4 * 0);
    if b != 0 && Offsets(Blk(d, b), offs) && offs[0] == 0 {
      LookupBearing(Blk(d, b), offs, name);
    }
  }

  /** The first block of `i`, read as a directory, names `j`. */
  predicate Names(d: seq<byte>, g: Geo, i: nat, name: seq<byte>, j: nat)
    requires MetaOk(d, g) && ValidInode(g, i)
  {
    Chained(d, g, i) && FirstBlock(d, g, i) != 0 && j != 0 && j == Child(d, g, i, name)
  }

  /** Inodes of which each one's first block names the next by the next component, down to the end of the path
      or to one without a first block. */
  ghost predicate Trail(d: seq<byte>, g: Geo, comps: seq<seq<byte>>, chain: seq<nat>)
    requires MetaOk(d, g)
  {
    && 0 < |chain| <= |comps| + 1
    && (forall k :: 0 <= k < |chain| ==> ValidInode(g, chain[k]))
    && (forall k :: 0 <= k < |chain| - 1 ==> Names(d, g, chain[k], comps[k], chain[k + 1]))
    && (|chain| == |comps| + 1 || FirstBlock(d, g, chain[|chain| - 1]) == 0)
  }

  lemma TrailCons(d: seq<byte>, g: Geo, i: nat, comps: seq<seq<byte>>, chain: seq<nat>)
    requires MetaOk(d, g) && comps != [] && ValidInode(g, i) && Trail(d, g, comps[1..], chain)
    requires Names(d, g, i, comps[0], chain[0])
    ensures Trail(d, g, comps, [i] + chain)
  {
    var all := [i] + chain;
    assert all[|all| - 1] == chain[|chain| - 1];
    forall k | 0 <= k < |all| - 1 ensures Names(d, g, all[k], comps[k], all[k + 1]) {
      if k > 0 {
        TrailLink(d, g, comps[1..], chain, k - 1);
        assert comps[1..][k - 1] == comps[k];
      }
    }
  }

  lemma TrailLink(d: seq<byte>, g: Geo, comps: seq<seq<byte>>, chain: seq<nat>, k: nat)
    requires MetaOk(d, g) && Trail(d, g, comps, chain) && k < |chain| - 1
    ensures ValidInode(g, chain[k]) && Names(d, g, chain[k], comps[k], chain[k + 1])
  {
  }

  lemma TrailTail(d: seq<byte>, g: Geo, comps: seq<seq<byte>>, chain: seq<nat>)
    requires MetaOk(d, g) && Trail(d, g, comps, chain) && |chain| > 1
    ensures comps != [] && Names(d, g, chain[0], comps[0], chain[1]) && Trail(d, g, comps[1..], chain[1..])
  {
    var rest := chain[1..];
    forall k | 0 <= k < |rest| - 1 ensures Names(d, g, rest[k], comps[1..][k], rest[k + 1]) {
      assert Names(d, g, chain[k + 1], comps[k + 1], chain[k + 2]);
    }
  }

  /** An answer of the walk ends a trail. */
  lemma {:induction false} WalkTrail(d: seq<byte>, g: Geo, ret: nat, i: nat, comps: seq<seq<byte>>)
    returns (chain: seq<nat>)
    requires MetaOk(d, g) && WalkOk(d, g, i, comps) && Walk(d, g, ret, i, comps).Found?
    ensures Trail(d, g, comps, chain) && chain[0] == i
    decreases |comps|
  {
    if comps == [] || FirstBlock(d, g, i) == 0 {
      chain := [i];
    } else {
      var c := Child(d, g, i, comps[0]);
      chain := WalkTrail(d, g, c, c, comps[1..]);
      TrailCons(d, g, i, comps, chain);
      chain := [i] + chain;
    }
  }

  /** Every trail from `i` is the way the walk goes. */
  lemma {:induction false} TrailWalk(d: seq<byte>, g: Geo, ret: nat, i: nat, comps: seq<seq<byte>>, chain: seq<nat>)
    requires MetaOk(d, g) && WalkOk(d, g, i, comps) && Trail(d, g, comps, chain) && chain[0] == i
    ensures var a := Walk(d, g, ret, i, comps);
      a == Found(if |chain| == 1 then ret else chain[|chain| - 1], chain[|chain| - 1])
    decreases |comps|
  {
    if |chain| > 1 {
      TrailTail(d, g, comps, chain);
      TrailWalk(d, g, chain[1], chain[1], comps[1..], chain[1..]);
    }
  }

  /** The driver finds something exactly when there is a trail, and ends holding its last inode. */
  lemma WalkFinds(d: seq<byte>, g: Geo, ret: nat, i: nat, comps: seq<seq<byte>>)
    requires MetaOk(d, g) && WalkOk(d, g, i, comps)
    ensures Walk(d, g, ret, i, comps).Found? <==> exists chain :: Trail(d, g, comps, chain) && chain[0] == i
    ensures forall chain :: Trail(d, g, comps, chain) && chain[0] == i ==>
      Walk(d, g, ret, i, comps).Found? && Walk(d, g, ret, i, comps).held == chain[|chain| - 1]
  {
    if Walk(d, g, ret, i, comps).Found? {
      var chain := WalkTrail(d, g, ret, i, comps);
    }
    forall chain | Trail(d, g, comps, chain) && chain[0] == i
      ensures Walk(d, g, ret, i, comps).Found? && Walk(d, g, ret, i, comps).held == chain[|chain| - 1]
    {
      TrailWalk(d, g, ret, i, comps, chain);
    }
  }

  /** From an inode that was found, the driver agrees with the lookup exactly when it neither trespasses
      nor overlooks. */
  lemma {:induction false} WalkFrom(d: seq<byte>, g: Geo, i: nat, comps: seq<seq<byte>>)
    requires MetaOk(d, g) && WalkOk(d, g, i, comps) && ResolveOk(d, g, i, comps)
    ensures Number(Walk(d, g, i, i, comps)) == Resolve(d, g, i, comps)
      <==> !Trespasses(d, g, i, comps) && !Overlooks(d, g, i, comps)
    ensures !Trespasses(d, g, i, comps) && !Overlooks(d, g, i, comps) ==>
      Walk(d, g, i, i, comps) == AnswerOf(Resolve(d, g, i, comps))
    decreases |comps|
  {
    WalkSpelled(d, g, i, i, comps);
    if comps != [] && IsDir(d, g, i) {
      FirstBlockNames(d, g, i, comps[0]);
      var c := Child(d, g, i, comps[0]);
      if c != 0 {
        WalkFrom(d, g, c, comps[1..]);
      }
    }
  }

  /** The answer that goes with a looked-up inode number. */
  function AnswerOf(n: nat): Answer {
    if n == 0 then Missing else Found(n, n)
  }

  /** From the root, the number the driver returns is the lookup's exactly when the root has no block (then
      both are zero) or the walk neither answers past something that cannot contain the components left,
      nor misses a name that is in a later block; and then it ends holding the inode looked up. */
  lemma FindExactly(d: seq<byte>, g: Geo, comps: seq<seq<byte>>)
    requires MetaOk(d, g) && WalkOk(d, g, ROOT, comps) && ResolveOk(d, g, ROOT, comps) && comps != []
    ensures Number(Walk(d, g, 0, ROOT, comps)) == Resolve(d, g, ROOT, comps)
      <==> FirstBlock(d, g, ROOT) == 0 || (!Trespasses(d, g, ROOT, comps) && !Overlooks(d, g, ROOT, comps))
    ensures FirstBlock(d, g, ROOT) != 0 && !Trespasses(d, g, ROOT, comps) && !Overlooks(d, g, ROOT, comps) ==>
      Walk(d, g, 0, ROOT, comps) == AnswerOf(Resolve(d, g, ROOT, comps))
  {
    if FirstBlock(d, g, ROOT) != 0 {
      assert Walk(d, g, 0, ROOT, comps) == Walk(d, g, ROOT, ROOT, comps);
      WalkFrom(d, g, ROOT, comps);
    } else if IsDir(d, g, ROOT) {
      FirstBlockNames(d, g, ROOT, comps[0]);
    }
  }

  /** Looking up a path of two parts is looking up the second part from where the first leads. */
  lemma {:induction false} ResolveConcat(d: seq<byte>, g: Geo, i: nat, a: seq<seq<byte>>, b: seq<seq<byte>>)
    requires MetaOk(d, g) && ResolveOk(d, g, i, a + b)
    ensures ResolveOk(d, g, i, a) && (Resolve(d, g, i, a) != 0 ==> ResolveOk(d, g, Resolve(d, g, i, a), b))
    ensures Resolve(d, g, i, a + b) == if Resolve(d, g, i, a) == 0 then 0 else Resolve(d, g, Resolve(d, g, i, a), b)
    decreases |a|
  {
    if a == [] {
      assert a + b == b;
    } else {
      assert (a + b)[0] == a[0] && (a + b)[1..] == a[1..] + b;
      if IsDir(d, g, i) && Named(d, g, i, a[0]) != 0 {
        ResolveConcat(d, g, Named(d, g, i, a[0]), a[1..], b);
      }
    }
  }

  /** The driver's walk along a path of two parts is its walk along the second part from wherever the first
      walk ended, also when that one ended early. */
  lemma {:induction false} WalkConcat(d: seq<byte>, g: Geo, ret: nat, i: nat, a: seq<seq<byte>>, b: seq<seq<byte>>)
    requires MetaOk(d, g) && WalkOk(d, g, i, a + b)
    ensures WalkOk(d, g, i, a)
    ensures match Walk(d, g, ret, i, a)
      case Missing => Walk(d, g, ret, i, a + b) == Missing
      case Found(r, h) => WalkOk(d, g, h, b) && Walk(d, g, ret, i, a + b) == Walk(d, g, r, h, b)
    decreases |a|
  {
    if a == [] {
      assert a + b == b;
    } else {
      assert (a + b)[0] == a[0] && (a + b)[1..] == a[1..] + b;
      if Child(d, g, i, a[0]) != 0 {
        WalkConcat(d, g, Child(d, g, i, a[0]), Child(d, g, i, a[0]), a[1..], b);
      }
    }
  }

  // ----- listing -----

  /** Every inode on the path, and the last one, has a record chain or no block. */
  predicate ListOk(d: seq<byte>, g: Geo, i: nat, comps: seq<seq<byte>>)
    requires MetaOk(d, g)
    decreases |comps|
  {
    && ValidInode(g, i) && Chained(d, g, i)
    && (comps != [] && Child(d, g, i, comps[0]) != 0 ==> ListOk(d, g, Child(d, g, i, comps[0]), comps[1..]))
  }

  lemma {:induction false} ListOkWalk(d: seq<byte>, g: Geo, i: nat, comps: seq<seq<byte>>)
    requires MetaOk(d, g) && ListOk(d, g, i, comps)
    ensures WalkOk(d, g, i, comps)
    decreases |comps|
  {
    if comps != [] && Child(d, g, i, comps[0]) != 0 {
      ListOkWalk(d, g, Child(d, g, i, comps[0]), comps[1..]);
    }
  }

  datatype Listing = Invalid | Silent | Listed(entries: seq<Entry>)

  /** What listing an inode shows: the records of its first block, or nothing at all without one. */
  function ListingOf(d: seq<byte>, g: Geo, i: nat): Listing
    requires MetaOk(d, g) && ValidInode(g, i) && Chained(d, g, i)
  {
    if FirstBlock(d, g, i) == 0 then Silent else Listed(DirEntries(d, g, i))
  }

  /** The driver's listing of a path other than "/": once it comes to an inode without a first block, on the
      way or at the end, it prints nothing. */
  function ListWalk(d: seq<byte>, g: Geo, i: nat, comps: seq<seq<byte>>): Listing
    requires MetaOk(d, g) && ListOk(d, g, i, comps)
    decreases |comps|
  {
    if comps == [] || FirstBlock(d, g, i) == 0 then ListingOf(d, g, i)
    else if Child(d, g, i, comps[0]) == 0 then Invalid
    else ListWalk(d, g, Child(d, g, i, comps[0]), comps[1..])
  }

  lemma {:induction false} ListFrom(d: seq<byte>, g: Geo, i: nat, comps: seq<seq<byte>>)
    requires MetaOk(d, g) && ListOk(d, g, i, comps) && WalkOk(d, g, i, comps)
    ensures match Walk(d, g, i, i, comps)
      case Missing => ListWalk(d, g, i, comps) == Invalid
      case Found(n, h) => n == h && ValidInode(g, n) && Chained(d, g, n)
                          && ListWalk(d, g, i, comps) == ListingOf(d, g, n)
    decreases |comps|
  {
    if comps != [] && FirstBlock(d, g, i) != 0 && Child(d, g, i, comps[0]) != 0 {
      ListFrom(d, g, Child(d, g, i, comps[0]), comps[1..]);
    }
  }

  /** Listing and finding agree: unless the root has no block, the listing shows exactly the inode that
      finding returns, and reports an invalid path exactly when finding returns zero. */
  lemma ListAgreesWithFind(d: seq<byte>, g: Geo, comps: seq<seq<byte>>)
    requires MetaOk(d, g) && ListOk(d, g, ROOT, comps) && comps != []
    ensures WalkOk(d, g, ROOT, comps)
    ensures var n := Number(Walk(d, g, 0, ROOT, comps));
      if FirstBlock(d, g, ROOT) == 0 then n == 0 && ListWalk(d, g, ROOT, comps) == Silent
      else
        && (n == 0 <==> ListWalk(d, g, ROOT, comps) == Invalid)
        && (n != 0 ==> ValidInode(g, n) && Chained(d, g, n) && ListWalk(d, g, ROOT, comps) == ListingOf(d, g, n))
  {
    ListOkWalk(d, g, ROOT, comps);
    ListFrom(d, g, ROOT, comps);
    if FirstBlock(d, g, ROOT) != 0 {
      assert Walk(d, g, 0, ROOT, comps) == Walk(d, g, ROOT, ROOT, comps);
    }
  }

  // ----- what a walk depends on -----

  /** Inode `i` and its first block are the same on both disks. */
  predicate SameDir(d: seq<byte>, d': seq<byte>, g: Geo, i: nat)
    requires MetaOk(d, g) && MetaOk(d', g) && ValidInode(g, i)
  {
    && |d| == |d'| && FirstBlock(d', g, i) == FirstBlock(d, g, i)
    && (FirstBlock(d, g, i) != 0 && InDisk(d, FirstBlock(d, g, i)) ==>
          Blk(d', FirstBlock(d, g, i)) == Blk(d, FirstBlock(d, g, i)))
  }

  /** The inodes the path passes through are directories. */
  predicate ThroughDirs(d: seq<byte>, g: Geo, i: nat, comps: seq<seq<byte>>)
    requires MetaOk(d, g) && WalkOk(d, g, i, comps)
    decreases |comps|
  {
    comps != [] ==>
      && Kind(GetInode(d, g, i)) == DIRECTORY
      && (Child(d, g, i, comps[0]) != 0 ==> ThroughDirs(d, g, Child(d, g, i, comps[0]), comps[1..]))
  }

  /** A disk on which every directory is the same gives every walk through directories the same answer. */
  lemma {:induction false} WalkKept(d: seq<byte>, d': seq<byte>, g: Geo, ret: nat, i: nat, comps: seq<seq<byte>>)
    requires MetaOk(d, g) && MetaOk(d', g) && WalkOk(d, g, i, comps) && ThroughDirs(d, g, i, comps)
    requires forall j :: ValidInode(g, j) && Kind(GetInode(d, g, j)) == DIRECTORY ==> SameDir(d, d', g, j)
    ensures WalkOk(d', g, i, comps) && Walk(d', g, ret, i, comps) == Walk(d, g, ret, i, comps)
    decreases |comps|
  {
    if comps != [] {
      assert SameDir(d, d', g, i);
      var c := Child(d, g, i, comps[0]);
      assert Chained(d', g, i) && Child(d', g, i, comps[0]) == c;
      if c != 0 {
        WalkKept(d, d', g, c, c, comps[1..]);
      }
    }
  }
}
