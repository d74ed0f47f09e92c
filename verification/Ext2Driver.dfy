/** kernel/arch/i386/ext2.c over a disk in memory: block and inode transfer, path walk, listing, reading,
    allocation and writing, each tied to the layout's functions. */
module Ext2Driver {
  import opened Bytes
  import opened CString
  import opened Ext2Layout
  import opened Ext2Path
  import opened Ext2Walk
  import opened Ext2Files
  import opened Ext2ReadBack
  import opened Ext2Alloc
  import Ext2Runs

  const SECTOR: nat := 512
  const LBA28: nat := 0x1000_0000

  lemma TableInBlock(d: seq<byte>, g: Geo, x: nat)
    requires InDisk(d, g.firstBgd) && DESCRIPTOR * x + DESCRIPTOR <= BLOCK
    ensures U32(Blk(d, g.firstBgd), DESCRIPTOR * x + 8) == Table(d, g, x)
  {
    var o, at := DESCRIPTOR * x + 8, BLOCK * g.firstBgd;
    SubSlice(d, at, BLOCK, o, 4);
    U32Local(Blk(d, g.firstBgd), o, d, at + o);
  }

  lemma RecordInBlock(d: seq<byte>, g: Geo, i: nat)
    requires MetaOk(d, g) && ValidInode(g, i)
    ensures InDisk(d, InodeBlock(d, g, i)) && RECORD * (IndexOf(g, i) % PER_BLOCK) + RECORD <= BLOCK
    ensures var at := RECORD * (IndexOf(g, i) % PER_BLOCK);
      Blk(d, InodeBlock(d, g, i))[at..at + RECORD] == GetInode(d, g, i)
  {
    InodeAtFlat(d, g, i);
    SubSlice(d, BLOCK * InodeBlock(d, g, i), BLOCK, RECORD * (IndexOf(g, i) % PER_BLOCK), RECORD);
  }

  lemma PlaceBounds(d: seq<byte>, g: Geo, i: nat, bg: nat, index: nat)
    requires MetaOk(d, g) && ValidInode(g, i) && bg == GroupOf(g, i) && index == IndexOf(g, i)
    ensures InDisk(d, g.firstBgd) && DESCRIPTOR * bg + DESCRIPTOR <= BLOCK && index * RECORD < TWO32
    ensures InodeBlock(d, g, i) == Table(d, g, bg) + index * RECORD / BLOCK
  {
  }

  class Ext2 {
    const disk: array<byte>
    const geo: Geo // the cached superblock and what probing derived from it

    constructor (disk: array<byte>, geo: Geo)
      ensures this.disk == disk && this.geo == geo
    {
      this.disk, this.geo := disk, geo;
    }

    /** ata_read_one: one sector, word by word. */
    method ReadSector(buff: array<byte>, at: nat, lba: nat)
      requires buff != disk && at + SECTOR <= buff.Length && SECTOR * lba + SECTOR <= disk.Length && lba < LBA28
      modifies buff
      ensures buff[..] == Splice(old(buff[..]), at, disk[SECTOR * lba..SECTOR * lba + SECTOR])
    {
      var from := SECTOR * lba;
      var i := 0;
      while i < SECTOR / 2
        invariant 0 <= i <= SECTOR / 2
        invariant forall k :: 0 <= k < buff.Length ==>
          buff[k] == if at <= k < at + 2 * i then disk[from + (k - at)] else old(buff[k])
      {
        buff[at + 2 * i] := disk[from + 2 * i];
        buff[at + 2 * i + 1] := disk[from + 2 * i + 1];
        i := i + 1;
      }
    }

    /** ata_write_one */
    method WriteSector(buff: array<byte>, at: nat, lba: nat)
      requires buff != disk && at + SECTOR <= buff.Length && SECTOR * lba + SECTOR <= disk.Length && lba < LBA28
      modifies disk
      ensures disk[..] == Splice(old(disk[..]), SECTOR * lba, buff[at..at + SECTOR])
    {
      var to := SECTOR * lba;
      var i := 0;
      while i < SECTOR / 2
        invariant 0 <= i <= SECTOR / 2
        invariant forall k :: 0 <= k < disk.Length ==>
          disk[k] == if to <= k < to + 2 * i then buff[at + (k - to)] else old(disk[k])
      {
        disk[to + 2 * i] := buff[at + 2 * i];
        disk[to + 2 * i + 1] := buff[at + 2 * i + 1];
        i := i + 1;
      }
    }

    /** ata_read */
    method AtaRead(buff: array<byte>, lba: nat, sectors: nat)
      requires buff != disk && SECTOR * sectors <= buff.Length && SECTOR * (lba + sectors) <= disk.Length
      requires lba + sectors <= LBA28
      modifies buff
      ensures buff[..] == Splice(old(buff[..]), 0, disk[SECTOR * lba..SECTOR * (lba + sectors)])
    {
      var i := 0;
      while i < sectors
        invariant 0 <= i <= sectors
        invariant forall k :: 0 <= k < buff.Length ==>
          buff[k] == if k < SECTOR * i then disk[SECTOR * lba + k] else old(buff[k])
      {
        ghost var now := buff[..];
        ReadSector(buff, SECTOR * i, lba + i);
        assert forall k :: 0 <= k < buff.Length ==> buff[k] == buff[..][k];
        assert forall k :: 0 <= k < SECTOR * i ==> now[k] == disk[SECTOR * lba + k];
        i := i + 1;
      }
    }

    /** ata_write */
    method AtaWrite(buff: array<byte>, lba: nat, sectors: nat)
      requires buff != disk && SECTOR * sectors <= buff.Length && SECTOR * (lba + sectors) <= disk.Length
      requires lba + sectors <= LBA28
      modifies disk
      ensures disk[..] == Splice(old(disk[..]), SECTOR * lba, buff[..SECTOR * sectors])
    {
      var i := 0;
      while i < sectors
        invariant 0 <= i <= sectors
        invariant forall k :: 0 <= k < disk.Length ==>
          disk[k] == if SECTOR * lba <= k < SECTOR * (lba + i) then buff[k - SECTOR * lba] else old(disk[k])
      {
        ghost var now := disk[..];
        WriteSector(buff, SECTOR * i, lba + i);
        assert forall k :: 0 <= k < disk.Length ==> disk[k] == disk[..][k];
        i := i + 1;
      }
    }

    /** ext2_read_block: the block's two sectors. */
    method ReadBlock(buff: array<byte>, b: nat)
      requires buff != disk && buff.Length == BLOCK && InDisk(disk[..], b) && 2 * b + 2 <= LBA28
      modifies buff
      ensures buff[..] == Blk(disk[..], b)
    {
      AtaRead(buff, 2 * b, 2);
    }

    /** ext2_write_block */
    method WriteBlock(buff: array<byte>, b: nat)
      requires buff != disk && buff.Length == BLOCK && InDisk(disk[..], b) && 2 * b + 2 <= LBA28
      modifies disk
      ensures disk[..] == PutBlk(old(disk[..]), b, buff[..])
    {
      AtaWrite(buff, 2 * b, 2);
    }

    /** The disk holds image `d`, small enough for 28-bit sector addresses. */
    ghost predicate Holds(d: seq<byte>)
      reads disk
    {
      disk[..] == d && |d| <= SECTOR * LBA28
    }

    /** The disk holds image `d` and its metadata is well formed. */
    ghost predicate On(d: seq<byte>)
      reads disk
    {
      Holds(d) && MetaOk(d, geo)
    }

    /** The first block of a group's inode table; the group's descriptor is reached by stepping. */
    method TableOf(bg: nat, ghost d: seq<byte>) returns (table: u32)
      requires Holds(d) && InDisk(d, geo.firstBgd) && DESCRIPTOR * bg + DESCRIPTOR <= BLOCK
      ensures table == Table(d, geo, bg)
    {
      var buff := new byte[BLOCK];
      ReadBlock(buff, geo.firstBgd);
      var bgd := 0;
      for n := 0 to bg
        invariant bgd == DESCRIPTOR * n
      {
        bgd := bgd + DESCRIPTOR;
      }
      TableInBlock(d, geo, bg);
      table := U32(buff[..], bgd + 8);
    }

    /** The block an inode's record is in: the table's first block plus the block offset. */
    method LocateBlock(i: nat, ghost d: seq<byte>) returns (final: nat)
      requires On(d) && ValidInode(geo, i)
      ensures final == InodeBlock(d, geo, i)
    {
      var bg := (i - 1) / geo.ipg;
      var index := (i - 1) % geo.ipg;
      PlaceBounds(d, geo, i, bg, index);
      var block := Wrap(index * RECORD) / BLOCK;
      var table := TableOf(bg, d);
      final := table + block;
    }

    /** That block in memory, and the record's offset, reached by stepping again. */
    method Locate(i: nat, ghost d: seq<byte>) returns (buff: array<byte>, final: nat, at: nat)
      requires On(d) && ValidInode(geo, i)
      ensures fresh(buff) && buff.Length == BLOCK && final == InodeBlock(d, geo, i)
      ensures InDisk(d, final) && buff[..] == Blk(d, final) && 2 * final + 2 <= LBA28
      ensures at == RECORD * (IndexOf(geo, i) % PER_BLOCK) && at + RECORD <= BLOCK
    {
      final := LocateBlock(i, d);
      InodeAtFlat(d, geo, i);
      buff := new byte[BLOCK];
      ReadBlock(buff, final);
      var index := (i - 1) % geo.ipg % PER_BLOCK;
      at := 0;
      for n := 0 to index
        invariant at == RECORD * n
      {
        at := at + RECORD;
      }
    }

    /** ext2_read_inode */
    method ReadInode(inode: array<byte>, i: nat, ghost d: seq<byte>)
      requires On(d) && ValidInode(geo, i) && inode != disk && inode.Length == RECORD
      modifies inode
      ensures inode[..] == GetInode(d, geo, i)
    {
      var buff, final, at := Locate(i, d);
      RecordInBlock(d, geo, i);
      Memcpy(inode, 0, buff, at, RECORD);
      assert inode[..] == buff[..][at..at + RECORD];
    }

    /** Write a block back with `r` patched in at `at`. */
    method PatchBlock(buff: array<byte>, final: nat, at: nat, r: array<byte>, ghost d: seq<byte>)
      requires buff != disk && r != disk && r != buff && buff.Length == BLOCK && at + r.Length <= BLOCK
      requires disk[..] == d && InDisk(d, final) && buff[..] == Blk(d, final) && 2 * final + 2 <= LBA28
      modifies disk, buff
      ensures disk[..] == Splice(d, BLOCK * final + at, r[..])
    {
      assert r[0..r.Length] == r[..];
      Memcpy(buff, at, r, 0, r.Length);
      SplicePatch(d, BLOCK * final, BLOCK, at, r[..]);
      WriteBlock(buff, final);
    }

    /** ext2_write_inode: patch the record in its block and write the block back. */
    method WriteInode(inode: array<byte>, i: nat, ghost d: seq<byte>)
      requires On(d) && ValidInode(geo, i) && inode != disk && inode.Length == RECORD
      modifies disk
      ensures disk[..] == PutInode(d, geo, i, inode[..])
    {
      var buff, final, at := Locate(i, d);
      PatchBlock(buff, final, at, inode, d);
    }

    /** One name in one inode: the loop over the direct pointers looks only into the first block, because
        every way through its body leaves it. */
    method LookupFirst(inode: array<byte>, name: array<byte>, at: nat, ghost i: nat, ghost d: seq<byte>)
      returns (has: bool, rc: u32)
      requires On(d) && ValidInode(geo, i) && Chained(d, geo, i)
      requires inode.Length == RECORD && inode[..] == GetInode(d, geo, i)
      requires at <= name.Length && 0 in name[at..]
      ensures has <==> FirstBlock(d, geo, i) != 0
      ensures has ==> rc == Child(d, geo, i, Text(name[..], at))
    {
      var b := U32(inode[..], 40);
      if b == 0 {
        return false, 0;
      }
      rc := SearchBlock(b, name, at, d);
      return true, rc;
    }

    /** filename_h += strlen(filename_h) + 1 */
    method StepOver(name: array<byte>, at: nat, ghost left: seq<seq<byte>>) returns (next: nat)
      requires left != [] && Laid(name[..], at, left)
      ensures Laid(name[..], next, left[1..])
    {
      ghost var a, len := name[..], |left[0]|;
      LaidHead(a, at, left);
      var s := Strlen(name, at);
      assert s == len;
      next := at + (s + 1);
    }

    /** One turn of the walk: look the component up and move to the inode found. */
    method OneComponent(inode: array<byte>, name: array<byte>, at: nat, ghost i: nat, ghost left: seq<seq<byte>>,
                        ghost d: seq<byte>)
      returns (has: bool, rc: u32)
      requires On(d) && left != [] && WalkOk(d, geo, i, left) && Laid(name[..], at, left)
      requires inode != disk && inode != name && inode.Length == RECORD && inode[..] == GetInode(d, geo, i)
      modifies inode
      ensures has <==> FirstBlock(d, geo, i) != 0
      ensures has ==> rc == Child(d, geo, i, left[0])
      ensures !has || rc == 0 ==> inode[..] == GetInode(d, geo, i)
      ensures has && rc != 0 ==> ValidInode(geo, rc) && inode[..] == GetInode(d, geo, rc)
    {
      assert name[at..][|left[0]|] == 0;
      has, rc := LookupFirst(inode, name, at, i, d);
      if has && rc != 0 {
        ReadInode(inode, rc, d);
      }
    }

    /** The buffer ext2_find_file_inode splits: the path, NUL-terminated, then cut at the slashes. */
    method SplitPath(path: seq<byte>) returns (name: array<byte>, n: nat)
      requires path != [] && 0 !in path
      ensures fresh(name) && n == 1 + |Steps(path)| && Laid(name[..], 1, Steps(path))
      ensures name.Length == |path| + 1 && name[name.Length - 1] == 0
    {
      name := new byte[|path| + 1](k requires 0 <= k <= |path| => if k < |path| then path[k] else 0);
      assert name[..] == path + [0];
      n := Strsplit(name, SLASH, path);
      CutCons(path, SLASH);
      assert name[..] == [CutAt(path, SLASH)[0]] + CutAt(path[1..], SLASH) + [0];
      assert forall b :: b in path[1..] ==> b in path;
      SplitLaid([CutAt(path, SLASH)[0]], path[1..], SLASH);
      StepsPrefix(path);
      LaidPrefix(name[..], 1, Split(path[1..]), |Steps(path)|);
    }

    /** The loop of ext2_find_file_inode over the components, from the root's record. */
    method WalkLoop(inode: array<byte>, name: array<byte>, components: nat, ghost comps: seq<seq<byte>>,
                    ghost d: seq<byte>)
      returns (missing: bool, ret: u32)
      requires On(d) && WalkOk(d, geo, ROOT, comps) && Laid(name[..], 1, comps) && components == |comps|
      requires inode != disk && inode != name && inode.Length == RECORD && inode[..] == GetInode(d, geo, ROOT)
      modifies inode
      ensures match Walk(d, geo, 0, ROOT, comps)
        case Missing => missing
        case Found(r, held) => !missing && ret == r && ValidInode(geo, held) && inode[..] == GetInode(d, geo, held)
    {
      var n, at := components, 1;
      ret := 0;
      ghost var i: nat, left := ROOT, comps;
      while n != 0
        invariant |left| == n && WalkOk(d, geo, i, left)
        invariant Walk(d, geo, 0, ROOT, comps) == Walk(d, geo, ret, i, left)
        invariant inode[..] == GetInode(d, geo, i) && (n > 0 ==> Laid(name[..], at, left))
      {
        var has, rc := OneComponent(inode, name, at, i, left, d);
        if !has {
          // the remaining turns meet the same inode and change nothing
          return false, ret;
        }
        if rc == 0 {
          return true, 0;
        }
        ret := rc;
        if n != 1 {
          at := StepOver(name, at, left);
        }
        i, left := rc, left[1..];
        n := n - 1;
      }
      missing := false;
    }

    /** ext2_read_root_directory: whether the root has the name in any of its direct blocks. */
    method ReadRootDirectory(name: array<byte>, at: nat, ghost d: seq<byte>) returns (found: bool)
      requires On(d) && ValidInode(geo, ROOT) && BlocksChained(d, GetInode(d, geo, ROOT), 0)
      requires at <= name.Length && 0 in name[at..]
      ensures found <==> Lookup(RecordsFrom(d, GetInode(d, geo, ROOT), 0), Text(name[..], at)) != 0
    {
      var inode := new byte[RECORD];
      ReadInode(inode, ROOT, d);
      ghost var r := inode[..];
      found := SearchBlocks(inode[..], name, at, d, RecordsFrom(d, r, 0), Text(name[..], at));
    }

    /** The direct blocks of a record, which hold the records `all`, searched in order. */
    method SearchBlocks(r: seq<byte>, name: array<byte>, at: nat, ghost d: seq<byte>, ghost all: seq<Entry>,
                        ghost want: seq<byte>)
      returns (found: bool)
      requires Holds(d) && Tail(d, r, 0, all)
      requires at <= name.Length && 0 in name[at..] && want == Text(name[..], at)
      ensures found <==> Lookup(all, want) != 0
    {
      var i := 0;
      ghost var rest := all;
      while i < DIRECT
        invariant 0 <= i <= DIRECT && Tail(d, r, i, rest) && Lookup(all, want) == Lookup(rest, want)
      {
        var more;
        more, found, rest := SearchAt(r, i, name, at, d, rest, want);
        if !more {
          return found;
        }
        i := i + 1;
      }
      found := false;
    }

    /** Block i of a record: there is none, or it has the name, or the blocks after it decide. */
    method SearchAt(r: seq<byte>, i: nat, name: array<byte>, at: nat, ghost d: seq<byte>, ghost es: seq<Entry>,
                    ghost want: seq<byte>)
      returns (more: bool, found: bool, ghost rest: seq<Entry>)
      requires Holds(d) && i < DIRECT && Tail(d, r, i, es)
      requires at <= name.Length && 0 in name[at..] && want == Text(name[..], at)
      ensures if more then !found && Tail(d, r, i + 1, rest) && Lookup(es, want) == Lookup(rest, want)
        else rest == es && (found <==> Lookup(es, want) != 0)
    {
      var b := Pointer(r, i);
      if b == 0 {
        return false, false, es;
      }
      rest := TailStep(d, r, i, es, want);
      var rc := SearchBlock(b, name, at, d);
      return rc == 0, rc != 0, if rc == 0 then rest else es;
    }

    /** One directory block read and searched. */
    method SearchBlock(b: nat, name: array<byte>, at: nat, ghost d: seq<byte>) returns (rc: u32)
      requires Holds(d) && InDisk(d, b) && ChainOk(Blk(d, b), 0) && at <= name.Length && 0 in name[at..]
      ensures rc == Lookup(Entries(Blk(d, b), 0), Text(name[..], at))
    {
      var root := new byte[BLOCK];
      ReadBlock(root, b);
      rc := ReadDirectory(name, at, root);
    }

    /** ext2_find_file_inode.  A path without a slash searches the root, drops the answer, and hands back an
        inode record of zeros. */
    method FindFileInode(path: seq<byte>, inodeBuff: array<byte>, ghost d: seq<byte>) returns (ret: u32)
      requires On(d) && path != [] && 0 !in path && Lookable(d, geo, path)
      requires inodeBuff != disk && inodeBuff.Length == RECORD
      modifies inodeBuff
      ensures ret == Number(Finds(d, geo, path))
      ensures Steps(path) == [] ==> inodeBuff[..] == Repeat(0, RECORD)
      ensures Steps(path) != [] ==>
        match Finds(d, geo, path)
        case Missing => inodeBuff[..] == old(inodeBuff[..])
        case Found(_, held) => ValidInode(geo, held) && inodeBuff[..] == GetInode(d, geo, held)
    {
      var name, n := SplitPath(path);
      var inode := new byte[RECORD](_ => 0);
      if n > 1 {
        ReadInode(inode, ROOT, d);
        var missing;
        missing, ret := WalkLoop(inode, name, n - 1, Steps(path), d);
        if missing {
          return 0;
        }
      } else {
        assert name[1..][|path| - 1] == 0;
        var ignored := ReadRootDirectory(name, 1, d);
        ret := 0;
        assert inode[..] == Repeat(0, RECORD);
      }
      HandBack(inodeBuff, inode);
    }

    /** The record found, copied to the caller. */
    method HandBack(inodeBuff: array<byte>, inode: array<byte>)
      requires inodeBuff != inode && inodeBuff.Length == inode.Length == RECORD
      modifies inodeBuff
      ensures inodeBuff[..] == inode[..]
    {
      assert inode[0..RECORD] == inode[..];
      Memcpy(inodeBuff, 0, inode, 0, RECORD);
    }

    // ----- listing -----

    /** One record of a listing: hidden when its name starts with '$', else the name and whether it is
        shown in the directory colour. */
    method ListRecord(blk: seq<byte>, dir: nat, ghost d: seq<byte>) returns (line: seq<(seq<byte>, bool)>)
      requires On(d) && |blk| == BLOCK && RecordOk(blk, dir) && ValidInode(geo, U32(blk, dir))
      ensures line == LineOf(d, geo, Entry(U32(blk, dir), NameAt(blk, dir)))
    {
      var copy := blk[dir + 8..dir + 8 + blk[dir + 6]] + [0];
      var name := Text(copy, 0);
      if copy[0] == 36 {
        return [];
      }
      var inode := new byte[RECORD];
      ReadInode(inode, U32(blk, dir), d);
      return [(name, U16(inode[..], 0) as int / 4096 == DIRECTORY)];
    }

    /** One turn of list_in_dir: the record's line, and where the next record is. */
    method ListStep(blk: seq<byte>, dir: nat, ghost d: seq<byte>) returns (line: seq<(seq<byte>, bool)>, next: nat)
      requires On(d) && Listable(geo, blk, dir) && U32(blk, dir) != 0
      ensures dir < next && Listable(geo, blk, next)
      ensures ShownFrom(d, geo, blk, dir) == line + ShownFrom(d, geo, blk, next)
    {
      ShownStep(d, geo, blk, dir);
      line := ListRecord(blk, dir, d);
      next := dir + U16(blk, dir + 4);
    }

    /** list_in_dir: the records of a block in memory, walked to the terminating one. */
    method ListBlock(blk: seq<byte>, ghost d: seq<byte>) returns (lines: seq<(seq<byte>, bool)>)
      requires On(d) && Listable(geo, blk, 0)
      ensures lines == ShownFrom(d, geo, blk, 0)
    {
      ghost var rest := ShownFrom(d, geo, blk, 0);
      var dir := 0;
      lines := [];
      while U32(blk, dir) != 0
        invariant Listable(geo, blk, dir) && rest == ShownFrom(d, geo, blk, dir)
        invariant lines + rest == ShownFrom(d, geo, blk, 0)
        decreases BLOCK - dir
      {
        var line;
        line, dir := ListStep(blk, dir, d);
        rest := ShownFrom(d, geo, blk, dir);
        Regroup(lines, line, rest);
        lines := lines + line;
      }
    }

    /** The loop of `list`: one turn more than there are components, the last of which lists.  Once an inode
        has no first block every further turn meets it again. */
    method ListLoop(inode: array<byte>, name: array<byte>, turns: nat, ghost comps: seq<seq<byte>>, ghost d: seq<byte>)
      returns (out: Output)
      requires On(d) && ListOk(d, geo, ROOT, comps) && Laid(name[..], 1, comps) && turns == |comps| + 1
      requires ListingValid(geo, ListWalk(d, geo, ROOT, comps))
      requires inode != disk && inode != name && inode.Length == RECORD && inode[..] == GetInode(d, geo, ROOT)
      modifies inode
      ensures out == OutputOf(d, geo, ListWalk(d, geo, ROOT, comps))
    {
      var n, at := turns, 1;
      ghost var i: nat, left := ROOT, comps;
      while n > 1
        invariant |left| + 1 == n && ListOk(d, geo, i, left)
        invariant ListWalk(d, geo, ROOT, comps) == ListWalk(d, geo, i, left)
        invariant inode[..] == GetInode(d, geo, i) && Laid(name[..], at, left)
      {
        n := n - 1;
        ListOkWalk(d, geo, i, left);
        var has, rc := OneComponent(inode, name, at, i, left, d);
        if !has {
          // the remaining turns meet the same inode and print nothing; the source still steps over the names, and
          // behind the last one its strlen starts past the end of the copied path
          return Nothing;
        }
        if rc == 0 {
          return BadPath;
        }
        at := StepOver(name, at, left);
        i, left := rc, left[1..];
      }
      out := ListLast(inode, i, d);
    }

    /** The last turn: the first block's lines, or nothing without one. */
    method ListLast(inode: array<byte>, ghost i: nat, ghost d: seq<byte>) returns (out: Output)
      requires On(d) && ValidInode(geo, i) && Chained(d, geo, i) && ListingValid(geo, ListingOf(d, geo, i))
      requires inode.Length == RECORD && inode[..] == GetInode(d, geo, i)
      ensures out == OutputOf(d, geo, ListingOf(d, geo, i))
    {
      var b := U32(inode[..], 40);
      if b == 0 {
        return Nothing;
      }
      var buff := new byte[BLOCK];
      ReadBlock(buff, b);
      var lines := ListBlock(buff[..], d);
      return Lines(lines);
    }

    /** list: "/" lists the root's first pointer whatever it is, every other path is walked. */
    method List(path: seq<byte>, ghost d: seq<byte>) returns (out: Output)
      requires On(d) && path != [] && 0 !in path && ValidInode(geo, ROOT)
      requires path == [SLASH] ==>
        InDisk(d, FirstBlock(d, geo, ROOT)) && Listable(geo, Blk(d, FirstBlock(d, geo, ROOT)), 0)
      requires path != [SLASH] ==>
        ListOk(d, geo, ROOT, Steps(path)) && ListingValid(geo, ListWalk(d, geo, ROOT, Steps(path)))
      ensures path == [SLASH] ==> out == Lines(ShownFrom(d, geo, Blk(d, FirstBlock(d, geo, ROOT)), 0))
      ensures path != [SLASH] ==> out == OutputOf(d, geo, ListWalk(d, geo, ROOT, Steps(path)))
    {
      var inode := new byte[RECORD];
      var name, n := SplitPath(path);
      ReadInode(inode, ROOT, d);
      RootNameExactly(path);
      var isRoot := Memcmp(path + [0], [SLASH, 0], 2);
      if isRoot == 1 {
        var buff := new byte[BLOCK];
        ReadBlock(buff, U32(inode[..], 40));
        var lines := ListBlock(buff[..], d);
        return Lines(lines);
      }
      out := ListLoop(inode, name, n, Steps(path), d);
    }

    // ----- reading a file -----

    /** The copy loop of ext2_read_file. */
    method CopyBlocks(inode: array<byte>, buff: array<byte>, ghost d: seq<byte>) returns (read: u32)
      requires Holds(d) && inode.Length == RECORD && BlocksInDisk(d, inode[..])
      requires BLOCK * Leading(inode[..], 0) <= buff.Length && buff != disk && buff != inode
      modifies buff
      ensures read == ReadCount(inode[..])
      ensures buff[..] == Splice(old(buff[..]), 0, Blocks(d, inode[..], Leading(inode[..], 0)))
    {
      var r := inode[..];
      ghost var b0, n := buff[..], Leading(r, 0);
      var i := 0;
      read := 0;
      var size := Size(r);
      while i < DIRECT
        invariant 0 <= i <= n == Leading(r, i) && forall k :: 0 <= k < n ==> InDisk(d, Pointer(r, k))
        invariant buff[..] == Splice(b0, 0, Blocks(d, r, i)) && read == Wrap(i * size)
        modifies buff
      {
        var b := Pointer(r, i);
        if b == 0 {
          break;
        }
        CopyOne(b, buff, i, d, r, b0);
        read := AddSize(read, size, i);
        i := i + 1;
      }
    }

    /** b_read += inode->size */
    method AddSize(read: u32, size: u32, ghost i: nat) returns (sum: u32)
      requires read == Wrap(i * size)
      ensures sum == Wrap((i + 1) * size)
    {
      CountGrows(i, size);
      sum := Wrap(read as int + size);
    }

    /** One block of a file, copied behind the ones before it. */
    method CopyOne(b: nat, buff: array<byte>, i: nat, ghost d: seq<byte>, ghost r: seq<byte>, ghost b0: seq<byte>)
      requires Holds(d) && |r| == RECORD && i < DIRECT && b == Pointer(r, i)
      requires forall k :: 0 <= k <= i ==> InDisk(d, Pointer(r, k))
      requires BLOCK * (i + 1) <= buff.Length == |b0| && buff != disk && buff[..] == Splice(b0, 0, Blocks(d, r, i))
      modifies buff
      ensures buff[..] == Splice(b0, 0, Blocks(d, r, i + 1))
    {
      var block := new byte[BLOCK];
      ReadBlock(block, b);
      assert block[0..BLOCK] == block[..];
      Memcpy(buff, BLOCK * i, block, 0, BLOCK);
      BlocksGrow(d, r, i, b0);
    }

    /** ext2_read_file */
    method ReadFile(path: seq<byte>, buff: array<byte>, ghost d: seq<byte>) returns (read: u32)
      requires On(d) && path != [] && 0 !in path && Lookable(d, geo, path)
      requires buff != disk && ReadFits(d, geo, path, buff.Length)
      modifies buff
      ensures Number(Finds(d, geo, path)) == 0 ==> read == 0 && buff[..] == old(buff[..])
      ensures match Finds(d, geo, path)
        case Missing => true
        case Found(n, held) => n != 0 ==>
          var r := GetInode(d, geo, held);
          read == ReadCount(r) && buff[..] == Splice(old(buff[..]), 0, Blocks(d, r, Leading(r, 0)))
      ensures match Finds(d, geo, path)
        case Missing => true
        case Found(n, held) => n != 0 ==> CopiedOut(d, GetInode(d, geo, held), old(buff[..]), buff[..], read)
    {
      var inode := new byte[RECORD];
      var ret := FindFileInode(path, inode, d);
      if ret == 0 {
        return 0;
      }
      ghost var was := buff[..];
      read := CopyBlocks(inode, buff, d);
      BlocksCopied(d, inode[..], was, buff[..], read);
    }

    // ----- allocating and writing -----

    /** ext2_alloc_block: `found` is false, and nothing is written, when no group has room. */
    method AllocBlock(ghost d: seq<byte>) returns (found: bool, out: u32)
      requires Holds(d) && AllocOk(d, geo)
      modifies disk
      ensures var x := GroupWithRoom(d, geo, 0);
        if x == geo.bgs then !found && out == 0 && disk[..] == d
        else found && out == NextBlock(d, geo, x) && disk[..] == AllocIn(d, geo, x)
      ensures found ==> AllocatedBytes(d, disk[..], geo, GroupWithRoom(d, geo, 0), out)
    {
      found, out := FindRoom(d);
      if found {
        AllocRead(d, geo, GroupWithRoom(d, geo, 0));
      }
    }

    /** Its loop over the groups. */
    method FindRoom(ghost d: seq<byte>) returns (found: bool, out: u32)
      requires Holds(d) && AllocOk(d, geo)
      modifies disk
      ensures var x := GroupWithRoom(d, geo, 0);
        if x == geo.bgs then !found && out == 0 && disk[..] == d
        else found && out == NextBlock(d, geo, x) && disk[..] == AllocIn(d, geo, x)
    {
      var root := new byte[BLOCK];
      ReadBlock(root, geo.firstBgd);
      var i, bg := 0, 0;
      while i < geo.bgs
        invariant 0 <= i <= geo.bgs && bg == DESCRIPTOR * i && disk[..] == d && root[..] == Blk(d, geo.firstBgd)
        invariant GroupWithRoom(d, geo, 0) == GroupWithRoom(d, geo, i)
      {
        if U16(root[..], bg + 12) != 0 {
          out := Take(root, i, d);
          return true, out;
        }
        i, bg := i + 1, bg + DESCRIPTOR;
      }
      return false, 0;
    }

    /** The number handed out, and the two counts stepped down. */
    method Take(root: array<byte>, i: nat, ghost d: seq<byte>) returns (out: u32)
      requires Holds(d) && AllocOk(d, geo) && i < geo.bgs && root != disk && root.Length == BLOCK
      requires root[..] == Blk(d, geo.firstBgd) && FreeCount(d, geo, i) != 0
      modifies disk, root
      ensures out == NextBlock(d, geo, i) && disk[..] == AllocIn(d, geo, i)
    {
      out := Wrap(geo.blocks as int - U16(root[..], DESCRIPTOR * i + 12) + 1);
      TakeCount(root, i, d);
      ghost var d1 := disk[..];
      assert |d1| == |d| && InDisk(d1, geo.sbBlock);
      TakeSuperBlock(root, d1);
    }

    /** The group's count stepped down in the descriptors in memory, which go to block firstBgd + i. */
    method TakeCount(root: array<byte>, i: nat, ghost d: seq<byte>)
      requires Holds(d) && AllocOk(d, geo) && i < geo.bgs && root != disk && root.Length == BLOCK
      requires root[..] == Blk(d, geo.firstBgd) && FreeCount(d, geo, i) != 0
      modifies disk, root
      ensures disk[..] == TakeFrom(d, geo, i)
    {
      ghost var desc := root[..];
      StepDown(root, DESCRIPTOR * i + 12);
      assert root[..] == Splice(desc, DESCRIPTOR * i + 12, LE16(FreeCount(d, geo, i) - 1));
      WriteBlock(root, geo.firstBgd + i);
    }

    /** A 16-bit count in memory, one less. */
    method StepDown(root: array<byte>, at: nat)
      requires at + 2 <= root.Length && U16(root[..], at) != 0
      modifies root
      ensures root[..] == Splice(old(root[..]), at, LE16(old(U16(root[..], at)) - 1))
    {
      var cell := LE16(U16(root[..], at) - 1);
      root[at], root[at + 1] := cell[0], cell[1];
    }

    method TakeSuperBlock(root: array<byte>, ghost d: seq<byte>)
      requires Holds(d) && InDisk(d, geo.sbBlock) && root != disk && root.Length == BLOCK
      modifies disk, root
      ensures disk[..] == TakeFromSuper(d, geo)
    {
      ReadBlock(root, geo.sbBlock);
      var cell := LE32(Wrap(U32(root[..], 12) as int - 1));
      root[12], root[13], root[14], root[15] := cell[0], cell[1], cell[2], cell[3];
      assert root[..] == Splice(Blk(d, geo.sbBlock), 12, cell);
      WriteBlock(root, geo.sbBlock);
    }

    /** inode->size += len, in memory. */
    method GrowSize(inode: array<byte>, len: u32)
      requires inode.Length == RECORD
      modifies inode
      ensures inode[..] == Grown(old(inode[..]), len)
    {
      var cell := LE32(Wrap(U32(inode[..], 4) + len));
      inode[4], inode[5], inode[6], inode[7] := cell[0], cell[1], cell[2], cell[3];
    }

    /** The second half of ext2_write_file: append into the last block and grow the record. */
    method AppendToFile(inode: array<byte>, i: nat, data: array<byte>, ghost d: seq<byte>)
      requires On(d) && Wf(d, geo) && AppendFits(d, geo, i, data.Length) && data.Length < TWO32
      requires inode.Length == RECORD && inode[..] == GetInode(d, geo, i)
      requires inode != disk && data != disk && inode != data
      modifies disk, inode
      ensures disk[..] == Append(d, geo, i, data[..])
    {
      var size := U32(inode[..], 4);
      var lastBlock, lastOffset := size / BLOCK, size % BLOCK;
      var b := U32(inode[..], 40 + 4 * lastBlock);
      assert Owns(d, geo, i, lastBlock) && b == Ptr(d, geo, i, lastBlock);
      assert DataBlock(d, geo, b);
      var root := new byte[BLOCK];
      ReadBlock(root, b);
      ghost var bytes := data[..];
      PatchBlock(root, b, lastOffset, data, d);
      ghost var d1 := disk[..];
      assert d1 == AppendData(d, geo, i, bytes);
      AppendDataMeta(d, geo, i, bytes);
      GrowSize(inode, data.Length);
      WriteInode(inode, i, d1);
    }

    /** dbp[0] = bid and inode->size += len, in memory. */
    method SetFirst(inode: array<byte>, bid: u32, len: u32)
      requires inode.Length == RECORD
      modifies inode
      ensures inode[..] == Started(old(inode[..]), bid, len)
    {
      ghost var r := inode[..];
      var cell := LE32(bid);
      inode[40], inode[41], inode[42], inode[43] := cell[0], cell[1], cell[2], cell[3];
      assert inode[..] == Splice(r, 40, cell);
      GrowSize(inode, len);
    }

    /** Allocate a block and commit the record that names it; with no block free the number stays zero. */
    method StartRecord(inode: array<byte>, i: nat, len: u32, ghost d: seq<byte>) returns (bid: u32)
      requires On(d) && FreshRuns(d, geo, i, len)
      requires inode.Length == RECORD && inode[..] == GetInode(d, geo, i) && inode != disk
      modifies disk, inode
      ensures disk[..] == FreshRecordWritten(d, geo, i, len) && bid == Bid(d, geo)
    {
      var found;
      found, bid := AllocBlock(d);
      ghost var d1 := disk[..];
      assert d1 == AfterAlloc(d, geo) && bid == Bid(d, geo);
      SetFirst(inode, bid, len);
      WriteInode(inode, i, d1);
    }

    /** The first half of ext2_write_file, for less than a block: allocate, commit the record, write. */
    method StartFile(inode: array<byte>, i: nat, data: array<byte>, ghost d: seq<byte>)
      requires On(d) && FreshRuns(d, geo, i, data.Length)
      requires inode.Length == RECORD && inode[..] == GetInode(d, geo, i)
      requires inode != disk && data != disk && inode != data
      modifies disk, inode
      ensures disk[..] == Fresh(d, geo, i, data[..])
    {
      ghost var bytes := data[..];
      var bid := StartRecord(inode, i, data.Length, d);
      ghost var d2 := disk[..];
      assert InDisk(d2, bid) && data[..] == bytes;
      assert Fresh(d, geo, i, bytes) == Splice(d2, BLOCK * bid, bytes);
      WriteStart(bid, data, d2);
    }

    /** Write `data` at the start of block b. */
    method WriteStart(b: nat, data: array<byte>, ghost d: seq<byte>)
      requires Holds(d) && InDisk(d, b) && data != disk && data.Length <= BLOCK
      modifies disk
      ensures disk[..] == Splice(d, BLOCK * b, data[..])
    {
      var root := new byte[BLOCK];
      ReadBlock(root, b);
      PatchBlock(root, b, 0, data, d);
    }

    /** ext2_write_file for a path that leads to a file. */
    method WriteFile(path: seq<byte>, data: array<byte>, ghost i: nat, ghost d: seq<byte>) returns (ok: nat)
      requires On(d) && path != [] && 0 !in path && data != disk && data.Length < TWO32
      requires Lookable(d, geo, path) && Finds(d, geo, path) == Found(i, i)
      requires ValidInode(geo, i) && Writable(d, geo, i, data.Length)
      modifies disk
      ensures i == 1 ==> ok == 0 && disk[..] == d
      ensures i != 1 && Size(GetInode(d, geo, i)) == 0 ==>
        if data.Length / BLOCK + 1 > DIRECT then ok == 0 && disk[..] == d
        else ok == 1 && disk[..] == Fresh(d, geo, i, data[..])
      ensures i != 1 && Size(GetInode(d, geo, i)) != 0 ==> ok == 1 && disk[..] == Append(d, geo, i, data[..])
      ensures i != 1 && Size(GetInode(d, geo, i)) != 0 ==> AppendedAt(d, disk[..], InodeAt(d, geo, i), data[..])
      ensures i != 1 && FreshFits(d, geo, i, data.Length) ==>
        FirstWritten(d, disk[..], geo, InodeAt(d, geo, i), data[..])
    {
      ok := WriteFound(path, data, i, d);
      ghost var bytes := data[..];
      if i != 1 && Size(GetInode(d, geo, i)) != 0 {
        AppendBytes(d, geo, i, bytes);
      } else if i != 1 && FreshFits(d, geo, i, |bytes|) {
        FirstWriteBytes(d, geo, i, bytes);
      }
    }

    /** Its branches, once the path is found. */
    method WriteFound(path: seq<byte>, data: array<byte>, ghost i: nat, ghost d: seq<byte>) returns (ok: nat)
      requires On(d) && path != [] && 0 !in path && data != disk && data.Length < TWO32
      requires Lookable(d, geo, path) && Finds(d, geo, path) == Found(i, i)
      requires ValidInode(geo, i) && Writable(d, geo, i, data.Length)
      modifies disk
      ensures i == 1 ==> ok == 0 && disk[..] == d
      ensures i != 1 && Size(GetInode(d, geo, i)) == 0 ==>
        if data.Length / BLOCK + 1 > DIRECT then ok == 0 && disk[..] == d
        else ok == 1 && disk[..] == Fresh(d, geo, i, data[..])
      ensures i != 1 && Size(GetInode(d, geo, i)) != 0 ==> ok == 1 && disk[..] == Append(d, geo, i, data[..])
    {
      var inode := new byte[RECORD];
      var inodeId := FindFileInode(path, inode, d);
      ReadInode(inode, inodeId, d);
      if inodeId == 1 {
        return 0;
      }
      if U32(inode[..], 4) == 0 {
        var blocksToAlloc := data.Length / BLOCK + 1;
        if blocksToAlloc > DIRECT {
          return 0;
        }
        StartFile(inode, inodeId, data, d);
        return 1;
      }
      AppendToFile(inode, inodeId, data, d);
      return 1;
    }

    /** Write to a file and read it back by the same path: for a file held in one direct block the count is the
        grown size, and the buffer starts with the old contents followed by the new bytes. */
    method WriteThenRead(path: seq<byte>, data: array<byte>, buff: array<byte>, ghost i: nat, ghost d: seq<byte>)
      returns (ok: nat, read: u32)
      requires On(d) && OneBlockFile(d, geo, i, path) && AppendFits(d, geo, i, data.Length)
      requires data != disk && buff != disk && buff != data && BLOCK <= buff.Length
      modifies disk, buff
      ensures ok == 1 && read <= buff.Length && buff[..read] == FileContent(d, geo, i) + data[..]
    {
      ghost var bytes, c := data[..], FileContent(d, geo, i) + data[..];
      ok := WriteFile(path, data, i, d);
      ghost var d2 := disk[..];
      AfterAppend(d, geo, i, path, bytes, d2);
      read := ReadFile(path, buff, d2);
      ReadsPrefix(d2, GetInode(d2, geo, i), c, buff[..]);
    }
  }

  // ----- what finding, reading and writing need -----

  /** `es` are the records in the blocks from pointer i on. */
  predicate Tail(d: seq<byte>, r: seq<byte>, i: nat, es: seq<Entry>) {
    |r| == RECORD && i <= DIRECT && BlocksChained(d, r, i) && es == RecordsFrom(d, r, i)
  }

  lemma TailStep(d: seq<byte>, r: seq<byte>, i: nat, es: seq<Entry>, want: seq<byte>) returns (rest: seq<Entry>)
    requires Tail(d, r, i, es) && i < DIRECT && Pointer(r, i) != 0
    ensures Tail(d, r, i + 1, rest) && InDisk(d, Pointer(r, i)) && ChainOk(Blk(d, Pointer(r, i)), 0)
    ensures var rc := Lookup(Entries(Blk(d, Pointer(r, i)), 0), want);
      Lookup(es, want) == if rc != 0 then rc else Lookup(rest, want)
  {
    BlockDecides(d, r, i, want);
    rest := RecordsFrom(d, r, i + 1);
  }

  /** What the driver needs of the image to look a path up: for a path without a slash, the root's blocks;
      otherwise what the steps walk through. */
  predicate Lookable(d: seq<byte>, g: Geo, path: seq<byte>)
    requires MetaOk(d, g) && path != []
  {
    if Steps(path) == [] then ValidInode(g, ROOT) && BlocksChained(d, GetInode(d, g, ROOT), 0)
    else WalkOk(d, g, ROOT, Steps(path))
  }

  /** What finding a path answers: a path without a slash finds nothing. */
  function Finds(d: seq<byte>, g: Geo, path: seq<byte>): Answer
    requires MetaOk(d, g) && path != [] && Lookable(d, g, path)
  {
    if Steps(path) == [] then Missing else Walk(d, g, 0, ROOT, Steps(path))
  }

  /** What reading through a path needs: when it finds an inode, that inode's blocks are on the disk and fit
      the caller's buffer of `room` bytes. */
  ghost predicate ReadFits(d: seq<byte>, g: Geo, path: seq<byte>, room: nat)
    requires MetaOk(d, g) && path != [] && Lookable(d, g, path)
  {
    match Finds(d, g, path)
    case Missing => true
    case Found(n, held) => n != 0 ==>
      && ValidInode(g, held) && BlocksInDisk(d, GetInode(d, g, held))
      && BLOCK * Leading(GetInode(d, g, held), 0) <= room
  }

  /** What writing through a path that leads to inode i needs: a first write is of less than a block (or of
      more than twelve, which is refused) and can be carried out; an append fits in the last block. */
  ghost predicate Writable(d: seq<byte>, g: Geo, i: nat, n: nat)
    requires MetaOk(d, g) && ValidInode(g, i)
  {
    i != 1 ==>
      if Size(GetInode(d, g, i)) == 0 then FreshRuns(d, g, i, n) || n / BLOCK + 1 > DIRECT
      else Wf(d, g) && AppendFits(d, g, i, n)
  }

  /** What a first write on a free data block does to the bytes of the disk: after the allocation the size field, the
      first pointer and the bytes written change. */
  ghost predicate FirstWritten(d: seq<byte>, d': seq<byte>, g: Geo, at: nat, data: seq<byte>) {
    && 1024 * g.firstBgd + 1024 <= |d|
    && exists d1 :: AllocEffect(d, d1, g, 0)
         && FreshEffect(d1, d', at, Wrap(g.blocks as int - U16(d, 1024 * g.firstBgd + 12) + 1), data)
  }

  lemma FirstWriteBytes(d: seq<byte>, g: Geo, i: nat, data: seq<byte>)
    requires FreshFits(d, g, i, |data|)
    ensures FreshRuns(d, g, i, |data|) && FirstWritten(d, Fresh(d, g, i, data), g, InodeAt(d, g, i), data)
  {
    FreshBytes(d, g, i, data);
    AllocRead(d, g, 0);
    FirstVia(d, AllocIn(d, g, 0), Fresh(d, g, i, data), g, InodeAt(d, g, i), NextBlock(d, g, 0), data);
  }

  lemma FirstVia(d: seq<byte>, d1: seq<byte>, d': seq<byte>, g: Geo, at: nat, b: u32, data: seq<byte>)
    requires AllocatedBytes(d, d1, g, 0, b) && g.firstBgd != g.sbBlock && FreshEffect(d1, d', at, b, data)
    ensures FirstWritten(d, d', g, at, data)
  {
  }

  /** The number handed out, by the bytes of the count, and the disk after the allocation. */
  ghost predicate AllocatedBytes(d: seq<byte>, d': seq<byte>, g: Geo, x: nat, out: u32) {
    && 1024 * g.firstBgd + 1024 <= |d| && 32 * x + 32 <= 1024
    && out == Wrap(g.blocks as int - U16(d, 1024 * g.firstBgd + (32 * x + 12)) + 1)
    && (g.firstBgd + x != g.sbBlock ==> AllocEffect(d, d', g, x))
  }

  lemma AllocRead(d: seq<byte>, g: Geo, x: nat)
    requires AllocOk(d, g) && x < g.bgs && FreeCount(d, g, x) != 0
    ensures AllocatedBytes(d, AllocIn(d, g, x), g, x, NextBlock(d, g, x))
  {
    CountsOnDisk(d, g, x);
    if g.firstBgd + x != g.sbBlock {
      AllocBytes(d, g, x);
    }
  }

  /** What reading a file leaves: byte m is byte m % 1024 of the block that pointer m / 1024 names, for as many
      pointers as come before the first zero one, and the rest of the buffer is as it was; the count is the size, once
      for every block, in 32 bits. */
  ghost predicate CopiedOut(d: seq<byte>, r: seq<byte>, was: seq<byte>, buff: seq<byte>, read: u32)
    requires |r| == RECORD
  {
    var n := Leading(r, 0);
    && |buff| == |was| && 1024 * n <= |buff| && read == n * U32(r, 4) % 0x1_0000_0000
    && (forall m :: 0 <= m < 1024 * n ==>
          m / 1024 < 12 && InDisk(d, Pointer(r, m / 1024)) && buff[m] == d[1024 * Pointer(r, m / 1024) + m % 1024])
    && (forall m :: 1024 * n <= m < |buff| ==> buff[m] == was[m])
  }

  lemma BlocksCopied(d: seq<byte>, r: seq<byte>, was: seq<byte>, buff: seq<byte>, read: u32)
    requires |r| == RECORD && BlocksInDisk(d, r) && BLOCK * Leading(r, 0) <= |was| && read == ReadCount(r)
    requires buff == Splice(was, 0, Blocks(d, r, Leading(r, 0)))
    ensures CopiedOut(d, r, was, buff, read)
  {
    var n := Leading(r, 0);
    forall m | 0 <= m < 1024 * n
      ensures m / 1024 < 12 && InDisk(d, Pointer(r, m / 1024)) && buff[m] == d[1024 * Pointer(r, m / 1024) + m % 1024]
    {
      assert m == 1024 * (m / 1024) + m % 1024 && m / 1024 < n;
      BlocksByte(d, r, n, m / 1024, m % 1024);
    }
  }

  /** The absolute path leads through directories to inode i. */
  ghost predicate PathTo(d: seq<byte>, g: Geo, path: seq<byte>, i: nat)
    requires MetaOk(d, g)
  {
    && path != [] && path[0] == SLASH && 0 !in path && DirPath(d, g, ROOT, Steps(path))
    && Lookable(d, g, path) && Finds(d, g, path) == Found(i, i)
  }

  /** Each write of the run, by its path, is one `WriteFile` can be called for when its turn comes: the path
      leads to the file on the disk as it then is. */
  ghost predicate CarriedOut(d: seq<byte>, g: Geo, ops: seq<Ext2Runs.WriteOp>, paths: seq<seq<byte>>)
    requires Ext2Runs.Frontier(d, g) && Ext2Runs.CanRun(d, g, ops) && |paths| == |ops|
    decreases |ops|
  {
    ops == [] ||
    (&& PathTo(d, g, paths[0], ops[0].file) && ValidInode(g, ops[0].file)
     && Writable(d, g, ops[0].file, |ops[0].data|)
     && CarriedOut(Ext2Runs.DoWrite(d, g, ops[0]), g, ops[1..], paths[1..]))
  }

  lemma WriteKeepsPath(d: seq<byte>, g: Geo, op: Ext2Runs.WriteOp, path: seq<byte>, i: nat)
    requires Ext2Runs.Frontier(d, g) && Ext2Runs.CanWrite(d, g, op) && PathTo(d, g, path, i)
    ensures PathTo(Ext2Runs.DoWrite(d, g, op), g, path, i)
  {
    Ext2Runs.WriteKeepsPaths(d, g, op, Steps(path));
  }

  lemma RunKeepsPath(d: seq<byte>, g: Geo, ops: seq<Ext2Runs.WriteOp>, path: seq<byte>, i: nat)
    requires Ext2Runs.Frontier(d, g) && Ext2Runs.CanRun(d, g, ops) && PathTo(d, g, path, i)
    ensures PathTo(Ext2Runs.RunWrites(d, g, ops), g, path, i)
  {
    Ext2Runs.RunKeepsPaths(d, g, ops, Steps(path));
  }

  /** If the paths lead to the files on the first disk, every write of the run can be carried out by path, and at
      the end each path still leads to its file. */
  lemma {:induction false} RunByPath(d: seq<byte>, g: Geo, ops: seq<Ext2Runs.WriteOp>, paths: seq<seq<byte>>)
    requires Ext2Runs.Frontier(d, g) && Ext2Runs.CanRun(d, g, ops) && |paths| == |ops|
    requires forall k :: 0 <= k < |ops| ==> PathTo(d, g, paths[k], ops[k].file)
    ensures CarriedOut(d, g, ops, paths)
    ensures forall k :: 0 <= k < |ops| ==> PathTo(Ext2Runs.RunWrites(d, g, ops), g, paths[k], ops[k].file)
    decreases |ops|
  {
    forall k | 0 <= k < |ops| ensures PathTo(Ext2Runs.RunWrites(d, g, ops), g, paths[k], ops[k].file) {
      RunKeepsPath(d, g, ops, paths[k], ops[k].file);
    }
    if ops != [] {
      RunIsWritable(d, g, ops[0]);
      var d' := Ext2Runs.DoWrite(d, g, ops[0]);
      forall k | 0 <= k < |ops| - 1 ensures PathTo(d', g, paths[1..][k], ops[1..][k].file) {
        WriteKeepsPath(d, g, ops[0], paths[k + 1], ops[k + 1].file);
      }
      RunByPath(d', g, ops[1..], paths[1..]);
    }
  }

  /** A write of a run meets what `WriteFile` needs of the file, and `WriteFile` leaves the disk the run goes on
      with. */
  lemma RunIsWritable(d: seq<byte>, g: Geo, op: Ext2Runs.WriteOp)
    requires Ext2Runs.Frontier(d, g) && Ext2Runs.CanWrite(d, g, op)
    ensures Writable(d, g, op.file, |op.data|) && op.file != 1
    ensures Ext2Runs.DoWrite(d, g, op) ==
      if Size(GetInode(d, g, op.file)) == 0 then Fresh(d, g, op.file, op.data) else Append(d, g, op.file, op.data)
    ensures Size(GetInode(d, g, op.file)) == 0 ==> |op.data| / BLOCK + 1 <= DIRECT
  {
    if Size(GetInode(d, g, op.file)) == 0 {
      Ext2Runs.RoomFits(d, g, op.file, |op.data|);
      FitsRuns(d, g, op.file, |op.data|);
    }
  }

  /** On a well-formed image the path leads through directories to regular file i, held in one block. */
  ghost predicate OneBlockFile(d: seq<byte>, g: Geo, i: nat, path: seq<byte>) {
    && Wf(d, g) && path != [] && path[0] == SLASH && 0 !in path && DirPath(d, g, ROOT, Steps(path))
    && WalkOk(d, g, ROOT, Steps(path)) && Walk(d, g, 0, ROOT, Steps(path)) == Found(i, i) && i != 1
    && ValidInode(g, i) && Kind(GetInode(d, g, i)) == FILE && OneBlock(GetInode(d, g, i))
    && Readable(d, GetInode(d, g, i))
  }

  /** After the append the path still finds the file, and reading it gives the grown contents. */
  lemma AfterAppend(d: seq<byte>, g: Geo, i: nat, path: seq<byte>, data: seq<byte>, d2: seq<byte>)
    requires OneBlockFile(d, g, i, path) && AppendFits(d, g, i, |data|) && d2 == Append(d, g, i, data)
    ensures MetaOk(d2, g) && Lookable(d2, g, path) && Finds(d2, g, path) == Found(i, i) && ReadFits(d2, g, path, BLOCK)
    ensures ReadsAs(d2, GetInode(d2, g, i), FileContent(d, g, i) + data)
  {
    AppendThenRead(d, g, i, data, Steps(path), d2);
    var r := GetInode(d2, g, i);
    forall k | 0 <= k < DIRECT && k < Leading(r, 0) ensures InDisk(d2, Pointer(r, k)) {
      assert k == 0;
    }
  }

  lemma ReadsPrefix(d: seq<byte>, r: seq<byte>, c: seq<byte>, buff: seq<byte>)
    requires |r| == RECORD && ReadsAs(d, r, c) && BLOCK <= |buff| && buff[..BLOCK] == Blocks(d, r, 1)
    ensures ReadCount(r) == |c| <= |buff| && buff[..|c|] == c
  {
    assert buff[..|c|] == buff[..BLOCK][..|c|];
  }

  lemma BlocksGrow(d: seq<byte>, r: seq<byte>, i: nat, b0: seq<byte>)
    requires |r| == RECORD && i < DIRECT && BLOCK * (i + 1) <= |b0|
    requires forall k :: 0 <= k < i + 1 ==> InDisk(d, Pointer(r, k))
    ensures Splice(Splice(b0, 0, Blocks(d, r, i)), BLOCK * i, Blk(d, Pointer(r, i)))
         == Splice(b0, 0, Blocks(d, r, i + 1))
  {
    var before, last := Blocks(d, r, i), Blk(d, Pointer(r, i));
    assert Blocks(d, r, i + 1) == before + last;
  }

  lemma CountGrows(i: nat, size: u32)
    ensures Wrap(Wrap(i * size) as int + size) == Wrap((i + 1) * size)
  {
    var p := i * size;
    assert (i + 1) * size == p + size;
    assert p == TWO32 * (p / TWO32) + Wrap(p);
    assert (p + size) % TWO32 == (Wrap(p) as int + size) % TWO32;
  }

  // ----- what a listing shows -----

  datatype Output = BadPath | Nothing | Lines(lines: seq<(seq<byte>, bool)>)

  ghost function OutputOf(d: seq<byte>, g: Geo, l: Listing): Output
    requires MetaOk(d, g) && ListingValid(g, l)
  {
    match l
    case Invalid => BadPath
    case Silent => Nothing
    case Listed(es) => Lines(Shown(d, g, es))
  }

  /** Comparing two bytes, the terminator included, singles out "/". */
  lemma RootNameExactly(path: seq<byte>)
    requires path != [] && 0 !in path
    ensures [SLASH, 0][..2] <= path + [0] <==> path == [SLASH]
    ensures |path + [0]| >= 2
  {
    var s := path + [0];
    assert [SLASH, 0][..2] == [SLASH, 0];
    assert [SLASH, 0] <= s ==> s[0] == SLASH && s[1] == 0;
    assert |path| > 1 ==> path[1] == s[1] && s[1] in path;
  }

  predicate Hidden(name: seq<byte>) {
    name != [] && name[0] == 36 // '$'
  }

  ghost predicate EntriesValid(g: Geo, es: seq<Entry>) {
    forall e :: e in es ==> ValidInode(g, e.inode)
  }

  ghost predicate ListingValid(g: Geo, l: Listing) {
    l.Listed? ==> EntriesValid(g, l.entries)
  }

  /** What is printed for one entry: nothing for a hidden name, else the name and its colour choice. */
  function LineOf(d: seq<byte>, g: Geo, e: Entry): seq<(seq<byte>, bool)>
    requires MetaOk(d, g) && ValidInode(g, e.inode)
  {
    if Hidden(e.name) then [] else [(e.name, Kind(GetInode(d, g, e.inode)) == DIRECTORY)]
  }

  /** The lines of a directory, in order. */
  ghost function Shown(d: seq<byte>, g: Geo, es: seq<Entry>): seq<(seq<byte>, bool)>
    requires MetaOk(d, g) && EntriesValid(g, es)
  {
    if es == [] then [] else LineOf(d, g, es[0]) + Shown(d, g, es[1..])
  }

  ghost predicate Listable(g: Geo, blk: seq<byte>, o: nat) {
    |blk| == BLOCK && ChainOk(blk, o) && EntriesValid(g, Entries(blk, o))
  }

  /** The lines of a block's records from offset o on. */
  ghost function ShownFrom(d: seq<byte>, g: Geo, blk: seq<byte>, o: nat): seq<(seq<byte>, bool)>
    requires MetaOk(d, g) && Listable(g, blk, o)
  {
    Shown(d, g, Entries(blk, o))
  }

  /** One entry: a name that starts with '$' is left out, every other is listed, in the directory colour exactly when
      the type nibble of its inode is 4. */
  lemma ListedOne(d: seq<byte>, g: Geo, e: Entry)
    requires MetaOk(d, g) && ValidInode(g, e.inode)
    ensures InodeAt(d, g, e.inode) + 128 <= |d|
    ensures Shown(d, g, [e]) ==
      if e.name != [] && e.name[0] == 36 then [] else [(e.name, d[InodeAt(d, g, e.inode) + 1] as int / 16 == 4)]
  {
    FieldsOnDisk(d, g, e.inode);
    assert [e][1..] == [];
    assert LineOf(d, g, e) + [] == LineOf(d, g, e);
  }

  lemma ShownCons(d: seq<byte>, g: Geo, es: seq<Entry>, e: Entry, rest: seq<Entry>)
    requires MetaOk(d, g) && EntriesValid(g, es) && es != [] && e == es[0] && rest == es[1..]
    ensures e in es && ValidInode(g, e.inode) && EntriesValid(g, rest)
    ensures Shown(d, g, es) == LineOf(d, g, e) + Shown(d, g, rest)
  {
    assert forall x :: x in rest ==> x in es;
  }

  /** Two stretches of entries list as one after the other. */
  lemma {:induction false} ListedConcat(d: seq<byte>, g: Geo, a: seq<Entry>, b: seq<Entry>)
    requires MetaOk(d, g) && EntriesValid(g, a) && EntriesValid(g, b)
    ensures EntriesValid(g, a + b) && Shown(d, g, a + b) == Shown(d, g, a) + Shown(d, g, b)
    decreases |a|
  {
    if a == [] {
      assert a + b == b && Shown(d, g, a) == [];
      assert [] + Shown(d, g, b) == Shown(d, g, b);
    } else {
      var rest := a[1..];
      assert (a + b)[0] == a[0] && (a + b)[1..] == rest + b && a[0] in a;
      assert forall e :: e in rest ==> e in a;
      ListedConcat(d, g, rest, b);
      ShownCons(d, g, a + b, a[0], rest + b);
      ShownCons(d, g, a, a[0], rest);
      Regroup(LineOf(d, g, a[0]), Shown(d, g, rest), Shown(d, g, b));
    }
  }

  /** Entry e is listed as this line. */
  ghost predicate ListedAs(d: seq<byte>, g: Geo, e: Entry, line: (seq<byte>, bool))
    requires MetaOk(d, g) && ValidInode(g, e.inode)
  {
    && !(e.name != [] && e.name[0] == 36) && line.0 == e.name && InodeAt(d, g, e.inode) + 128 <= |d|
    && (line.1 <==> d[InodeAt(d, g, e.inode) + 1] as int / 16 == 4)
  }

  /** The lines are, in order and each once, those of exactly the entries at the places `at`: the ones whose name does
      not start with '$'. */
  ghost predicate Lists(d: seq<byte>, g: Geo, es: seq<Entry>, at: seq<nat>, lines: seq<(seq<byte>, bool)>)
    requires MetaOk(d, g)
  {
    && |at| == |lines| && (forall j, k :: 0 <= j < k < |at| ==> at[j] < at[k])
    && (forall k :: 0 <= k < |at| ==>
          at[k] < |es| && ValidInode(g, es[at[k]].inode) && ListedAs(d, g, es[at[k]], lines[k]))
    && (forall i :: 0 <= i < |es| && i !in at ==> es[i].name != [] && es[i].name[0] == 36)
  }

  lemma ListsHidden(d: seq<byte>, g: Geo, a: seq<Entry>, e: Entry, at: seq<nat>, lines: seq<(seq<byte>, bool)>)
    requires MetaOk(d, g) && Lists(d, g, a, at, lines) && e.name != [] && e.name[0] == 36
    ensures Lists(d, g, a + [e], at, lines)
  {
  }

  lemma ListsShown(d: seq<byte>, g: Geo, a: seq<Entry>, e: Entry, at: seq<nat>, lines: seq<(seq<byte>, bool)>,
                   line: (seq<byte>, bool))
    requires MetaOk(d, g) && Lists(d, g, a, at, lines) && ValidInode(g, e.inode) && ListedAs(d, g, e, line)
    ensures Lists(d, g, a + [e], at + [|a|], lines + [line])
  {
    var at', es := at + [|a|], a + [e];
    assert forall i :: i in at ==> i in at';
    assert at'[|at|] == |a|;
    LinesShown(d, g, a, e, at, lines, line);
  }

  lemma LinesShown(d: seq<byte>, g: Geo, a: seq<Entry>, e: Entry, at: seq<nat>, lines: seq<(seq<byte>, bool)>,
                   line: (seq<byte>, bool))
    requires MetaOk(d, g) && |at| == |lines| && ValidInode(g, e.inode) && ListedAs(d, g, e, line)
    requires forall k :: 0 <= k < |at| ==>
      at[k] < |a| && ValidInode(g, a[at[k]].inode) && ListedAs(d, g, a[at[k]], lines[k])
    ensures var at', lines', es := at + [|a|], lines + [line], a + [e];
      forall k :: 0 <= k < |at'| ==>
        at'[k] < |es| && ValidInode(g, es[at'[k]].inode) && ListedAs(d, g, es[at'[k]], lines'[k])
  {
    var at', lines', es := at + [|a|], lines + [line], a + [e];
    forall k | 0 <= k < |at'|
      ensures at'[k] < |es| && ValidInode(g, es[at'[k]].inode) && ListedAs(d, g, es[at'[k]], lines'[k])
    {
      if k < |at| {
        assert at'[k] == at[k] && lines'[k] == lines[k] && es[at[k]] == a[at[k]];
      } else {
        assert es[at'[k]] == e && lines'[k] == line;
      }
    }
  }

  lemma {:induction false} ListedExactly(d: seq<byte>, g: Geo, es: seq<Entry>) returns (at: seq<nat>)
    requires MetaOk(d, g) && EntriesValid(g, es)
    ensures Lists(d, g, es, at, Shown(d, g, es))
    decreases |es|
  {
    at := [];
    if es != [] {
      var n := |es| - 1;
      assert es == es[..n] + [es[n]] && es[n] in es && forall x :: x in es[..n] ==> x in es;
      at := ListedExactly(d, g, es[..n]);
      at := ListedLast(d, g, es[..n], es[n], at);
    }
  }

  lemma ListedLast(d: seq<byte>, g: Geo, a: seq<Entry>, e: Entry, was: seq<nat>) returns (at: seq<nat>)
    requires MetaOk(d, g) && EntriesValid(g, a) && ValidInode(g, e.inode) && Lists(d, g, a, was, Shown(d, g, a))
    ensures EntriesValid(g, a + [e]) && Lists(d, g, a + [e], at, Shown(d, g, a + [e]))
  {
    ListedConcat(d, g, a, [e]);
    ListedOne(d, g, e);
    if e.name != [] && e.name[0] == 36 {
      at := was;
      assert Shown(d, g, a) + [] == Shown(d, g, a);
      ListsHidden(d, g, a, e, at, Shown(d, g, a));
    } else {
      at := was + [|a|];
      var line := (e.name, d[InodeAt(d, g, e.inode) + 1] as int / 16 == 4);
      ListsShown(d, g, a, e, was, Shown(d, g, a), line);
    }
  }

  /** The bad-path message comes exactly when finding returns zero. */
  lemma BadPathExactly(d: seq<byte>, g: Geo, path: seq<byte>)
    requires MetaOk(d, g) && path != [] && Steps(path) != [] && ListOk(d, g, ROOT, Steps(path))
    requires ListingValid(g, ListWalk(d, g, ROOT, Steps(path))) && FirstBlock(d, g, ROOT) != 0
    ensures Lookable(d, g, path)
    ensures OutputOf(d, g, ListWalk(d, g, ROOT, Steps(path))) == BadPath <==> Number(Finds(d, g, path)) == 0
    ensures OutputOf(d, g, ListWalk(d, g, ROOT, Steps(path))) == Nothing <==>
      var n := Number(Finds(d, g, path)); n != 0 && ValidInode(g, n) && FirstBlock(d, g, n) == 0
  {
    ListAgreesWithFind(d, g, Steps(path));
  }

  lemma Regroup<T>(a: seq<T>, b: seq<T>, c: seq<T>)
    ensures a + (b + c) == (a + b) + c
  {
  }

  /** One record of a block being listed. */
  lemma ShownStep(d: seq<byte>, g: Geo, blk: seq<byte>, o: nat)
    requires MetaOk(d, g) && Listable(g, blk, o) && U32(blk, o) != 0
    ensures RecordOk(blk, o) && ValidInode(g, U32(blk, o)) && Listable(g, blk, o + U16(blk, o + 4))
    ensures ShownFrom(d, g, blk, o) ==
      LineOf(d, g, Entry(U32(blk, o), NameAt(blk, o))) + ShownFrom(d, g, blk, o + U16(blk, o + 4))
  {
    var e, rest := Entry(U32(blk, o), NameAt(blk, o)), Entries(blk, o + U16(blk, o + 4));
    var es := Entries(blk, o);
    assert es == [e] + rest && es[0] == e && es[1..] == rest && e in es;
    assert forall x :: x in rest ==> x in es;
  }
}
