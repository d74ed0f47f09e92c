/** Directories and paths: the record chain of a directory block, path splitting, and the walk from the
    root, with the component-by-component lookup it is compared to. */
module Ext2Path {
  import opened Bytes
  import opened CString
  import opened Ext2Layout

  const ROOT: nat := 2
  const SLASH: byte := 47

  // ----- one directory block -----

  /** A record's header and name lie in the block, and its size moves on. */
  predicate RecordOk(blk: seq<byte>, o: nat)
    requires |blk| == BLOCK
  {
    o + 8 <= BLOCK && o + 8 + blk[o + 6] <= BLOCK && U16(blk, o + 4) > 0
  }

  /** The chain of records from offset `o` stays inside the block, makes progress, and ends in a record
      with inode zero. */
  predicate ChainOk(blk: seq<byte>, o: nat)
    requires |blk| == BLOCK
    decreases BLOCK - o, blk
  {
    o + 4 <= BLOCK && (U32(blk, o) == 0 || (RecordOk(blk, o) && ChainOk(blk, o + U16(blk, o + 4))))
  }

  /** The name of a record, as the NUL-terminated copy the walk compares. */
  function NameAt(blk: seq<byte>, o: nat): seq<byte>
    requires |blk| == BLOCK && RecordOk(blk, o)
  {
    Text(blk[o + 8..o + 8 + blk[o + 6]] + [0], 0)
  }

  /** The record at `o` bears exactly the name `want`: its declared bytes are those, up to their end or to a NUL. */
  predicate Bears(blk: seq<byte>, o: nat, want: seq<byte>)
    requires |blk| == BLOCK
  {
    && o + 8 + |want| <= BLOCK && |want| <= blk[o + 6] && blk[o + 8..o + 8 + |want|] == want
    && (|want| == blk[o + 6] || (o + 8 + |want| < BLOCK && blk[o + 8 + |want|] == 0))
  }

  lemma BearsExactly(blk: seq<byte>, o: nat, want: seq<byte>)
    requires |blk| == BLOCK && RecordOk(blk, o) && 0 !in want
    ensures NameAt(blk, o) == want <==> Bears(blk, o, want)
  {
    var n := blk[o + 6] as nat;
    var s, name := blk[o + 8..o + 8 + n] + [0], NameAt(blk, o);
    assert s[..n] == blk[o + 8..o + 8 + n];
    TextShort(s, 0, n);
    NameHead(blk, o, s, n, name);
    if Bears(blk, o, want) {
      NameHead(blk, o, s, n, want);
      TextIs(s, 0, want);
    }
  }

  lemma NameHead(blk: seq<byte>, o: nat, s: seq<byte>, n: nat, name: seq<byte>)
    requires o + 8 + n <= |blk| && s == blk[o + 8..o + 8 + n] + [0] && |name| <= n
    ensures s[0..0 + |name|] == blk[o + 8..o + 8 + |name|]
    ensures s[|name|] == if |name| == n then 0 else blk[o + 8 + |name|]
  {
  }

  datatype Entry = Entry(inode: u32, name: seq<byte>)

  /** The records before the terminating one. */
  function Entries(blk: seq<byte>, o: nat): seq<Entry>
    requires |blk| == BLOCK && ChainOk(blk, o)
    decreases BLOCK - o, blk
  {
    if U32(blk, o) == 0 then [] else
      [Entry(U32(blk, o), NameAt(blk, o))] + Entries(blk, o + U16(blk, o + 4))
  }

  /** The inode of the first entry with this name, or zero. */
  function Lookup(es: seq<Entry>, name: seq<byte>): u32 {
    if es == [] then 0 else if es[0].name == name then es[0].inode else Lookup(es[1..], name)
  }

  /** One record of the chain. */
  lemma LookupStep(blk: seq<byte>, o: nat, want: seq<byte>)
    requires |blk| == BLOCK && ChainOk(blk, o) && U32(blk, o) != 0
    ensures RecordOk(blk, o) && ChainOk(blk, o + U16(blk, o + 4))
    ensures Lookup(Entries(blk, o), want) ==
      if NameAt(blk, o) == want then U32(blk, o) else Lookup(Entries(blk, o + U16(blk, o + 4)), want)
  {
    var e, rest := Entry(U32(blk, o), NameAt(blk, o)), Entries(blk, o + U16(blk, o + 4));
    assert Entries(blk, o) == [e] + rest && ([e] + rest)[1..] == rest;
  }

  /** The offsets of the records of a block, from the first to the one with inode zero that ends them: each record's
      size field leads to the next. */
  ghost predicate Offsets(blk: seq<byte>, offs: seq<nat>)
    requires |blk| == BLOCK
  {
    && offs != [] && (forall k :: 0 <= k < |offs| ==> offs[k] + 4 <= BLOCK) && U32(blk, offs[|offs| - 1]) == 0
    && forall k :: 0 <= k < |offs| - 1 ==> RecordLeads(blk, offs[k], offs[k + 1])
  }

  predicate RecordLeads(blk: seq<byte>, o: nat, next: nat)
    requires |blk| == BLOCK
  {
    && o + 8 <= BLOCK && o + 8 + blk[o + 6] <= BLOCK && U32(blk, o) != 0
    && o < next == o + blk[o + 4] as nat + 256 * (blk[o + 5] as nat)
  }

  /** The records of a block, read off its bytes: as many as there are offsets before the last, with their inode
      numbers and the names they bear. */
  lemma {:induction false} EntriesAt(blk: seq<byte>, offs: seq<nat>)
    requires |blk| == BLOCK && Offsets(blk, offs)
    ensures ChainOk(blk, offs[0]) && |Entries(blk, offs[0])| == |offs| - 1
    ensures forall k :: 0 <= k < |offs| - 1 ==>
      Entries(blk, offs[0])[k].inode == U32(blk, offs[k]) && 0 !in Entries(blk, offs[0])[k].name
      && Bears(blk, offs[k], Entries(blk, offs[0])[k].name)
    decreases |offs|
  {
    if |offs| > 1 {
      var o, rest := offs[0], offs[1..];
      assert RecordLeads(blk, o, offs[1]);
      forall k | 0 <= k < |rest| - 1 ensures RecordLeads(blk, rest[k], rest[k + 1]) {
        assert RecordLeads(blk, offs[k + 1], offs[k + 2]);
      }
      EntriesAt(blk, rest);
      BearsExactly(blk, o, NameAt(blk, o));
      assert Entries(blk, o) == [Entry(U32(blk, o), NameAt(blk, o))] + Entries(blk, offs[1]);
    }
  }

  /** A block with a record chain has such offsets. */
  lemma {:induction false} ChainOffsets(blk: seq<byte>, o: nat) returns (offs: seq<nat>)
    requires |blk| == BLOCK && ChainOk(blk, o)
    ensures Offsets(blk, offs) && offs[0] == o
    decreases BLOCK - o
  {
    if U32(blk, o) == 0 {
      offs := [o];
    } else {
      var next := o + U16(blk, o + 4);
      var rest := ChainOffsets(blk, next);
      offs := [o] + rest;
      assert RecordLeads(blk, o, next);
      forall k | 0 <= k < |offs| - 1 ensures RecordLeads(blk, offs[k], offs[k + 1]) {
        assert k > 0 ==> RecordLeads(blk, rest[k - 1], rest[k]);
      }
    }
  }

  /** The first record that bears the name, or zero when none does. */
  ghost predicate FirstBearing(blk: seq<byte>, offs: seq<nat>, want: seq<byte>, inode: u32)
    requires |blk| == BLOCK && Offsets(blk, offs)
  {
    if inode == 0 then forall k :: 0 <= k < |offs| - 1 ==> !Bears(blk, offs[k], want)
    else exists k :: 0 <= k < |offs| - 1 && inode == U32(blk, offs[k]) && Bears(blk, offs[k], want)
           && forall j :: 0 <= j < k ==> !Bears(blk, offs[j], want)
  }

  lemma {:induction false} LookupFirst(es: seq<Entry>, name: seq<byte>)
    requires forall e :: e in es ==> e.inode != 0
    ensures Lookup(es, name) == 0 ==> forall k :: 0 <= k < |es| ==> es[k].name != name
    decreases |es|
  {
    if es != [] {
      assert es[0] in es;
      LookupFirst(es[1..], name);
      assert forall k :: 1 <= k < |es| ==> es[k] == es[1..][k - 1];
    }
  }

  /** Bearing a name is having it: no record bears two. */
  lemma BearsOne(blk: seq<byte>, o: nat, a: seq<byte>, b: seq<byte>)
    requires |blk| == BLOCK && RecordOk(blk, o) && 0 !in a && 0 !in b && Bears(blk, o, a)
    ensures Bears(blk, o, b) <==> a == b
  {
    BearsExactly(blk, o, a);
    BearsExactly(blk, o, b);
  }

  /** Looking a name up in a block, read off its bytes. */
  lemma LookupBearing(blk: seq<byte>, offs: seq<nat>, want: seq<byte>)
    requires |blk| == BLOCK && Offsets(blk, offs) && 0 !in want
    ensures ChainOk(blk, offs[0]) && FirstBearing(blk, offs, want, Lookup(Entries(blk, offs[0]), want))
  {
    EntriesAt(blk, offs);
    EntriesNonZero(blk, offs[0]);
    var es := Entries(blk, offs[0]);
    forall k | 0 <= k < |es| ensures es[k].name == want <==> Bears(blk, offs[k], want) {
      assert RecordLeads(blk, offs[k], offs[k + 1]);
      BearsOne(blk, offs[k], es[k].name, want);
    }
    LookupFirst(es, want);
    if Lookup(es, want) != 0 {
      var k := FirstNamed(es, want);
      assert Bears(blk, offs[k], want);
    }
  }

  lemma {:induction false} FirstNamed(es: seq<Entry>, name: seq<byte>) returns (k: nat)
    requires Lookup(es, name) != 0
    ensures k < |es| && es[k].name == name && Lookup(es, name) == es[k].inode
    ensures forall j :: 0 <= j < k ==> es[j].name != name
    decreases |es|
  {
    if es[0].name == name {
      k := 0;
    } else {
      var i := FirstNamed(es[1..], name);
      k := i + 1;
      assert forall j :: 1 <= j < k ==> es[j] == es[1..][j - 1];
    }
  }

  lemma {:induction false} EntriesNonZero(blk: seq<byte>, o: nat)
    requires |blk| == BLOCK && ChainOk(blk, o)
    ensures forall e :: e in Entries(blk, o) ==> e.inode != 0
    decreases BLOCK - o
  {
    if U32(blk, o) != 0 {
      EntriesNonZero(blk, o + U16(blk, o + 4));
    }
  }

  /** Compare a record's name, copied out and NUL-terminated, with the name wanted. */
  method NameMatches(filename: array<byte>, at: nat, buff: array<byte>, dir: nat) returns (same: bool)
    requires at <= filename.Length && 0 in filename[at..]
    requires buff.Length == BLOCK && RecordOk(buff[..], dir)
    ensures same <==> NameAt(buff[..], dir) == Text(filename[..], at)
    ensures same <==> Bears(buff[..], dir, Text(filename[..], at))
  {
    BearsExactly(buff[..], dir, Text(filename[..], at));
    var nameLength := buff[dir + 6];
    var name := buff[dir + 8..dir + 8 + nameLength] + [0];
    assert name[nameLength] == 0;
    assert name == buff[..][dir + 8..dir + 8 + nameLength] + [0];
    var res := Strcmp(filename, at, name);
    same := res == 0;
  }

  /** ext2_read_directory.  The inode record it reads into a scratch buffer and drops has no effect. */
  method ReadDirectory(filename: array<byte>, at: nat, buff: array<byte>) returns (inode: u32)
    requires at <= filename.Length && 0 in filename[at..]
    requires buff.Length == BLOCK && ChainOk(buff[..], 0)
    ensures inode == Lookup(Entries(buff[..], 0), Text(filename[..], at))
    ensures forall offs :: Offsets(buff[..], offs) && offs[0] == 0 ==>
      FirstBearing(buff[..], offs, Text(filename[..], at), inode)
  {
    inode := WalkRecords(filename, at, buff);
    forall offs | Offsets(buff[..], offs) && offs[0] == 0
      ensures FirstBearing(buff[..], offs, Text(filename[..], at), inode)
    {
      LookupBearing(buff[..], offs, Text(filename[..], at));
    }
  }

  /** Its loop over the records. */
  method WalkRecords(filename: array<byte>, at: nat, buff: array<byte>) returns (inode: u32)
    requires at <= filename.Length && 0 in filename[at..]
    requires buff.Length == BLOCK && ChainOk(buff[..], 0)
    ensures inode == Lookup(Entries(buff[..], 0), Text(filename[..], at))
  {
    var dir := 0;
    ghost var blk, want := buff[..], Text(filename[..], at);
    while U32(buff[..], dir) != 0
      invariant dir + 4 <= BLOCK && ChainOk(blk, dir)
      invariant Lookup(Entries(blk, dir), want) == Lookup(Entries(blk, 0), want)
      decreases BLOCK - dir
    {
      LookupStep(blk, dir, want);
      var fileInode := U32(buff[..], dir);
      var same := NameMatches(filename, at, buff, dir);
      if same {
        return fileInode;
      }
      dir := dir + U16(buff[..], dir + 4);
    }
    return 0;
  }

  // ----- splitting a path -----

  /** The components of `s` between the delimiters. */
  function SplitAt(s: seq<byte>, delim: byte): (r: seq<seq<byte>>)
    ensures |r| >= 1
  {
    if s == [] then [[]]
    else if s[0] == delim then [[]] + SplitAt(s[1..], delim)
    else var r := SplitAt(s[1..], delim); [[s[0]] + r[0]] + r[1..]
  }

  /** Every delimiter replaced by NUL. */
  function CutAt(s: seq<byte>, delim: byte): (r: seq<byte>)
    ensures |r| == |s| && forall i :: 0 <= i < |s| ==> r[i] == if s[i] == delim then 0 else s[i]
  {
    seq(|s|, i requires 0 <= i < |s| => if s[i] == delim then 0 else s[i])
  }

  /** The parts with the delimiter between them. */
  function Joined(parts: seq<seq<byte>>, delim: byte): seq<byte>
    requires parts != []
  {
    if |parts| == 1 then parts[0] else parts[0] + [delim] + Joined(parts[1..], delim)
  }

  /** The components joined again are the string, and none contains the delimiter. */
  lemma {:induction false} SplitJoins(s: seq<byte>, delim: byte)
    ensures Joined(SplitAt(s, delim), delim) == s
    ensures forall p :: p in SplitAt(s, delim) ==> delim !in p
    decreases |s|
  {
    if s != [] {
      SplitJoins(s[1..], delim);
      var rest := SplitAt(s[1..], delim);
      assert s == [s[0]] + s[1..];
      if s[0] == delim {
        var all := [[]] + rest;
        assert all[0] == [] && all[1..] == rest;
      } else {
        GrowFirst(s[0], rest, delim);
        assert forall p :: p in rest[1..] ==> p in rest;
        assert rest[0] in rest;
      }
    }
  }

  lemma GrowFirst(c: byte, parts: seq<seq<byte>>, delim: byte)
    requires parts != []
    ensures Joined([[c] + parts[0]] + parts[1..], delim) == [c] + Joined(parts, delim)
  {
    var grown := [[c] + parts[0]] + parts[1..];
    assert grown[0] == [c] + parts[0] && grown[1..] == parts[1..];
    if |parts| > 1 {
      var rest := Joined(parts[1..], delim);
      assert ([c] + parts[0]) + [delim] + rest == [c] + (parts[0] + [delim] + rest);
    }
  }

  lemma CutCons(s: seq<byte>, delim: byte)
    requires s != []
    ensures CutAt(s, delim)[1..] == CutAt(s[1..], delim)
  {
  }

  /** strsplit: the string is cut in place, and the count is one more than the delimiters. */
  method Strsplit(str: array<byte>, delim: byte, ghost s: seq<byte>) returns (n: nat)
    requires str.Length == |s| + 1 && str[..] == s + [0] && 0 !in s
    modifies str
    ensures str[..] == CutAt(s, delim) + [0] && n == |SplitAt(s, delim)|
  {
    n := 0;
    var i := 0;
    assert s[0..] == s;
    assert forall k :: 0 <= k < |s| ==> s[k] != 0;
    while str[i] != 0
      invariant 0 <= i <= |s| && n + |SplitAt(s[i..], delim)| == |SplitAt(s, delim)|
      invariant forall k :: 0 <= k < i ==> str[k] == CutAt(s, delim)[k]
      invariant forall k :: i <= k < |s| ==> str[k] == s[k]
      invariant str[|s|] == 0
      decreases |s| - i
    {
      assert s[i..][1..] == s[i + 1..];
      if str[i] == delim {
        str[i] := 0;
        n := n + 1;
      }
      i := i + 1;
    }
    assert s[i..] == [];
    n := n + 1;
  }

  /** Components laid out one after another, each closed by a NUL, from `at` on. */
  ghost predicate Laid(a: seq<byte>, at: nat, comps: seq<seq<byte>>)
    decreases |comps|
  {
    comps == [] ||
    (&& at + |comps[0]| < |a| && a[at + |comps[0]|] == 0 && Text(a, at) == comps[0]
     && Laid(a, at + |comps[0]| + 1, comps[1..]))
  }

  lemma LaidHead(a: seq<byte>, at: nat, comps: seq<seq<byte>>)
    requires comps != [] && Laid(a, at, comps)
    ensures at <= |a| && 0 in a[at..] && Text(a, at) == comps[0] && Laid(a, at + |comps[0]| + 1, comps[1..])
  {
    assert a[at..][|comps[0]|] == a[at + |comps[0]|];
  }

  lemma LaidEmpty(a: seq<byte>, at: nat, comps: seq<seq<byte>>)
    requires at < |a| && a[at] == 0 && Laid(a, at + 1, comps)
    ensures Laid(a, at, [[]] + comps)
  {
    assert ([[]] + comps)[1..] == comps;
  }

  lemma LaidGrow(a: seq<byte>, at: nat, c: byte, comps: seq<seq<byte>>)
    requires at < |a| && a[at] == c != 0 && comps != [] && Laid(a, at + 1, comps)
    ensures Laid(a, at, [[c] + comps[0]] + comps[1..])
  {
    var grown := [[c] + comps[0]] + comps[1..];
    assert grown[0] == [c] + comps[0] && grown[1..] == comps[1..];
    assert Text(a, at) == [c] + Text(a, at + 1);
    assert at + |grown[0]| + 1 == at + 1 + |comps[0]| + 1;
  }

  lemma {:induction false} LaidPrefix(a: seq<byte>, at: nat, comps: seq<seq<byte>>, n: nat)
    requires Laid(a, at, comps) && n <= |comps|
    ensures Laid(a, at, comps[..n])
    decreases n
  {
    if n != 0 {
      var p := comps[..n];
      assert p[0] == comps[0] && p[1..] == comps[1..][..n - 1];
      LaidPrefix(a, at + |comps[0]| + 1, comps[1..], n - 1);
    }
  }

  /** Stepping by strlen + 1 over the cut string visits exactly the components. */
  lemma {:induction false} SplitLaid(pre: seq<byte>, s: seq<byte>, delim: byte)
    requires 0 !in s
    ensures Laid(pre + CutAt(s, delim) + [0], |pre|, SplitAt(s, delim))
    decreases |s|
  {
    var a := pre + CutAt(s, delim) + [0];
    if s == [] {
      assert a[|pre|] == 0;
      LaidEmpty(a, |pre|, []);
      assert SplitAt(s, delim) == [[]] + [];
    } else {
      var pre' := pre + [CutAt(s, delim)[0]];
      CutCons(s, delim);
      assert a == pre' + CutAt(s[1..], delim) + [0];
      assert s == [s[0]] + s[1..];
      SplitLaid(pre', s[1..], delim);
      if s[0] == delim {
        LaidEmpty(a, |pre|, SplitAt(s[1..], delim));
      } else {
        LaidGrow(a, |pre|, s[0], SplitAt(s[1..], delim));
      }
    }
  }

  // ----- the steps the driver takes -----

  /** The '/'-separated components. */
  function Split(s: seq<byte>): seq<seq<byte>> {
    SplitAt(s, SLASH)
  }

  /** The names the driver looks up for a path.  It skips the first character and looks up one name less than
      the path has components: for an absolute path that is all of them, for a relative one the first loses
      its first character and the last is not looked up. */
  function Steps(path: seq<byte>): (r: seq<seq<byte>>)
    requires path != []
    ensures |r| + 1 == |Split(path)|
    ensures path[0] == SLASH ==> r == Split(path[1..]) && Split(path) == [[]] + r && r != []
  {
    var s := Split(path[1..]);
    if path[0] == SLASH then s else s[..|s| - 1]
  }

  lemma StepsPrefix(path: seq<byte>)
    requires path != []
    ensures |Steps(path)| <= |Split(path[1..])| && Steps(path) == Split(path[1..])[..|Steps(path)|]
  {
  }
}
