/** Whole runs of the heap: safety, persistence of live data, and conservation of free bytes. */
module HeapRuns {
  import opened Bytes
  import opened HeapModel

  /** Every event of the run is possible when its turn comes. */
  ghost predicate Possible(h: Heap, es: seq<Event>)
    requires Valid(h)
    decreases |es|
  {
    es == [] || (Enabled(h, es[0]) && Possible(Step(h, es[0]), es[1..]))
  }

  ghost function Exec(h: Heap, es: seq<Event>): (r: Heap)
    requires Valid(h) && Possible(h, es)
    ensures Valid(r)
    decreases |es|
  {
    if es == [] then h else Exec(Step(h, es[0]), es[1..])
  }

  predicate Touches(e: Event, p: nat) {
    match e
    case DoMalloc(_) => false
    case DoFree(q) => q == p
    case DoStore(q, _, _) => q == p
  }

  lemma StepSame(h: Heap, e: Event)
    requires Valid(h) && Enabled(h, e)
    ensures SameOutside(h, Step(h, e))
    ensures forall q :: q in h.live && !Touches(e, q) ==>
      q in Step(h, e).live && Step(h, e).live[q] == h.live[q] && BlockSame(h.mem, Step(h, e).mem, q, h.live[q])
  {
    match e
    case DoMalloc(size) => MallocFresh(h, size);
    case DoFree(p) => FreeSame(h, p);
    case DoStore(p, off, data) => StoreSame(h, p, off, data);
  }

  /** The block lies inside the heap and its header reads as its size. */
  ghost predicate InHeap(h: Heap, p: nat, size: nat) {
    h.base + 7 <= p && p + size + 3 <= h.base + HEAP_SIZE <= |h.mem| && U32(h.mem, p - 4) == size
  }

  /** Markers intact; live blocks inside the heap, pairwise apart, their headers holding their sizes. */
  ghost predicate Safe(h: Heap) {
    && 13 <= h.base && h.base + HEAP_SIZE + 11 <= |h.mem|
    && h.mem[h.base - 13..h.base] == StartMark()
    && h.mem[h.base + HEAP_SIZE..h.base + HEAP_SIZE + 11] == EndMark()
    && (forall p :: p in h.live ==> InHeap(h, p, h.live[p]))
    && (forall p, q :: p in h.live && q in h.live && p != q ==> Apart(p, h.live[p], q, h.live[q]))
  }

  lemma ValidIsSafe(h: Heap)
    requires Valid(h)
    ensures Safe(h)
  {
    forall p | p in h.live ensures InHeap(h, p, h.live[p]) {
      HeaderReads(h, p, h.live[p]);
    }
    assert Framed(h);
  }

  lemma HeaderReads(h: Heap, p: nat, size: nat)
    requires BlockOk(h, p, size)
    ensures InHeap(h, p, size)
  {
    U32Stored(h.mem, p - 4, size);
  }

  /** Over every run the heap stays safe and memory outside it is untouched. */
  lemma {:induction false} EveryRunSafe(h: Heap, es: seq<Event>)
    requires Valid(h) && Possible(h, es)
    ensures Safe(Exec(h, es)) && SameOutside(h, Exec(h, es))
    decreases |es|
  {
    if es == [] {
      ValidIsSafe(h);
    } else {
      StepSame(h, es[0]);
      EveryRunSafe(Step(h, es[0]), es[1..]);
    }
  }

  /** A live block that the run neither frees nor writes keeps every byte of header and data. */
  lemma {:induction false} UntouchedBlockPersists(h: Heap, es: seq<Event>, p: nat)
    requires Valid(h) && Possible(h, es) && p in h.live
    requires forall e :: e in es ==> !Touches(e, p)
    ensures p in Exec(h, es).live && Exec(h, es).live[p] == h.live[p]
    ensures BlockSame(h.mem, Exec(h, es).mem, p, h.live[p])
    decreases |es|
  {
    if es == [] {
      assert BlockOk(h, p, h.live[p]);
    } else {
      StepSame(h, es[0]);
      UntouchedBlockPersists(Step(h, es[0]), es[1..], p);
    }
  }

  /** Once every block is freed, in whatever order, memory is what it was before the first one. */
  lemma AllFreedRestores(h: Heap, es: seq<Event>)
    requires Valid(h) && h.live == map[] && Possible(h, es)
    requires Exec(h, es).live == map[]
    ensures Exec(h, es) == h
  {
    var r := Exec(h, es);
    EveryRunSafe(h, es);
    forall i | 0 <= i < |h.mem| ensures r.mem[i] == h.mem[i] {
      assert !Covered(h.live, i) && !Covered(r.live, i);
    }
    assert r.mem == h.mem;
  }

  /** After mm_init, a run that frees everything leaves exactly the memory mm_init left. */
  lemma InitRestored(mem: seq<byte>, base: nat, es: seq<Event>)
    requires 13 <= base && base + HEAP_SIZE + 11 <= |mem| <= TWO32
    requires Valid(Init(mem, base)) && Possible(Init(mem, base), es)
    requires Exec(Init(mem, base), es).live == map[]
    ensures Exec(Init(mem, base), es) == Init(mem, base)
  {
    AllFreedRestores(Init(mem, base), es);
  }

  /** Allocate, leave any bytes whatever in the block, free it: the heap is restored byte for byte. */
  lemma BorrowRestores(h: Heap, size: nat, p: nat, r: Heap)
    requires Valid(h) && Fits(h, size) && HasRun(h.mem, h.base, size + 10)
    requires p == FirstFit(h.mem, h.base, size + 10) + 7 && SameBut(Malloc(h, size), r, p, size)
    ensures p in r.live && 4 <= p && p + r.live[p] <= |r.mem|
    ensures Free(r, p) == h
  {
    var s := FitBounds(h, size);
    CarveApart(h, s, size);
    MallocFresh(h, size);
    PlacedThenFreed(h, s, size, r);
  }

  /** The heaps differ at most in the data of block `p`. */
  ghost predicate SameBut(h: Heap, r: Heap, p: nat, size: nat) {
    && r.live == h.live && r.base == h.base && |r.mem| == |h.mem|
    && forall i :: 0 <= i < |h.mem| && !(p <= i < p + size) ==> r.mem[i] == h.mem[i]
  }

  /** Writes into block `p`: offset and bytes of each. */
  ghost predicate WritesOk(h: Heap, p: nat, writes: seq<(nat, seq<byte>)>) {
    && p in h.live && p + h.live[p] <= |h.mem|
    && forall k :: 0 <= k < |writes| ==> writes[k].0 + |writes[k].1| <= h.live[p]
  }

  ghost function Written(h: Heap, p: nat, writes: seq<(nat, seq<byte>)>): Heap
    requires WritesOk(h, p, writes)
    decreases |writes|
  {
    if writes == [] then h else Written(Store(h, p, writes[0].0, writes[0].1), p, writes[1..])
  }

  lemma {:induction false} WrittenInside(h: Heap, p: nat, writes: seq<(nat, seq<byte>)>)
    requires WritesOk(h, p, writes)
    ensures SameBut(h, Written(h, p, writes), p, h.live[p])
    decreases |writes|
  {
    if writes != [] {
      WrittenInside(Store(h, p, writes[0].0, writes[0].1), p, writes[1..]);
    }
  }

  /** The same for any sequence of writes into the block, four '$' in a row included. */
  lemma BorrowWriteFree(h: Heap, size: nat, p: nat, writes: seq<(nat, seq<byte>)>)
    requires Valid(h) && Fits(h, size) && HasRun(h.mem, h.base, size + 10)
    requires p == FirstFit(h.mem, h.base, size + 10) + 7 && WritesOk(Malloc(h, size), p, writes)
    ensures var r := Written(Malloc(h, size), p, writes);
      p in r.live && 4 <= p && p + r.live[p] <= |r.mem| && Free(r, p) == h
  {
    MallocFresh(h, size);
    WrittenInside(Malloc(h, size), p, writes);
    BorrowRestores(h, size, p, Written(Malloc(h, size), p, writes));
  }

  /** A run that leaves the blocks of `h` alone. */
  ghost predicate Leaves(h: Heap, es: seq<Event>) {
    forall e, p :: e in es && p in h.live ==> !Touches(e, p)
  }

  /** A run that leaves the older blocks alone changes memory only in the new blocks that are still live: what
      a routine frees is restored, and what it leaks is all that differs. */
  lemma RunConserves(h: Heap, es: seq<Event>)
    requires Valid(h) && Possible(h, es) && Leaves(h, es)
    ensures var r := Exec(h, es);
      && |r.mem| == |h.mem| && r.base == h.base
      && (forall p :: p in h.live ==> p in r.live && r.live[p] == h.live[p])
      && (forall i: nat :: i < |h.mem| && r.mem[i] != h.mem[i] ==>
            exists p :: p in r.live && p !in h.live && InBlock(p, r.live[p], i))
  {
    var r := Exec(h, es);
    EveryRunSafe(h, es);
    forall p | p in h.live ensures p in r.live && r.live[p] == h.live[p] && BlockSame(h.mem, r.mem, p, h.live[p]) {
      UntouchedBlockPersists(h, es, p);
    }
    forall i: nat | i < |h.mem| && r.mem[i] != h.mem[i]
      ensures exists p :: p in r.live && p !in h.live && InBlock(p, r.live[p], i)
    {
      assert h.base <= i < h.base + HEAP_SIZE;
      if p :| p in h.live && InBlock(p, h.live[p], i) {
        SameInBlock(h, r, p, i);
      }
      assert !Covered(h.live, i) && Covered(r.live, i);
      var p :| p in r.live && InBlock(p, r.live[p], i);
      assert p !in h.live;
    }
  }

  lemma SameInBlock(h: Heap, r: Heap, p: nat, i: nat)
    requires p in h.live && BlockSame(h.mem, r.mem, p, h.live[p]) && InBlock(p, h.live[p], i)
    ensures r.mem[i] == h.mem[i]
  {
    var t, t' := h.mem[p - 4..p + h.live[p]], r.mem[p - 4..p + h.live[p]];
    assert t[i - (p - 4)] == h.mem[i] && t'[i - (p - 4)] == r.mem[i];
  }

  /** A run that leaves the older blocks alone and frees every block of its own, in any order, restores the
      heap byte for byte. */
  lemma RunRestores(h: Heap, es: seq<Event>)
    requires Valid(h) && Possible(h, es) && Leaves(h, es) && Exec(h, es).live == h.live
    ensures Exec(h, es) == h
  {
    RunConserves(h, es);
    assert Exec(h, es).mem == h.mem;
  }

  lemma PlacedThenFreed(h: Heap, s: nat, size: nat, r: Heap)
    requires Run(h.mem, s, size + 10) && s + 7 !in h.live && size < TWO32
    requires SameBut(Place(h, s, size), r, s + 7, size)
    ensures Free(r, s + 7) == h
  {
    CarveElsewhere(h.mem, s, size);
    var f := Free(r, s + 7);
    forall i | 0 <= i < |h.mem| ensures f.mem[i] == h.mem[i] {
    }
    assert f.mem == h.mem;
    assert f.live == h.live;
  }

  // ----- counting -----

  function CountUsed(mem: seq<byte>, from: nat, n: nat): (c: nat)
    requires from + n <= |mem|
  {
    if n == 0 then 0 else CountUsed(mem, from, n - 1) + if mem[from + n - 1] != SENTINEL then 1 else 0
  }

  lemma {:induction false} CountAtMost(mem: seq<byte>, from: nat, n: nat)
    requires from + n <= |mem|
    ensures CountUsed(mem, from, n) <= n
    decreases n
  {
    if n != 0 {
      CountAtMost(mem, from, n - 1);
    }
  }

  /** The addresses in live blocks (header or data) that do not hold '$'. */
  ghost function UsedAddresses(h: Heap): set<nat>
    requires Sound(h)
  {
    set i: nat | h.base <= i < h.base + HEAP_SIZE && Covered(h.live, i) && h.mem[i] != SENTINEL
  }

  ghost function NonFree(mem: seq<byte>, from: nat, n: nat): set<nat>
    requires from + n <= |mem|
  {
    set i: nat | from <= i < from + n && mem[i] != SENTINEL
  }

  lemma {:induction false} CountIsCardinality(mem: seq<byte>, from: nat, n: nat)
    requires from + n <= |mem|
    ensures CountUsed(mem, from, n) == |NonFree(mem, from, n)|
  {
    if n == 0 {
      assert NonFree(mem, from, n) == {};
    } else {
      CountIsCardinality(mem, from, n - 1);
      var last := from + n - 1;
      assert NonFree(mem, from, n) == NonFree(mem, from, n - 1) + if mem[last] != SENTINEL then {last} else {};
    }
  }

  /** The bytes counted are exactly the non-'$' bytes of live blocks. */
  lemma CountIsLiveBytes(h: Heap)
    requires Sound(h)
    ensures CountUsed(h.mem, h.base, HEAP_SIZE) == |UsedAddresses(h)|
  {
    CountIsCardinality(h.mem, h.base, HEAP_SIZE);
    assert NonFree(h.mem, h.base, HEAP_SIZE) == UsedAddresses(h);
  }

  /** When no stretch inside the heap fits, every stretch the scan can reach lies past the end
      marker: the allocation stays inside the heap exactly when one fits there. */
  lemma InsideExactlyWhenFits(h: Heap, size: nat)
    requires Framed(h) && HasRun(h.mem, h.base, size + 10)
    ensures var s := FirstFit(h.mem, h.base, size + 10);
      if Fits(h, size) then s + size + 10 <= h.base + HEAP_SIZE else h.base + HEAP_SIZE + 11 <= s
  {
    if Fits(h, size) {
      var s := FitBounds(h, size);
    } else {
      var s := FirstFit(h.mem, h.base, size + 10);
      assert !RunInside(h, s, size + 10) && h.mem[s] == SENTINEL;
      var end := h.base + HEAP_SIZE;
      var t := h.mem[end..end + 11];
      assert forall i :: 0 <= i < 11 ==> t[i] in EndMark() && h.mem[end + i] == t[i];
      forall i | end <= i < end + 11 ensures h.mem[i] != SENTINEL {
        assert h.mem[i] == t[i - end];
      }
      assert h.mem[end] != SENTINEL;
    }
  }

  /** 25591 bytes do not fit in an empty heap; with free-looking memory behind the end marker the block is placed
      there. */
  lemma PastEndExample(mem: seq<byte>)
    requires mem == Repeat(SENTINEL, 13 + HEAP_SIZE + 11 + HEAP_SIZE + 1)
    ensures var h := Init(mem, 13);
      && Valid(h) && !Fits(h, 25591) && HasRun(h.mem, h.base, 25601)
      && FirstFit(h.mem, h.base, 25601) == h.base + HEAP_SIZE + 11
  {
    var h, s := Init(mem, 13), 13 + HEAP_SIZE + 11;
    InitValid(mem, 13);
    assert Run(h.mem, s, 25601);
    InsideExactlyWhenFits(h, 25591);
  }
}
