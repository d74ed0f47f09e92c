/** The sentinel heap of kernel/arch/i386/malloc.c as a transition system over memory values.
    There is no free list: a byte is free when it holds '$', and `malloc` takes the first stretch of
    `size + 10` free bytes, skips three of them, writes a 4-byte length and zeroes the data. */
module HeapModel {
  import opened Bytes

  const HEAP_SIZE: nat := 1024 * 25
  const SENTINEL: byte := 36 // '$'

  /** Memory, the address of the heap, and the size of each live block by its data address. */
  datatype Heap = Heap(mem: seq<byte>, base: nat, live: map<nat, nat>)

  function StartMark(): (r: seq<byte>)
    ensures |r| == 13
  {
    Ascii("START_OF_HEAP")
  }

  function EndMark(): (r: seq<byte>)
    ensures |r| == 11 && SENTINEL !in r
  {
    Ascii("END_OF_HEAP")
  }

  ghost predicate Run(mem: seq<byte>, s: nat, n: nat) {
    s + n <= |mem| && forall i :: s <= i < s + n ==> mem[i] == SENTINEL
  }

  ghost predicate HasRun(mem: seq<byte>, from: nat, n: nat) {
    exists s: nat :: from <= s && Run(mem, s, n)
  }

  /** No run of `n` free bytes starts in `from..to`. */
  ghost predicate NoRun(mem: seq<byte>, from: nat, to: nat, n: nat) {
    forall t: nat :: from <= t < to ==> !Run(mem, t, n)
  }

  ghost predicate IsFirstFit(mem: seq<byte>, from: nat, n: nat, s: nat) {
    from <= s && Run(mem, s, n) && NoRun(mem, from, s, n)
  }

  lemma {:induction false} FirstFitExists(mem: seq<byte>, from: nat, n: nat)
    requires HasRun(mem, from, n)
    ensures exists s: nat :: IsFirstFit(mem, from, n, s)
    decreases |mem| - from
  {
    if Run(mem, from, n) {
      assert IsFirstFit(mem, from, n, from);
    } else {
      var w: nat :| from <= w && Run(mem, w, n);
      FirstFitExists(mem, from + 1, n);
      var s: nat :| IsFirstFit(mem, from + 1, n, s);
      assert IsFirstFit(mem, from, n, s);
    }
  }

  /** The least start, from `from` on, of a run of `n` free bytes. */
  ghost function FirstFit(mem: seq<byte>, from: nat, n: nat): (s: nat)
    requires HasRun(mem, from, n)
    ensures IsFirstFit(mem, from, n, s)
  {
    FirstFitExists(mem, from, n);
    var s: nat :| IsFirstFit(mem, from, n, s);
    s
  }

  // ----- what is kept -----

  ghost predicate Framed(h: Heap) {
    && 13 <= h.base && h.base + HEAP_SIZE + 11 <= |h.mem| <= TWO32
    && h.mem[h.base - 13..h.base] == StartMark()
    && h.mem[h.base + HEAP_SIZE..h.base + HEAP_SIZE + 11] == EndMark()
  }

  /** Block `p` lies in the heap between guards and its header still holds its size. */
  ghost predicate BlockOk(h: Heap, p: nat, size: nat) {
    && h.base + 7 <= p && p + size + 3 <= h.base + HEAP_SIZE <= |h.mem|
    && h.mem[p - 4..p] == LE32(size)
  }

  /** Header and data of the two blocks do not meet. */
  ghost predicate Apart(p: nat, psize: nat, q: nat, qsize: nat) {
    p + psize + 4 <= q || q + qsize + 4 <= p
  }

  predicate InBlock(p: nat, size: nat, i: nat) {
    p <= i + 4 && i < p + size
  }

  ghost predicate Covered(live: map<nat, nat>, i: nat) {
    exists p :: p in live && InBlock(p, live[p], i)
  }

  /** Everything but the discipline on data: markers, headers, disjointness, and every heap byte
      outside the live blocks free. */
  ghost predicate Sound(h: Heap) {
    && Framed(h)
    && (forall p :: p in h.live ==> BlockOk(h, p, h.live[p]))
    && (forall p, q :: p in h.live && q in h.live && p != q ==> Apart(p, h.live[p], q, h.live[q]))
    && (forall i: nat :: h.base <= i < h.base + HEAP_SIZE && !Covered(h.live, i) ==> h.mem[i] == SENTINEL)
  }

  /** No four consecutive data bytes of the block are '$'. */
  ghost predicate Quiet(mem: seq<byte>, p: nat, size: nat) {
    forall i: nat :: p <= i && i + 4 <= p + size ==> !Run(mem, i, 4)
  }

  ghost predicate Valid(h: Heap) {
    Sound(h) && forall p :: p in h.live ==> Quiet(h.mem, p, h.live[p])
  }

  // ----- the operations -----

  function Init(mem: seq<byte>, base: nat): Heap
    requires 13 <= base && base + HEAP_SIZE + 11 <= |mem|
  {
    var m := Splice(mem, base, Repeat(SENTINEL, HEAP_SIZE));
    var m := Splice(m, base + HEAP_SIZE, EndMark());
    Heap(Splice(m, base - 13, StartMark()), base, map[])
  }

  ghost predicate RunInside(h: Heap, s: nat, n: nat) {
    h.base <= s && s + n <= h.base + HEAP_SIZE && Run(h.mem, s, n)
  }

  ghost predicate HasRunInside(h: Heap, n: nat) {
    exists s: nat :: RunInside(h, s, n)
  }

  /** A free stretch for `size` data bytes exists inside the heap. */
  ghost predicate Fits(h: Heap, size: nat) {
    HasRunInside(h, size + 10)
  }

  /** The number of free bytes find_block scans for: size + 6 + sizeof(size_t), in 32 bits. */
  function ScanLength(size: u32): u32 {
    Wrap(size + 10)
  }

  /** Memory after a block of `size` bytes is carved out of the run at `s`. */
  function Carve(mem: seq<byte>, s: nat, size: nat): (r: seq<byte>)
    requires s + size + 10 <= |mem| && size < TWO32
    ensures |r| == |mem|
  {
    Splice(Splice(mem, s + 3, LE32(size)), s + 7, Repeat(0, size))
  }

  /** The heap with a block of `size` bytes placed in the run at `s`. */
  function Place(h: Heap, s: nat, size: nat): Heap
    requires s + size + 10 <= |h.mem| && size < TWO32
  {
    Heap(Carve(h.mem, s, size), h.base, h.live[s + 7 := size])
  }

  ghost function Malloc(h: Heap, size: nat): Heap
    requires Framed(h) && Fits(h, size)
  {
    Place(h, FirstFit(h.mem, h.base, size + 10), size)
  }

  function Free(h: Heap, p: nat): Heap
    requires p in h.live && 4 <= p && p + h.live[p] <= |h.mem|
  {
    Heap(Splice(h.mem, p - 4, Repeat(SENTINEL, h.live[p] + 4)), h.base, h.live - {p})
  }

  /** The owner of block `p` overwrites some of its data. */
  function Store(h: Heap, p: nat, off: nat, data: seq<byte>): Heap
    requires p in h.live && off + |data| <= h.live[p] && p + h.live[p] <= |h.mem|
  {
    h.(mem := Splice(h.mem, p + off, data))
  }

  datatype Event = DoMalloc(size: nat) | DoFree(p: nat) | DoStore(p: nat, off: nat, data: seq<byte>)

  ghost predicate Enabled(h: Heap, e: Event)
    requires Valid(h)
  {
    match e
    case DoMalloc(size) => Fits(h, size)
    case DoFree(p) => p in h.live
    case DoStore(p, off, data) =>
      p in h.live && off + |data| <= h.live[p] && Quiet(Store(h, p, off, data).mem, p, h.live[p])
  }

  ghost function Step(h: Heap, e: Event): (r: Heap)
    requires Valid(h) && Enabled(h, e)
    ensures Valid(r)
  {
    match e
    case DoMalloc(size) => MallocFresh(h, size); Malloc(h, size)
    case DoFree(p) => FreeValid(h, p); Free(h, p)
    case DoStore(p, off, data) => StoreValid(h, p, off, data); Store(h, p, off, data)
  }

  // ----- what the three guard bytes buy -----

  /** Bytes 2 and 3 of every header are zero, because the heap is smaller than 64 KiB. */
  lemma HeaderTail(h: Heap, p: nat)
    requires Sound(h) && p in h.live
    ensures p >= 7 && p <= |h.mem| && h.mem[p - 2] == 0 && h.mem[p - 1] == 0
  {
    var size := h.live[p];
    assert BlockOk(h, p, size);
    var t := h.mem[p - 4..p];
    assert t[2] == h.mem[p - 2] && t[3] == h.mem[p - 1];
    assert size / 256 < 256;
  }

  /** A block carved out of a free run meets a live block exactly when the run's fourth byte is
      one of that block's data bytes: three '$' at the end of a block's data are harmless, a fourth
      is not. */
  lemma GuardsExact(h: Heap, s: nat, size: nat, p: nat)
    requires Sound(h) && p in h.live && Run(h.mem, s, size + 10)
    ensures !Apart(s + 7, size, p, h.live[p]) <==> p <= s + 3 < p + h.live[p]
  {
    HeaderTail(h, p);
  }

  lemma CarveApart(h: Heap, s: nat, size: nat)
    requires Valid(h) && Run(h.mem, s, size + 10)
    ensures forall p :: p in h.live ==> Apart(s + 7, size, p, h.live[p])
  {
    forall p | p in h.live ensures Apart(s + 7, size, p, h.live[p]) {
      GuardsExact(h, s, size, p);
      HeaderTail(h, p);
      assert Quiet(h.mem, p, h.live[p]);
      assert Run(h.mem, s, 4);
    }
  }

  /** With a fourth trailing '$' the next block's header lands on live data. */
  lemma FourSentinelsBreak(h: Heap, p: nat, size: nat)
    requires Sound(h) && p in h.live && 4 <= h.live[p]
    requires NoRun(h.mem, h.base, p + h.live[p] - 4, size + 10)
    requires RunInside(h, p + h.live[p] - 4, size + 10)
    ensures Fits(h, size) && !Sound(Malloc(h, size))
  {
    var s := p + h.live[p] - 4;
    FirstFitIs(h, s, size);
    GuardsExact(h, s, size, p);
    OverlapUnsound(Place(h, s, size), p, s + 7);
  }

  /** The leftmost fitting run is the one `malloc` uses. */
  lemma FirstFitIs(h: Heap, s: nat, size: nat)
    requires Framed(h) && RunInside(h, s, size + 10) && NoRun(h.mem, h.base, s, size + 10)
    ensures Fits(h, size) && Malloc(h, size) == Place(h, s, size)
  {
    var f := FitBounds(h, size);
  }

  lemma OverlapUnsound(h: Heap, p: nat, q: nat)
    requires p in h.live && q in h.live && p != q && !Apart(q, h.live[q], p, h.live[p])
    ensures !Sound(h)
  {
  }

  // ----- every step keeps the heap valid -----

  lemma InitValid(mem: seq<byte>, base: nat)
    requires 13 <= base && base + HEAP_SIZE + 11 <= |mem| <= TWO32
    ensures Valid(Init(mem, base))
  {
    var h := Init(mem, base);
    assert h.mem[base - 13..base] == StartMark();
    assert h.mem[base + HEAP_SIZE..base + HEAP_SIZE + 11] == EndMark();
  }

  /** The initial heap byte by byte: START_OF_HEAP, 25600 times '$', END_OF_HEAP, and the rest as it was. */
  lemma InitBytes(mem: seq<byte>, base: nat)
    requires 13 <= base && base + HEAP_SIZE + 11 <= |mem| <= TWO32
    ensures Init(mem, base).base == base && Init(mem, base).live == map[]
    ensures var m := Init(mem, base).mem;
      && |m| == |mem| && (forall i :: 0 <= i < |m| && !(base - 13 <= i < base + 25611) ==> m[i] == mem[i])
      && m[base - 13..base] == [83, 84, 65, 82, 84, 95, 79, 70, 95, 72, 69, 65, 80]
      && m[base + 25600..base + 25611] == [69, 78, 68, 95, 79, 70, 95, 72, 69, 65, 80]
      && forall i :: base <= i < base + 25600 ==> m[i] == 36
  {
    var h := Init(mem, base);
    assert h.mem[base - 13..base] == StartMark();
    assert h.mem[base + HEAP_SIZE..base + HEAP_SIZE + 11] == EndMark();
    MarkTexts();
  }

  lemma MarkTexts()
    ensures StartMark() == [83, 84, 65, 82, 84, 95, 79, 70, 95, 72, 69, 65, 80]
    ensures EndMark() == [69, 78, 68, 95, 79, 70, 95, 72, 69, 65, 80]
  {
  }

  lemma FitBounds(h: Heap, size: nat) returns (s: nat)
    requires Framed(h) && Fits(h, size)
    ensures HasRun(h.mem, h.base, size + 10) && s == FirstFit(h.mem, h.base, size + 10)
    ensures h.base <= s && s + size + 10 <= h.base + HEAP_SIZE
  {
    var w: nat :| RunInside(h, w, size + 10);
    s := FirstFit(h.mem, h.base, size + 10);
  }

  /** Memory outside the heap proper is the same. */
  ghost predicate SameOutside(h: Heap, h': Heap) {
    && h'.base == h.base && |h'.mem| == |h.mem|
    && forall i :: 0 <= i < |h.mem| && !(h.base <= i < h.base + HEAP_SIZE) ==> h'.mem[i] == h.mem[i]
  }

  lemma FramedKept(h: Heap, h': Heap)
    requires Framed(h) && SameOutside(h, h')
    ensures Framed(h')
  {
    assert h'.mem[h.base - 13..h.base] == h.mem[h.base - 13..h.base];
    assert h'.mem[h.base + HEAP_SIZE..h.base + HEAP_SIZE + 11] == h.mem[h.base + HEAP_SIZE..h.base + HEAP_SIZE + 11];
  }

  /** Header and data of block `p` are the same bytes in both memories. */
  ghost predicate BlockSame(mem: seq<byte>, mem': seq<byte>, p: nat, size: nat) {
    && 4 <= p && p + size <= |mem| == |mem'|
    && mem'[p - 4..p + size] == mem[p - 4..p + size]
  }

  lemma BlockKept(h: Heap, h': Heap, p: nat, size: nat)
    requires h.base == h'.base && BlockOk(h, p, size) && BlockSame(h.mem, h'.mem, p, size)
    ensures BlockOk(h', p, size)
    ensures Quiet(h.mem, p, size) ==> Quiet(h'.mem, p, size)
  {
    var t, t' := h.mem[p - 4..p + size], h'.mem[p - 4..p + size];
    assert h.mem[p - 4..p] == t[..4] && h'.mem[p - 4..p] == t'[..4];
    forall i: nat | p <= i && i + 4 <= p + size ensures Run(h'.mem, i, 4) ==> Run(h.mem, i, 4) {
      assert forall j :: i <= j < i + 4 ==> h.mem[j] == t[j - (p - 4)] && h'.mem[j] == t'[j - (p - 4)];
    }
  }

  lemma PlaceFresh(h: Heap, s: nat, size: nat)
    requires Valid(h) && RunInside(h, s, size + 10)
    ensures SameOutside(h, Place(h, s, size))
    ensures s + 7 !in h.live && BlockOk(Place(h, s, size), s + 7, size) && Quiet(Carve(h.mem, s, size), s + 7, size)
    ensures forall q :: q in h.live ==> BlockSame(h.mem, Carve(h.mem, s, size), q, h.live[q])
  {
    CarveApart(h, s, size);
    var mem' := Carve(h.mem, s, size);
    assert mem'[s + 3..s + 7] == LE32(size);
    forall i: nat | s + 7 <= i && i + 4 <= s + 7 + size ensures !Run(mem', i, 4) {
      assert mem'[i] == 0;
    }
    forall q | q in h.live ensures BlockSame(h.mem, mem', q, h.live[q]) {
      assert BlockOk(h, q, h.live[q]) && Apart(s + 7, size, q, h.live[q]);
    }
  }

  lemma PlacedBlocks(h: Heap, s: nat, size: nat)
    requires Valid(h) && RunInside(h, s, size + 10)
    ensures var h' := Place(h, s, size);
      forall p :: p in h'.live ==> BlockOk(h', p, h'.live[p]) && Quiet(h'.mem, p, h'.live[p])
  {
    var h' := Place(h, s, size);
    PlaceFresh(h, s, size);
    forall p | p in h'.live ensures BlockOk(h', p, h'.live[p]) && Quiet(h'.mem, p, h'.live[p]) {
      if p != s + 7 {
        BlockKept(h, h', p, h.live[p]);
      }
    }
  }

  lemma PlaceValid(h: Heap, s: nat, size: nat)
    requires Valid(h) && RunInside(h, s, size + 10)
    ensures Valid(Place(h, s, size)) && s + 7 !in h.live
  {
    var h' := Place(h, s, size);
    PlaceFresh(h, s, size);
    FramedKept(h, h');
    CarveApart(h, s, size);
    PlacedBlocks(h, s, size);
    forall i: nat | h.base <= i < h.base + HEAP_SIZE && !Covered(h'.live, i) ensures h'.mem[i] == SENTINEL {
      CarveFreeBytes(h, s, size, i);
      CarveElsewhere(h.mem, s, size);
    }
  }

  /** `malloc` hands out a fresh block inside the heap and changes no byte of another live block. */
  lemma MallocFresh(h: Heap, size: nat)
    requires Valid(h) && Fits(h, size)
    ensures Valid(Malloc(h, size)) && SameOutside(h, Malloc(h, size))
    ensures HasRun(h.mem, h.base, size + 10)
    ensures var p := FirstFit(h.mem, h.base, size + 10) + 7;
      && p !in h.live && Malloc(h, size).live == h.live[p := size] && p + size <= |h.mem|
      && forall k :: p <= k < p + size ==> Malloc(h, size).mem[k] == 0
    ensures forall q :: q in h.live ==> BlockSame(h.mem, Malloc(h, size).mem, q, h.live[q])
  {
    var s := FitBounds(h, size);
    PlaceFresh(h, s, size);
    PlaceValid(h, s, size);
  }

  lemma CarveFreeBytes(h: Heap, s: nat, size: nat, i: nat)
    requires Valid(h) && Run(h.mem, s, size + 10)
    requires h.base <= i < h.base + HEAP_SIZE && !Covered(h.live[s + 7 := size], i)
    ensures h.mem[i] == SENTINEL && !(s + 3 <= i < s + 7 + size)
  {
    CarveApart(h, s, size);
    var live' := h.live[s + 7 := size];
    assert s + 7 in live' && !InBlock(s + 7, size, i);
    Uncovered(h.live, live', s + 7, i);
  }

  lemma CarveElsewhere(mem: seq<byte>, s: nat, size: nat)
    requires s + size + 10 <= |mem| && size < TWO32
    ensures forall i :: 0 <= i < |mem| && !(s + 3 <= i < s + 7 + size) ==> Carve(mem, s, size)[i] == mem[i]
  {
  }

  /** A byte outside every block but `x` before is outside every block but `x` after. */
  lemma Uncovered(live: map<nat, nat>, live': map<nat, nat>, x: nat, i: nat)
    requires forall p :: p in live && p != x ==> p in live' && live'[p] == live[p]
    requires !Covered(live', i)
    ensures !Covered(live, i) || (x in live && InBlock(x, live[x], i))
  {
    if Covered(live, i) {
      var p :| p in live && InBlock(p, live[p], i);
    }
  }

  /** `free` refills exactly header and data of its block. */
  lemma FreeSame(h: Heap, p: nat)
    requires Valid(h) && p in h.live
    ensures 4 <= p && p + h.live[p] <= |h.mem| && SameOutside(h, Free(h, p))
    ensures forall q :: q in h.live && q != p ==> BlockSame(h.mem, Free(h, p).mem, q, h.live[q])
  {
    assert BlockOk(h, p, h.live[p]);
    forall q | q in h.live && q != p ensures BlockSame(h.mem, Free(h, p).mem, q, h.live[q]) {
      assert BlockOk(h, q, h.live[q]) && Apart(p, h.live[p], q, h.live[q]);
    }
  }

  lemma FreeValid(h: Heap, p: nat)
    requires Valid(h) && p in h.live
    ensures 4 <= p && p + h.live[p] <= |h.mem| && Valid(Free(h, p))
  {
    FreeSame(h, p);
    var h' := Free(h, p);
    FramedKept(h, h');
    forall q | q in h'.live ensures BlockOk(h', q, h'.live[q]) && Quiet(h'.mem, q, h'.live[q]) {
      BlockKept(h, h', q, h.live[q]);
    }
    forall i: nat | h.base <= i < h.base + HEAP_SIZE && !Covered(h'.live, i) ensures h'.mem[i] == SENTINEL {
      Uncovered(h.live, h'.live, p, i);
    }
  }

  lemma StoreSame(h: Heap, p: nat, off: nat, data: seq<byte>)
    requires Valid(h) && p in h.live && off + |data| <= h.live[p]
    ensures 4 <= p && p + h.live[p] <= |h.mem| && SameOutside(h, Store(h, p, off, data))
    ensures forall q :: q in h.live && q != p ==> BlockSame(h.mem, Store(h, p, off, data).mem, q, h.live[q])
    ensures Store(h, p, off, data).mem[p - 4..p] == h.mem[p - 4..p]
  {
    assert BlockOk(h, p, h.live[p]);
    forall q | q in h.live && q != p ensures BlockSame(h.mem, Store(h, p, off, data).mem, q, h.live[q]) {
      assert BlockOk(h, q, h.live[q]) && Apart(p, h.live[p], q, h.live[q]);
    }
  }

  /** Whatever is stored inside a block, headers, markers and the free bytes stay as they are. */
  lemma StoreSound(h: Heap, p: nat, off: nat, data: seq<byte>)
    requires Valid(h) && p in h.live && off + |data| <= h.live[p]
    ensures p + h.live[p] <= |h.mem| && Sound(Store(h, p, off, data))
    ensures forall q :: q in h.live && q != p ==> Quiet(Store(h, p, off, data).mem, q, h.live[q])
  {
    StoreSame(h, p, off, data);
    var h' := Store(h, p, off, data);
    FramedKept(h, h');
    assert BlockOk(h, p, h.live[p]);
    forall q | q in h'.live && q != p ensures BlockOk(h', q, h'.live[q]) && Quiet(h'.mem, q, h'.live[q]) {
      BlockKept(h, h', q, h.live[q]);
    }
    forall i: nat | h.base <= i < h.base + HEAP_SIZE && !Covered(h'.live, i) ensures h'.mem[i] == SENTINEL {
      assert !InBlock(p, h.live[p], i);
    }
  }

  lemma StoreValid(h: Heap, p: nat, off: nat, data: seq<byte>)
    requires Valid(h) && p in h.live && off + |data| <= h.live[p]
    ensures p + h.live[p] <= |h.mem|
    ensures Quiet(Store(h, p, off, data).mem, p, h.live[p]) ==> Valid(Store(h, p, off, data))
  {
    StoreSound(h, p, off, data);
  }

  // ----- four sentinels, concretely -----

  /** The first block of an empty heap starts seven bytes in. */
  lemma FirstBlock(h: Heap, size: nat)
    requires Valid(h) && h.live == map[] && size + 10 <= HEAP_SIZE
    ensures Fits(h, size) && Malloc(h, size) == Place(h, h.base, size)
    ensures Valid(Malloc(h, size)) && Malloc(h, size).live == map[h.base + 7 := size]
  {
    forall i: nat | h.base <= i < h.base + HEAP_SIZE ensures h.mem[i] == SENTINEL {
      assert !Covered(h.live, i);
    }
    assert RunInside(h, h.base, size + 10);
    FirstFitIs(h, h.base, size);
    PlaceValid(h, h.base, size);
  }

  /** The heap of one four-byte block that holds "$$$$". */
  function Dollars(h: Heap): Heap
    requires h.base + 14 <= |h.mem|
  {
    Store(Place(h, h.base, 4), h.base + 7, 0, Repeat(SENTINEL, 4))
  }

  lemma DollarBytes(h: Heap)
    requires Valid(h) && h.live == map[]
    ensures h.base + 14 <= |h.mem| && Dollars(h).mem[h.base + 3] == 4
    ensures Dollars(h).mem[h.base + 4] == Dollars(h).mem[h.base + 5] == Dollars(h).mem[h.base + 6] == 0
    ensures RunInside(Dollars(h), h.base + 7, 11)
  {
    var mem := Place(h, h.base, 4).mem;
    forall i: nat | h.base <= i < h.base + HEAP_SIZE ensures h.mem[i] == SENTINEL {
      assert !Covered(h.live, i);
    }
    assert LE32(4) == [4, 0, 0, 0];
  }

  lemma DollarsNoRun(h: Heap)
    requires Valid(h) && h.live == map[]
    ensures h.base + 14 <= |h.mem| && NoRun(Dollars(h).mem, h.base, h.base + 7, 11)
  {
    DollarBytes(h);
    var mem := Dollars(h).mem;
    forall t: nat | h.base <= t < h.base + 7 ensures !Run(mem, t, 11) {
      assert t <= h.base + 3 ==> mem[h.base + 3] != SENTINEL;
      assert t > h.base + 3 ==> mem[t] != SENTINEL;
    }
  }

  /** From the initial heap: a four-byte block is allocated and filled with "$$$$"; the one-byte block
      allocated next has its header on the first block's last data byte. */
  lemma FourSentinelsExample(mem: seq<byte>, base: nat)
    requires 13 <= base && base + HEAP_SIZE + 11 <= |mem| <= TWO32
    ensures var h := Init(mem, base);
      && Valid(h) && Fits(h, 4) && Malloc(h, 4).live == map[base + 7 := 4]
      && Dollars(h) == Store(Malloc(h, 4), base + 7, 0, Repeat(SENTINEL, 4))
      && Framed(Dollars(h)) && Fits(Dollars(h), 1)
      && Malloc(Dollars(h), 1).live == map[base + 7 := 4, base + 14 := 1]
      && Malloc(Dollars(h), 1).mem[base + 10] == 1 && !Sound(Malloc(Dollars(h), 1))
  {
    var h := Init(mem, base);
    InitValid(mem, base);
    FirstBlock(h, 4);
    StoreSound(Malloc(h, 4), base + 7, 0, Repeat(SENTINEL, 4));
    DollarBytes(h);
    DollarsNoRun(h);
    FourSentinelsBreak(Dollars(h), base + 7, 1);
    FirstFitIs(Dollars(h), base + 7, 1);
    assert LE32(1) == [1, 0, 0, 0];
  }

  // ----- sizes that wrap -----

  /** The scan looks for the block and its guards exactly when the size is below 2^32 - 10; for the ten sizes
      from there on it is content with fewer than ten bytes, and the block's data would run past the end of the
      address space wherever it starts. */
  lemma ScanLengthExactly(size: u32, block: nat)
    requires block >= 20
    ensures ScanLength(size) == size + 10 <==> size < TWO32 - 10
    ensures size >= TWO32 - 10 ==> ScanLength(size) == size as int - (TWO32 - 10) && block + size > TWO32
  {
  }

  /** A scan for no bytes at all stops where it starts. */
  lemma EmptyScan(mem: seq<byte>, from: nat)
    requires from <= |mem|
    ensures HasRun(mem, from, 0) && FirstFit(mem, from, 0) == from
  {
    assert Run(mem, from, 0);
  }

  /** With one four-byte block live, a request for 4294967286 bytes is given that very block. */
  lemma HugeSizeExample(mem: seq<byte>, base: nat)
    requires 13 <= base && base + HEAP_SIZE + 11 <= |mem| <= TWO32
    ensures var h := Init(mem, base);
      && Valid(h) && Fits(h, 4) && Malloc(h, 4).live == map[base + 7 := 4]
      && HasRun(Malloc(h, 4).mem, base, ScanLength(4294967286))
      && FirstFit(Malloc(h, 4).mem, base, ScanLength(4294967286)) + 7 == base + 7
  {
    InitValid(mem, base);
    FirstBlock(Init(mem, base), 4);
    EmptyScan(Malloc(Init(mem, base), 4).mem, base);
  }
}
