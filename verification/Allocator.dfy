/** kernel/arch/i386/malloc.c over a real memory array: each routine is tied to the heap model. */
module Allocator {
  import opened Bytes
  import opened CString
  import opened HeapModel
  import HeapRuns

  class Mm {
    const memory: array<byte>
    var lastAlloc: u32
    var heapBegin: u32
    var heapEnd: int
    ghost var state: Heap // the abstract heap this memory holds

    constructor (memory: array<byte>)
      ensures this.memory == memory
    {
      this.memory := memory;
      lastAlloc, heapBegin, heapEnd := 0, 0, 0;
      state := Heap([], 0, map[]);
    }

    /** The fields and the memory array are those of the abstract heap. */
    ghost predicate Holds()
      reads this, memory
    {
      && lastAlloc == heapBegin == state.base && heapEnd == heapBegin + HEAP_SIZE
      && memory[..] == state.mem
    }

    /** mm_init: fill the heap with '$' and write the two markers around it. */
    method MmInit(kernelEnd: u32)
      requires kernelEnd + 0x1_0000 + HEAP_SIZE + 11 <= memory.Length <= TWO32
      modifies this, memory
      ensures Holds() && state == Init(old(memory[..]), kernelEnd + 0x1_0000)
      ensures Valid(state)
    {
      state := Init(memory[..], kernelEnd + 0x1_0000);
      InitValid(memory[..], kernelEnd + 0x1_0000);
      lastAlloc := kernelEnd + 0x1_0000;
      heapBegin := lastAlloc;
      heapEnd := heapBegin + HEAP_SIZE;
      Memset(memory, lastAlloc, SENTINEL, HEAP_SIZE);
      var mark := Literal(EndMark());
      Memcpy(memory, lastAlloc + HEAP_SIZE, mark, 0, 11);
      mark := Literal(StartMark());
      Memcpy(memory, lastAlloc - 13, mark, 0, 13);
    }

    /** The scan of find_block: the least run of `size + 10` free bytes, computed in 32 bits; nothing past it
        is read. */
    method Scan(size: u32) returns (ptr: nat, ghost lastRead: int)
      requires 13 <= lastAlloc == heapBegin && memory.Length <= TWO32
      requires HasRun(memory[..], heapBegin, ScanLength(size))
      ensures ptr == FirstFit(memory[..], heapBegin, ScanLength(size))
      ensures lastRead == ptr + ScanLength(size) - 1
    {
      ghost var mem := memory[..];
      ghost var first := FirstFit(mem, heapBegin, ScanLength(size));
      var total := Wrap(size + 10);
      ptr := lastAlloc;
      lastRead := ptr - 1;
      var i: u32 := 0;
      while i < total
        invariant heapBegin <= ptr <= first && NoRun(mem, heapBegin, ptr, total)
        invariant 0 <= i <= total && forall k :: ptr <= k < ptr + i ==> mem[k] == SENTINEL
        invariant ptr + i - 1 <= lastRead <= ptr + total - 1
        decreases first - ptr, total - i
      {
        if lastRead < ptr + i {
          lastRead := ptr + i;
        }
        if memory[ptr + i] == SENTINEL {
          i := Wrap(i + 1);
          continue;
        }
        assert mem[ptr + i] != SENTINEL;
        i := Wrap(-1);
        ptr := ptr + 1;
        i := Wrap(i as int + 1);
      }
      assert Run(mem, ptr, total);
    }

    /** find_block: skip three bytes of the run, write the length, zero the data. */
    method FindBlock(size: u32) returns (block: nat, ghost lastRead: int)
      requires 13 <= lastAlloc == heapBegin && memory.Length <= TWO32 && HasRun(memory[..], heapBegin, size + 10)
      modifies memory
      ensures block == FirstFit(old(memory[..]), heapBegin, size + 10) + 7
      ensures memory[..] == Carve(old(memory[..]), block - 7, size)
      ensures U32(memory[..], block - 4) == size && forall k :: block <= k < block + size ==> memory[k] == 0
      ensures forall k :: 0 <= k < memory.Length && !(block - 4 <= k < block + size) ==> memory[k] == old(memory[k])
      ensures lastRead == block + size + 2
    {
      var ptr;
      ptr, lastRead := Scan(size);
      FillBlock(ptr, size);
      block := ptr + 7;
      CarvedBytes(old(memory[..]), memory[..], ptr, size);
      var k := 0;
      while k < size
        invariant 0 <= k <= size
      {
        // the diagnostic for a byte that memset did not clear is never printed
        assert memory[block + k] == 0;
        k := k + 1;
      }
    }

    /** The header, three bytes into the run, and the zeroed data. */
    method FillBlock(run: nat, size: u32)
      requires run + size + 10 <= memory.Length
      modifies memory
      ensures memory[..] == Carve(old(memory[..]), run, size)
    {
      var ptr := run + 3;
      var header := Literal(LE32(size));
      Memcpy(memory, ptr, header, 0, 4);
      assert header[0..0 + 4] == LE32(size);
      ptr := ptr + 4;
      Memset(memory, ptr, 0, size);
    }

    /** malloc: one placement step of the model, at the first stretch that fits anywhere in memory.  When one
        fits inside the heap that is the model's `Malloc`, whose lemmas say what it keeps; otherwise the block
        lies past the end marker. */
    method Malloc(size: u32) returns (block: nat)
      requires Holds() && Framed(state) && HasRun(state.mem, state.base, size + 10)
      modifies this`state, memory
      ensures Holds() && block == FirstFit(old(state).mem, old(state).base, size + 10) + 7
      ensures state == Place(old(state), block - 7, size)
      ensures block + size <= memory.Length && forall k :: block <= k < block + size ==> memory[k] == 0
      ensures forall k :: 0 <= k < memory.Length && !(block - 4 <= k < block + size) ==> memory[k] == old(memory[k])
      ensures if Fits(old(state), size) then state == HeapModel.Malloc(old(state), size) && block + size + 3 <= heapEnd
        else heapEnd + 11 <= block - 7
    {
      ghost var h := state;
      HeapRuns.InsideExactlyWhenFits(h, size);
      assert memory[..] == h.mem;
      ghost var lastRead;
      block, lastRead := FindBlock(size);
      state := Place(h, block - 7, size);
    }

    /** The length a block's header gives. */
    method HeaderLength(p: nat) returns (len: u32)
      requires 4 <= p <= memory.Length
      ensures len == U32(memory[..], p - 4)
    {
      var cell := Literal(LE32(0));
      Memcpy(cell, 0, memory, p - 4, 4);
      assert cell[0..0 + 4] == memory[..][p - 4..p - 4 + 4];
      U32Local(cell[..], 0, memory[..], p - 4);
      len := U32(cell[..], 0);
    }

    /** free: the length comes from the header in memory; one `Free` step of the model. */
    method Free(p: nat)
      requires Holds() && p in state.live && BlockOk(state, p, state.live[p]) && memory.Length <= TWO32
      modifies this`state, memory
      ensures Holds() && state == HeapModel.Free(old(state), p)
      ensures forall k :: 0 <= k < memory.Length ==>
        memory[k] == if p - 4 <= k < p + old(state).live[p] then 36 else old(memory[k])
    {
      ghost var h, size := state, state.live[p];
      HeapRuns.HeaderReads(h, p, size);
      assert memory[..] == h.mem;
      var len := HeaderLength(p);
      assert len == size && size + 4 < TWO32;
      len := Wrap(len + 4);
      assert len == size + 4;
      Memset(memory, p - 4, SENTINEL, len);
      assert memory[..] == HeapModel.Free(h, p).mem;
      assert forall k :: 0 <= k < memory.Length ==> memory[k] == memory[..][k];
      state := HeapModel.Free(h, p);
    }

    /** heap_used: the count it prints, and the whole percentage of the heap that it is. */
    method HeapUsed() returns (used: nat, percent: byte)
      requires Holds() && Sound(state)
      ensures used == |HeapRuns.UsedAddresses(state)|
      ensures percent <= 100 && percent * HEAP_SIZE <= 100 * used < (percent + 1) * HEAP_SIZE
    {
      used := CountNonFree();
      HeapRuns.CountIsLiveBytes(state);
      HeapRuns.CountAtMost(memory[..], heapBegin, HEAP_SIZE);
      percent := Percent(used);
    }

    /** (used / HEAP_SIZE) * 100.0, truncated, over the real numbers. */
    method Percent(used: nat) returns (percent: byte)
      requires used <= HEAP_SIZE
      ensures percent <= 100 && percent * HEAP_SIZE <= 100 * used < (percent + 1) * HEAP_SIZE
    {
      var share := used as real / 25600.0 * 100.0;
      assert share == used as real / 256.0;
      assert share.Floor == used / 256;
      percent := share.Floor;
    }

    method CountNonFree() returns (used: nat)
      requires heapBegin + HEAP_SIZE <= memory.Length
      ensures used == HeapRuns.CountUsed(memory[..], heapBegin, HEAP_SIZE)
    {
      used := 0;
      for i := 0 to HEAP_SIZE
        invariant used == HeapRuns.CountUsed(memory[..], heapBegin, i)
      {
        if memory[heapBegin + i] != SENTINEL {
          used := used + 1;
        }
      }
    }
  }

  lemma CarvedBytes(mem: seq<byte>, mem': seq<byte>, s: nat, size: u32)
    requires s + size + 10 <= |mem| && mem' == Carve(mem, s, size)
    ensures U32(mem', s + 3) == size && forall k :: s + 7 <= k < s + 7 + size ==> mem'[k] == 0
    ensures forall k :: 0 <= k < |mem| && !(s + 3 <= k < s + 7 + size) ==> mem'[k] == mem[k]
  {
    assert mem'[s + 3..s + 3 + 4] == LE32(size);
    U32Stored(mem', s + 3, size);
  }

  /** Bytes of a constant or a local, in memory of their own. */
  method Literal(s: seq<byte>) returns (a: array<byte>)
    ensures fresh(a) && a[..] == s
  {
    a := new byte[|s|](i requires 0 <= i < |s| => s[i]);
  }
}
