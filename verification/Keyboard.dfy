/** The held-key table of kernel/arch/i386/ps2.c refines a set of keys.  The controller is a stream of
    non-zero scancodes; `ps2_key_in` consumes it until a key is newly pressed. */
module Keyboard {
  import opened Bytes

  const SLOTS: nat := 128

  /** Keys pressed and not yet released, and the state of the shift flag. */
  datatype Kb = Kb(held: set<byte>, shift: bool)

  function Init(): Kb {
    Kb({}, false)
  }

  predicate IsPressed(c: byte) {
    c < 128
  }

  function ShiftAfter(shift: bool, c: byte): bool {
    if c == 0x36 || c == 0x2A then true else if c == 0xB6 || c == 0xAA then false else shift
  }

  function Scan(kb: Kb, c: byte): Kb {
    Kb(if IsPressed(c) then kb.held + {c} else kb.held - {c - 128}, ShiftAfter(kb.shift, c))
  }

  /** A press of a key that is not already held. */
  predicate Rising(kb: Kb, c: byte) {
    IsPressed(c) && c !in kb.held
  }

  datatype Next = Key(code: byte, kb: Kb, rest: seq<byte>) | Waiting(kb: Kb)

  /** The next reported key, if the stream holds one. */
  function NextKey(kb: Kb, stream: seq<byte>): (r: Next)
    ensures r.Key? ==> |r.rest| < |stream|
    decreases |stream|
  {
    if stream == [] then Waiting(kb)
    else if Rising(kb, stream[0]) then Key(stream[0], Scan(kb, stream[0]), stream[1..])
    else NextKey(Scan(kb, stream[0]), stream[1..])
  }

  function RunKb(kb: Kb, stream: seq<byte>): Kb
    decreases |stream|
  {
    if stream == [] then kb else RunKb(Scan(kb, stream[0]), stream[1..])
  }

  /** The keys reported by calling `ps2_key_in` until the stream runs out. */
  function Reports(kb: Kb, stream: seq<byte>): seq<byte>
    decreases |stream|
  {
    match NextKey(kb, stream)
    case Key(code, kb', rest) => [code] + Reports(kb', rest)
    case Waiting(_) => []
  }

  // ----- what the stream itself says -----

  /** The latest event of key `k` in the stream is a press. */
  ghost predicate PressedNotReleased(stream: seq<byte>, k: byte) {
    k < 128 && exists i :: 0 <= i < |stream| && stream[i] == k && k + 128 !in stream[i + 1..]
  }

  ghost predicate ShiftPressedLast(stream: seq<byte>) {
    exists i :: 0 <= i < |stream| && ShiftHoldsFrom(stream, i)
  }

  ghost predicate ShiftHoldsFrom(stream: seq<byte>, i: nat)
    requires i < |stream|
  {
    (stream[i] == 0x36 || stream[i] == 0x2A) && 0xB6 !in stream[i + 1..] && 0xAA !in stream[i + 1..]
  }

  lemma {:induction false} RunKbAppend(kb: Kb, a: seq<byte>, c: byte)
    ensures RunKb(kb, a + [c]) == Scan(RunKb(kb, a), c)
    decreases |a|
  {
    if a == [] {
      assert a + [c] == [c];
      assert RunKb(Scan(kb, c), []) == Scan(kb, c);
    } else {
      assert (a + [c])[0] == a[0] && (a + [c])[1..] == a[1..] + [c];
      RunKbAppend(Scan(kb, a[0]), a[1..], c);
    }
  }

  lemma PressedAppend(a: seq<byte>, c: byte, k: byte)
    requires IsPressed(k)
    ensures PressedNotReleased(a + [c], k) <==> c == k || (c as int != k as int + 128 && PressedNotReleased(a, k))
  {
    var s := a + [c];
    if PressedNotReleased(s, k) && c != k {
      var i :| 0 <= i < |s| && s[i] == k && k + 128 !in s[i + 1..];
      assert s[i + 1..] == a[i + 1..] + [c];
      assert a[i] == k && c in s[i + 1..];
    }
    if c == k {
      assert s[|a|] == k && s[|a| + 1..] == [];
    } else if c as int != k as int + 128 && PressedNotReleased(a, k) {
      var i :| 0 <= i < |a| && a[i] == k && k + 128 !in a[i + 1..];
      assert s[i + 1..] == a[i + 1..] + [c] && s[i] == k;
    }
  }

  lemma ShiftHoldsAppend(a: seq<byte>, c: byte, i: nat)
    requires i < |a|
    ensures ShiftHoldsFrom(a + [c], i) <==> ShiftHoldsFrom(a, i) && c != 0xB6 && c != 0xAA
  {
    assert (a + [c])[i + 1..] == a[i + 1..] + [c];
  }

  lemma ShiftAppend(a: seq<byte>, c: byte)
    ensures ShiftPressedLast(a + [c]) == ShiftAfter(ShiftPressedLast(a), c)
  {
    var s := a + [c];
    forall i | 0 <= i < |a|
      ensures ShiftHoldsFrom(s, i) <==> ShiftHoldsFrom(a, i) && c != 0xB6 && c != 0xAA
    {
      ShiftHoldsAppend(a, c, i);
    }
    assert s[|a|] == c && s[|a| + 1..] == [];
    assert ShiftHoldsFrom(s, |a|) <==> c == 0x36 || c == 0x2A;
    if ShiftPressedLast(a) && c != 0xB6 && c != 0xAA {
      var i :| 0 <= i < |a| && ShiftHoldsFrom(a, i);
      assert ShiftHoldsFrom(s, i);
    }
  }

  /** After any stream the held set is exactly the keys pressed and not yet released, and the shift
      flag is the latest shift event. */
  lemma {:induction false} HeldExactly(stream: seq<byte>)
    ensures forall k: byte :: k in RunKb(Init(), stream).held <==> PressedNotReleased(stream, k)
    ensures RunKb(Init(), stream).shift == ShiftPressedLast(stream)
    decreases |stream|
  {
    if stream != [] {
      var n := |stream| - 1;
      var a, c := stream[..n], stream[n];
      assert stream == a + [c];
      HeldExactly(a);
      RunKbAppend(Init(), a, c);
      ShiftAppend(a, c);
      forall k: byte ensures k in RunKb(Init(), stream).held <==> PressedNotReleased(stream, k) {
        if IsPressed(k) {
          PressedAppend(a, c, k);
        }
      }
    }
  }

  /** The presses of `stream` at which the key was not held before. */
  ghost function RisingEdges(before: seq<byte>, stream: seq<byte>): seq<byte>
    decreases |stream|
  {
    if stream == [] then [] else
      (if stream[0] < 128 && !PressedNotReleased(before, stream[0]) then [stream[0]] else [])
        + RisingEdges(before + [stream[0]], stream[1..])
  }

  lemma ReportsStep(kb: Kb, stream: seq<byte>)
    requires stream != []
    ensures Reports(kb, stream) ==
      (if Rising(kb, stream[0]) then [stream[0]] else []) + Reports(Scan(kb, stream[0]), stream[1..])
  {
    if !Rising(kb, stream[0]) {
      assert NextKey(kb, stream) == NextKey(Scan(kb, stream[0]), stream[1..]);
    }
  }

  lemma HeldIs(stream: seq<byte>, k: byte)
    ensures k in RunKb(Init(), stream).held <==> PressedNotReleased(stream, k)
  {
    HeldExactly(stream);
  }

  lemma {:induction false} ReportsFrom(before: seq<byte>, stream: seq<byte>)
    ensures Reports(RunKb(Init(), before), stream) == RisingEdges(before, stream)
    decreases |stream|
  {
    if stream != [] {
      RunKbAppend(Init(), before, stream[0]);
      HeldIs(before, stream[0]);
      ReportsStep(RunKb(Init(), before), stream);
      ReportsFrom(before + [stream[0]], stream[1..]);
    }
  }

  /** The keys reported are exactly the rising edges of the stream, in order. */
  lemma ReportsAreRisingEdges(stream: seq<byte>)
    ensures Reports(Init(), stream) == RisingEdges([], stream)
  {
    ReportsFrom([], stream);
  }

  /** Finding the next key takes a first part of the stream: the code is its last byte, and the keyboard is as all of it
      leaves it. */
  lemma {:induction false} NextKeySplits(kb: Kb, stream: seq<byte>)
    ensures match NextKey(kb, stream)
      case Waiting(kb') => kb' == RunKb(kb, stream)
      case Key(code, kb', rest) =>
        exists n :: 0 < n <= |stream| && rest == stream[n..] && code == stream[n - 1] && kb' == RunKb(kb, stream[..n])
    decreases |stream|
  {
    if stream != [] {
      var c, tail := stream[0], stream[1..];
      if Rising(kb, c) {
        assert stream[..1] == [c] && [c][1..] == [];
        assert RunKb(kb, [c]) == RunKb(Scan(kb, c), []);
        assert stream[1..] == tail;
      } else {
        NextKeySplits(Scan(kb, c), tail);
        if NextKey(kb, stream).Key? {
          var n :| 0 < n <= |tail| && NextKey(kb, stream).rest == tail[n..] && NextKey(kb, stream).code == tail[n - 1]
            && NextKey(kb, stream).kb == RunKb(Scan(kb, c), tail[..n]);
          assert stream[..n + 1] == [c] + tail[..n] && stream[..n + 1][1..] == tail[..n];
          assert stream[n + 1..] == tail[n..] && stream[n] == tail[n - 1];
        }
      }
    }
  }

  // ----- the table -----

  /** Slots hold released (zero) or distinct pressed codes. */
  ghost predicate TableOk(t: seq<byte>) {
    && |t| == SLOTS && (forall i :: 0 <= i < SLOTS ==> t[i] < 128)
    && (forall i, j :: 0 <= i < j < SLOTS && t[i] == t[j] ==> t[i] == 0)
  }

  ghost function Entries(t: seq<byte>): set<byte> {
    set i | 0 <= i < |t| && t[i] != 0 :: t[i]
  }

  /** The codes 1..n. */
  ghost function Codes(n: nat): (r: set<byte>)
    requires n < 128
    ensures |r| == n && forall c: byte :: c in r <==> 0 < c <= n
  {
    if n == 0 then {} else Codes(n - 1) + {n}
  }

  /** The first n entries, as a set; distinct entries make it as large as n. */
  ghost function Prefix(t: seq<byte>, n: nat): (r: set<byte>)
    requires n <= |t|
    ensures forall c :: c in r ==> c in t[..n]
    ensures (forall i, j :: 0 <= i < j < n ==> t[i] != t[j]) ==> |r| == n
  {
    if n == 0 then {} else
      assert t[..n] == t[..n - 1] + [t[n - 1]];
      Prefix(t, n - 1) + {t[n - 1]}
  }

  /** 127 codes cannot fill 128 slots, so an insertion always finds a free one. */
  lemma FreeSlot(t: seq<byte>)
    requires TableOk(t)
    ensures 0 in t
  {
    if 0 !in t {
      var n := |t|;
      forall c | c in Prefix(t, n) ensures c in Codes(n - 1) {
        assert c in t[..n];
      }
      SubsetSize(Prefix(t, n), Codes(n - 1));
    }
  }

  lemma SubsetSize(a: set<byte>, b: set<byte>)
    requires a <= b
    ensures |a| <= |b|
  {
    assert b == a + (b - a);
  }

  class Ps2 {
    const keysDown: array<byte>
    var shiftDown: bool
    ghost var state: Kb

    constructor ()
      ensures Holds() && state == Init() && fresh(keysDown)
    {
      keysDown := new byte[SLOTS](_ => 0);
      shiftDown := false;
      state := Init();
    }

    ghost predicate Holds()
      reads this, keysDown
    {
      TableOk(keysDown[..]) && state == Kb(Entries(keysDown[..]), shiftDown)
    }

    /** The first loop of ps2_key_in: is the key already in the table? */
    method IsHeld(c: byte) returns (held: bool)
      requires keysDown.Length == SLOTS
      ensures held <==> c in keysDown[..]
    {
      for i := 0 to SLOTS
        invariant c !in keysDown[..i]
      {
        if keysDown[i] == c {
          return true;
        }
      }
      assert keysDown[..SLOTS] == keysDown[..];
      return false;
    }

    /** The second loop: the key goes into the first free slot. */
    method Insert(c: byte)
      requires keysDown.Length == SLOTS && TableOk(keysDown[..])
      requires 0 < c < 128 && c !in keysDown[..]
      modifies keysDown
      ensures TableOk(keysDown[..]) && Entries(keysDown[..]) == Entries(old(keysDown[..])) + {c}
    {
      ghost var t := keysDown[..];
      FreeSlot(t);
      assert t[..SLOTS] == t;
      for i := 0 to SLOTS
        invariant keysDown[..] == t && 0 !in t[..i]
      {
        if keysDown[i] == 0 {
          keysDown[i] := c;
          assert keysDown[..] == t[i := c];
          InsertEntry(t, i, c);
          return;
        }
      }
      assert false;
    }

    /** The release loop: every slot with this code is emptied. */
    method Release(c: byte)
      requires keysDown.Length == SLOTS && TableOk(keysDown[..]) && c < 128
      modifies keysDown
      ensures TableOk(keysDown[..]) && Entries(keysDown[..]) == Entries(old(keysDown[..])) - {c}
    {
      ghost var t := keysDown[..];
      for i := 0 to SLOTS
        invariant forall k :: 0 <= k < i ==> keysDown[k] == if t[k] == c then 0 else t[k]
        invariant forall k :: i <= k < SLOTS ==> keysDown[k] == t[k]
      {
        if keysDown[i] == c {
          keysDown[i] := 0;
        }
      }
      ReleaseEntry(t, keysDown[..], c);
    }

    /** get_scancode: the next byte of the stream, after it has set or cleared the shift flag. */
    method GetScancode(stream: seq<byte>) returns (c: byte)
      requires stream != []
      modifies this`shiftDown
      ensures c == stream[0] && shiftDown == ShiftAfter(old(shiftDown), c)
    {
      c := stream[0];
      if c == 0x36 || c == 0x2A {
        shiftDown := true;
      }
      if c == 0xB6 || c == 0xAA {
        shiftDown := false;
      }
    }

    /** ps2_key_in: runs until a key is newly pressed, or `found` is false at the end of the stream. */
    method KeyIn(input: seq<byte>) returns (found: bool, code: byte, stream: seq<byte>)
      requires Holds() && 0 !in input
      modifies this, keysDown
      ensures Holds()
      ensures NextKey(old(state), input) == if found then Key(code, state, stream) else Waiting(state)
      ensures !found ==> stream == []
    {
      stream := input;
      while stream != []
        invariant Holds() && 0 !in stream
        invariant NextKey(state, stream) == NextKey(old(state), input)
        decreases |stream|
      {
        var c := GetScancode(stream);
        assert c in stream;
        ghost var kb := state;
        stream := stream[1..];
        if IsPressed(c) {
          var held := IsHeld(c);
          EntriesAre(keysDown[..], c);
          if held {
            state := Scan(kb, c);
            assert state.held == kb.held;
            continue;
          }
          Insert(c);
          state := Scan(kb, c);
          return true, c, stream;
        } else {
          Release(c - 128);
          state := Scan(kb, c);
        }
      }
      return false, 0, [];
    }
  }

  lemma EntriesAre(t: seq<byte>, c: byte)
    requires c != 0
    ensures c in Entries(t) <==> c in t
  {
  }

  lemma InsertEntry(t: seq<byte>, i: nat, c: byte)
    requires TableOk(t) && i < SLOTS && t[i] == 0 && 0 < c < 128 && c !in t
    ensures TableOk(t[i := c]) && Entries(t[i := c]) == Entries(t) + {c}
  {
    var t' := t[i := c];
    forall x | x in Entries(t) + {c} ensures x in Entries(t') {
      if x == c {
        assert t'[i] == c;
      } else {
        var j :| 0 <= j < |t| && t[j] != 0 && t[j] == x;
        assert t'[j] == x;
      }
    }
  }

  lemma ReleaseEntry(t: seq<byte>, t': seq<byte>, c: byte)
    requires TableOk(t) && |t'| == SLOTS
    requires forall k :: 0 <= k < SLOTS ==> t'[k] == if t[k] == c then 0 else t[k]
    ensures TableOk(t') && Entries(t') == Entries(t) - {c}
  {
    forall x | x in Entries(t) - {c} ensures x in Entries(t') {
      var j :| 0 <= j < |t| && t[j] != 0 && t[j] == x;
      assert t'[j] == x;
    }
  }
}
