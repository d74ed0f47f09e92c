/** Bytes, 32-bit words and the little-endian layout every component shares. */
module Bytes {

  type byte = x: int | 0 <= x < 256
  type u16 = x: int | 0 <= x < 0x1_0000
  type u32 = x: int | 0 <= x < 0x1_0000_0000

  const TWO32: int := 0x1_0000_0000

  /** The value an unsigned 32-bit operation leaves behind. */
  function Wrap(n: int): (r: u32)
    ensures 0 <= n < TWO32 ==> r == n
    ensures (n - r) % 0x1_0000_0000 == 0
  {
    n % TWO32
  }

  /** A signed `char` read from memory, as the i386 compiler promotes it. */
  function SignedChar(b: byte): (r: int)
    ensures -128 <= r < 128 && (r - b) % 256 == 0
  {
    if b < 128 then b else b - 256
  }

  /** `s` with the bytes from `at` on replaced by `t`. */
  function Splice<T>(s: seq<T>, at: nat, t: seq<T>): (r: seq<T>)
    requires at + |t| <= |s|
    ensures |r| == |s|
    ensures forall i {:trigger r[i]} :: 0 <= i < |s| ==> r[i] == if at <= i < at + |t| then t[i - at] else s[i]
  {
    s[..at] + t + s[at + |t|..]
  }

  function Repeat(b: byte, n: nat): (r: seq<byte>)
    ensures |r| == n && forall i :: 0 <= i < n ==> r[i] == b
  {
    seq(n, _ => b)
  }

  /** The ASCII bytes of a string constant. */
  function Ascii(s: string): (r: seq<byte>)
    ensures |r| == |s|
    ensures forall i :: 0 <= i < |s| ==> r[i] == s[i] as int % 256
  {
    seq(|s|, i requires 0 <= i < |s| => s[i] as int % 256)
  }

  function LE16(n: u16): (r: seq<byte>)
    ensures |r| == 2
  {
    [n % 256, n / 256]
  }

  function LE32(n: u32): (r: seq<byte>)
    ensures |r| == 4
  {
    [n % 256, n / 256 % 256, n / 256 / 256 % 256, n / 256 / 256 / 256]
  }

  function U16(s: seq<byte>, at: nat): u16
    requires at + 2 <= |s|
  {
    s[at] as int + 256 * (s[at + 1] as int)
  }

  function U32(s: seq<byte>, at: nat): u32
    requires at + 4 <= |s|
  {
    s[at] as int + 256 * (s[at + 1] as int) + 65536 * (s[at + 2] as int) + 16777216 * (s[at + 3] as int)
  }

  /** The low byte comes first. */
  lemma LowByteFirst()
    ensures U16([1, 2], 0) == 0x0201 && LE16(0x0201) == [1, 2]
    ensures U32([1, 2, 3, 4], 0) == 0x0403_0201 && LE32(0x0403_0201) == [1, 2, 3, 4]
  {
  }

  /** A stored 32-bit field reads back, whatever surrounds it. */
  lemma U32Stored(s: seq<byte>, at: nat, n: u32)
    requires at + 4 <= |s| && s[at..at + 4] == LE32(n)
    ensures U32(s, at) == n
  {
    var t := s[at..at + 4];
    assert s[at] == t[0] && s[at + 1] == t[1] && s[at + 2] == t[2] && s[at + 3] == t[3];
  }

  lemma U16Stored(s: seq<byte>, at: nat, n: u16)
    requires at + 2 <= |s| && s[at..at + 2] == LE16(n)
    ensures U16(s, at) == n
  {
    var t := s[at..at + 2];
    assert s[at] == t[0] && s[at + 1] == t[1];
  }

  /** A field is determined by its own bytes. */
  lemma U32Local(s: seq<byte>, at: nat, s': seq<byte>, at': nat)
    requires at + 4 <= |s| && at' + 4 <= |s'| && s[at..at + 4] == s'[at'..at' + 4]
    ensures U32(s, at) == U32(s', at')
  {
    var t, t' := s[at..at + 4], s'[at'..at' + 4];
    assert forall i :: 0 <= i < 4 ==> s[at + i] == t[i] && s'[at' + i] == t'[i];
    assert s[at + 0] == s'[at' + 0] && s[at + 1] == s'[at' + 1] && s[at + 2] == s'[at' + 2] && s[at + 3] == s'[at' + 3];
  }

  /** A splice is seen by the ranges it contains and missed by the ranges it does not meet. */
  lemma SpliceSlice<T>(s: seq<T>, at: nat, t: seq<T>, lo: nat, hi: nat)
    requires at + |t| <= |s| && lo <= hi <= |s|
    ensures hi <= at || at + |t| <= lo ==> Splice(s, at, t)[lo..hi] == s[lo..hi]
    ensures at <= lo && hi <= at + |t| ==> Splice(s, at, t)[lo..hi] == t[lo - at..hi - at]
    ensures lo <= at && at + |t| <= hi ==> Splice(s, at, t)[lo..hi] == Splice(s[lo..hi], at - lo, t)
  {
  }

  /** A range that a change does not meet is as it was. */
  lemma RangeKept<T>(s: seq<T>, s': seq<T>, from: nat, to: nat, lo: nat, hi: nat)
    requires |s'| == |s| && lo <= hi <= |s| && (hi <= from || to <= lo)
    requires forall n :: 0 <= n < |s| && !(from <= n < to) ==> s'[n] == s[n]
    ensures s'[lo..hi] == s[lo..hi]
  {
  }

  /** Writing back a patched copy of a range patches the range in place. */
  lemma SplicePatch<T>(s: seq<T>, at: nat, n: nat, off: nat, t: seq<T>)
    requires at + n <= |s| && off + |t| <= n
    ensures Splice(s, at, Splice(s[at..at + n], off, t)) == Splice(s, at + off, t)
  {
  }
}
