/** The byte-string routines of libc/string, as they run over memory. */
module CString {
  import opened Bytes

  /** libc/string/memcpy.c: one odd byte first, then pairs.  The copy is also exact when the
      destination overlaps the source from below. */
  method Memcpy(dst: array<byte>, d: nat, src: array<byte>, s: nat, count: nat)
    requires d + count <= dst.Length && s + count <= src.Length
    requires dst != src || d <= s || s + count <= d
    modifies dst
    ensures dst[..] == Splice(old(dst[..]), d, old(src[s..s + count]))
  {
    var dst8, src8 := d, s;
    if count % 2 == 1 {
      dst[dst8] := src[src8];
      dst8, src8 := dst8 + 1, src8 + 1;
    }
    var pairs := count / 2;
    while pairs != 0
      invariant 0 <= pairs && dst8 + 2 * pairs == d + count && src8 - s == dst8 - d
      invariant d <= dst8
      invariant forall i :: 0 <= i < d || dst8 <= i < dst.Length ==> dst[i] == old(dst[i])
      invariant forall i :: d <= i < dst8 ==> dst[i] == old(src[s + (i - d)])
      decreases pairs
    {
      dst[dst8] := src[src8];
      dst[dst8 + 1] := src[src8 + 1];
      dst8, src8 := dst8 + 2, src8 + 2;
      pairs := pairs - 1;
    }
  }

  /** libc/string/memset.c */
  method Memset(str: array<byte>, at: nat, c: byte, len: nat)
    requires at + len <= str.Length
    modifies str
    ensures str[..] == Splice(old(str[..]), at, Repeat(c, len))
  {
    for i := 0 to len
      invariant forall k :: 0 <= k < at || at + i <= k < str.Length ==> str[k] == old(str[k])
      invariant forall k :: at <= k < at + i ==> str[k] == c
    {
      str[at + i] := c;
    }
  }

  /** The C string at `at`: the bytes up to the first NUL. */
  function Text(s: seq<byte>, at: nat): (r: seq<byte>)
    requires at <= |s|
    ensures at + |r| <= |s| && s[at..at + |r|] == r
    ensures 0 !in r
    ensures at + |r| < |s| ==> s[at + |r|] == 0
    decreases |s| - at
  {
    if at == |s| || s[at] == 0 then [] else
      var t := Text(s, at + 1);
      assert s[at + 1..at + 1 + |t|] == t;
      [s[at]] + t
  }

  /** A NUL-free stretch is skipped whole. */
  lemma {:induction false} TextSkip(s: seq<byte>, at: nat, k: nat)
    requires at + k <= |s| && 0 !in s[at..at + k]
    ensures Text(s, at) == s[at..at + k] + Text(s, at + k)
    decreases k
  {
    if k != 0 {
      var rest := s[at + 1..at + 1 + (k - 1)];
      assert s[at..at + k] == [s[at]] + rest;
      TextSkip(s, at + 1, k - 1);
      assert Text(s, at) == [s[at]] + (rest + Text(s, at + k));
    }
  }

  /** A text is the bytes up to the NUL that ends it. */
  lemma TextIs(s: seq<byte>, at: nat, text: seq<byte>)
    requires at + |text| < |s| && s[at..at + |text|] == text && 0 !in text && s[at + |text|] == 0
    ensures Text(s, at) == text
  {
    TextSkip(s, at, |text|);
    assert Text(s, at + |text|) == [];
  }

  lemma {:induction false} TextShort(s: seq<byte>, at: nat, k: nat)
    requires at + k < |s| && s[at + k] == 0
    ensures |Text(s, at)| <= k
    decreases k
  {
    if k != 0 && s[at] != 0 {
      TextShort(s, at + 1, k - 1);
    }
  }

  /** libc/string/strlen.c */
  method Strlen(str: array<byte>, at: nat) returns (len: nat)
    requires at <= str.Length && 0 in str[at..]
    ensures len == |Text(str[..], at)| && at + len < str.Length && str[at + len] == 0
  {
    len := 0;
    while str[at + len] != 0
      invariant at + len < str.Length && 0 in str[at + len..]
      invariant 0 !in str[at..at + len]
      decreases str.Length - len
    {
      assert str[at + len..] == [str[at + len]] + str[at + len + 1..];
      assert str[at..at + (len + 1)] == str[at..at + len] + [str[at + len]];
      len := len + 1;
    }
    TextSkip(str[..], at, len);
  }

  /** Two C strings held one in memory and one in a local copy compare equal exactly when
      libc/string/strcmp.c returns zero. */
  method Strcmp(str1: array<byte>, at: nat, str2: seq<byte>) returns (res: u32)
    requires at <= str1.Length && 0 in str1[at..] && 0 in str2
    ensures res == 0 <==> Text(str1[..], at) == Text(str2, 0)
  {
    var k := 0;
    res := Wrap(str1[at] as int - str2[0]);
    while res == 0 && str2[k] != 0
      invariant at + k < str1.Length && k < |str2|
      invariant 0 in str1[at + k..] && 0 in str2[k..]
      invariant res == Wrap(str1[at + k] as int - str2[k])
      invariant 0 !in str2[..k] && str1[at..at + k] == str2[..k]
      decreases |str2| - k
    {
      assert str1[at + k..] == [str1[at + k]] + str1[at + k + 1..];
      assert str2[k..] == [str2[k]] + str2[k + 1..];
      assert str2[..k + 1] == str2[..k] + [str2[k]];
      assert str1[at..at + (k + 1)] == str1[at..at + k] + [str1[at + k]];
      k := k + 1;
      res := Wrap(str1[at + k] as int - str2[k]);
    }
    if res == 0 {
      TextSkip(str2, 0, k);
      TextSkip(str1[..], at, k);
    } else {
      TextsDiffer(str1[..], at, str2, k);
    }
  }

  lemma TextsDiffer(s: seq<byte>, at: nat, t: seq<byte>, k: nat)
    requires at + k < |s| && k < |t| && s[at..at + k] == t[..k] && 0 !in t[..k]
    requires s[at + k] != t[k]
    ensures Text(s, at) != Text(t, 0)
  {
    TextSkip(s, at, k);
    TextSkip(t, 0, k);
    assert Text(s, at)[k..] == Text(s, at + k) && Text(t, 0)[k..] == Text(t, k);
  }

  /** libc/string/memcmp.c returns 1 exactly when `len` bytes agree.  It stops at the first difference, so
      `first` may be shorter when it differs. */
  method Memcmp(first: seq<byte>, second: seq<byte>, len: nat) returns (r: int)
    requires len <= |second| && (len <= |first| || exists k :: 0 <= k < |first| && first[k] != second[k])
    ensures r == 0 || r == 1
    ensures r == 1 <==> second[..len] <= first
  {
    var i := 0;
    while i < len
      invariant 0 <= i <= len
      invariant i <= |first| && second[..i] == first[..i]
    {
      assert forall k :: 0 <= k < i ==> first[..i][k] == first[k] && second[..i][k] == second[k];
      assert second[..len][i] == second[i];
      if first[i] == second[i] {
        assert second[..i + 1] == second[..i] + [second[i]] && first[..i + 1] == first[..i] + [first[i]];
        i := i + 1;
        continue;
      }
      assert second[..len][i] != first[i];
      return 0;
    }
    return 1;
  }

  /** A NUL-terminated string differs in time from one without a NUL. */
  lemma NulDiffers(first: seq<byte>, second: seq<byte>, len: nat)
    requires 0 in first && len <= |second| && 0 !in second[..len]
    ensures len <= |first| || exists k :: 0 <= k < |first| && first[k] != second[k]
  {
    if |first| < len {
      var k :| 0 <= k < |first| && first[k] == 0;
      assert second[..len][k] == second[k];
    }
  }
}
