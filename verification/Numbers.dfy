/** Printing and parsing numbers: libc/string/u32_to_str.c, str_reverse.c, atoi.c and the integer power
    of libc/math/sqrt.c. */
module Numbers {
  import opened Bytes

  function Pow(b: nat, e: nat): (r: nat)
    ensures b > 0 ==> r > 0
    decreases e
  {
    if e == 0 then 1 else b * Pow(b, e - 1)
  }

  function Reverse<T>(s: seq<T>): (r: seq<T>)
    ensures |r| == |s| && forall i :: 0 <= i < |s| ==> r[i] == s[|s| - 1 - i]
  {
    seq(|s|, i requires 0 <= i < |s| => s[|s| - 1 - i])
  }

  // ----- digits -----

  /** The digit character the printers use: 0-9, then A-F. */
  function DigitChar(r: nat): byte
    requires r < 16
  {
    if r < 10 then r + 48 else r - 10 + 65
  }

  lemma DigitChars(r: nat)
    requires r < 16
    ensures DigitChar(r) == "0123456789ABCDEF"[r] as int % 256
  {
  }

  function DigitOf(c: byte): int {
    if c < 65 then c as int - 48 else c as int - 55
  }

  /** The number a digit string denotes, read from its first digit on. */
  function Value(s: seq<byte>, base: nat): int
    decreases |s|
  {
    if s == [] then 0 else base * Value(s[..|s| - 1], base) + DigitOf(s[|s| - 1])
  }

  /** The loop of the printers: at most `limit` digits, least significant first. */
  function Digits(v: nat, base: nat, limit: nat): (r: seq<byte>)
    requires 2 <= base <= 16
    ensures |r| <= limit
    decreases limit, v
  {
    if v == 0 || limit == 0 then [] else [DigitChar(v % base)] + Digits(v / base, base, limit - 1)
  }

  /** The text a printer leaves behind. */
  function Printed(v: nat, base: nat, limit: nat): (r: seq<byte>)
    requires 2 <= base <= 16
    ensures 1 <= |r| <= limit + 1
  {
    var d := Digits(v, base, limit);
    Reverse(if d == [] then [48] else d)
  }

  lemma DivStep(v: nat, base: nat)
    requires base >= 2
    ensures v == base * (v / base) + v % base && (v > 0 ==> v / base < v)
  {
    var q := v / base;
    assert v == q * base + v % base && q * base >= q * 2;
  }

  lemma MulAssoc(a: int, b: int, c: int)
    ensures a * (b * c) == (a * b) * c
  {
  }

  lemma MulLess(base: nat, m: nat, p: nat, r: nat)
    requires r < base && m < p
    ensures base * m + r < base * p
  {
    assert base * (m + 1) <= base * p;
  }

  lemma TwoDigits(v: nat, base: nat, p: nat, q: nat, r: nat, k: nat, m: nat)
    requires v == base * q + r && q == p * k + m && r < base && m < p
    ensures base * p > 0
    ensures v == (base * p) * k + (base * m + r) && base * m + r < base * p
  {
    MulAssoc(base, p, k);
    MulLess(base, m, p, r);
    var pk := p * k;
    assert base * (pk + m) == base * pk + base * m;
  }

  /** v mod base^(n+1), by its last digit. */
  lemma ModStep(v: nat, base: nat, p: nat)
    requires base >= 2 && p > 0
    ensures v % (base * p) == base * ((v / base) % p) + v % base
  {
    DivStep(v, base);
    var q, r := v / base, v % base;
    var k, m := q / p, q % p;
    TwoDigits(v, base, p, q, r, k, m);
    var d, low := base * p, base * m + r;
    ModUnique(v, d, k, low);
  }

  lemma ModUnique(v: nat, d: nat, k: nat, low: nat)
    requires d > 0 && v == d * k + low && low < d
    ensures v % d == low && v / d == k
  {
    var q, r := v / d, v % d;
    assert v == q * d + r;
    assert q < k ==> (q + 1) * d <= k * d;
    assert q > k ==> (k + 1) * d <= q * d;
  }

  /** Reading the digits back, least significant first, gives the number modulo base^limit. */
  lemma {:induction false} DigitsValue(v: nat, base: nat, limit: nat)
    requires 2 <= base <= 16
    ensures Value(Reverse(Digits(v, base, limit)), base) == v % Pow(base, limit)
    decreases limit
  {
    var d := Digits(v, base, limit);
    if v == 0 || limit == 0 {
      assert Reverse(d) == [];
      if v == 0 {
        ModUnique(0, Pow(base, limit), 0, 0);
      }
    } else {
      DigitsValue(v / base, base, limit - 1);
      var rest := Digits(v / base, base, limit - 1);
      var r := Reverse(d);
      assert r[..|r| - 1] == Reverse(rest) && r[|r| - 1] == DigitChar(v % base);
      ModStep(v, base, Pow(base, limit - 1));
    }
  }

  /** What is printed denotes the argument modulo base^limit, for every argument and limit. */
  lemma PrintedValue(v: nat, base: nat, limit: nat)
    requires 2 <= base <= 16
    ensures Value(Printed(v, base, limit), base) == v % Pow(base, limit)
  {
    DigitsValue(v, base, limit);
    if Digits(v, base, limit) == [] {
      var z := Reverse([48]);
      assert z == [48] && z[..0] == [] && Value(z, base) == 0;
      assert Reverse<byte>([]) == [];
    }
  }

  /** The number has at most n digits. */
  predicate Fits(v: nat, base: nat, n: nat)
    requires 2 <= base
    decreases n, v
  {
    v == 0 || (n > 0 && Fits(v / base, base, n - 1))
  }

  lemma {:induction false} FitsExactly(v: nat, base: nat, n: nat)
    requires 2 <= base
    ensures Fits(v, base, n) <==> v < Pow(base, n)
    decreases n
  {
    if n > 0 {
      FitsExactly(v / base, base, n - 1);
      QuotientExactly(v, base, Pow(base, n - 1));
    }
  }

  lemma MulAtMost(base: nat, p: nat, q: nat)
    ensures p <= q ==> base * p <= base * q
  {
    if p <= q {
      assert base * q == base * p + base * (q - p);
    }
  }

  lemma QuotientExactly(v: nat, base: nat, p: nat)
    requires base >= 2
    ensures v / base < p <==> v < base * p
  {
    DivStep(v, base);
    var q := v / base;
    MulAtMost(base, p, q);
    MulAtMost(base, q + 1, p);
  }

  lemma {:induction false} DigitsTop(v: nat, base: nat, limit: nat)
    requires 2 <= base <= 16 && 0 < v && Fits(v, base, limit)
    ensures var d := Digits(v, base, limit); d != [] && d[|d| - 1] != 48
    decreases limit
  {
    var q := v / base;
    if q != 0 {
      DigitsTop(q, base, limit - 1);
    } else {
      DivStep(v, base);
      assert Digits(0, base, limit - 1) == [];
    }
  }

  /** A number that fits is printed without leading zeros, and reads back as itself. */
  lemma PrintedCanonical(v: nat, base: nat, limit: nat)
    requires 2 <= base <= 16 && v < Pow(base, limit)
    ensures Value(Printed(v, base, limit), base) == v
    ensures |Printed(v, base, limit)| > 1 ==> Printed(v, base, limit)[0] != 48
  {
    PrintedValue(v, base, limit);
    ModUnique(v, Pow(base, limit), 0, v);
    if v > 0 {
      FitsExactly(v, base, limit);
      DigitsTop(v, base, limit);
    }
  }

  lemma {:induction false} DigitsLimit(v: nat, base: nat, limit: nat, limit': nat)
    requires 2 <= base <= 16 && Fits(v, base, limit) && limit <= limit'
    ensures Digits(v, base, limit) == Digits(v, base, limit')
    decreases limit
  {
    if v != 0 {
      DigitsLimit(v / base, base, limit - 1, limit' - 1);
    }
  }

  /** Once the limit is large enough for the number, its exact value no longer matters. */
  lemma LimitIrrelevant(v: nat, base: nat, limit: nat, limit': nat)
    requires 2 <= base <= 16 && v < Pow(base, limit) && limit <= limit'
    ensures Printed(v, base, limit) == Printed(v, base, limit')
  {
    FitsExactly(v, base, limit);
    DigitsLimit(v, base, limit, limit');
  }

  lemma {:induction false} DigitsAreDigits(v: nat, base: nat, limit: nat)
    requires 2 <= base <= 16
    ensures forall c :: c in Digits(v, base, limit) ==> 48 <= c < 71 && (base <= 10 ==> c < 58)
    decreases limit
  {
    if v != 0 && limit != 0 {
      DigitsAreDigits(v / base, base, limit - 1);
    }
  }

  lemma PrintedAreDigits(v: nat, base: nat, limit: nat)
    requires 2 <= base <= 16
    ensures forall c :: c in Printed(v, base, limit) ==> 48 <= c < 71 && (base <= 10 ==> c < 58)
  {
    DigitsAreDigits(v, base, limit);
    var d, p := Digits(v, base, limit), Printed(v, base, limit);
    forall c | c in p ensures c == 48 || c in d {
      var i :| 0 <= i < |p| && p[i] == c;
      assert d != [] ==> p[i] == d[|d| - 1 - i];
    }
  }

  lemma TenDigitsSuffice(v: u32)
    ensures v < Pow(10, 10) && v < Pow(16, 8)
  {
    assert Pow(10, 10) == 10_000_000_000;
    assert Pow(16, 8) == TWO32;
  }

  // ----- reversing and printing -----

  /** The 8-bit position of str_reverse after so many turns of its loop. */
  function PosAfter(turns: nat): (pos: nat)
    ensures pos < 256
  {
    if turns == 0 then 0 else (PosAfter(turns - 1) + 1) % 256
  }

  lemma {:induction false} PosCounts(turns: nat)
    requires turns < 256
    ensures PosAfter(turns) == turns
    decreases turns
  {
    if turns != 0 {
      PosCounts(turns - 1);
    }
  }

  /** The loop of str_reverse comes to its end, a position at or past the middle, exactly for fewer than 512
      bytes; from there on it turns for ever. */
  lemma ReverseStopsExactly(len: nat)
    ensures (exists turns :: PosAfter(turns) >= len / 2) <==> len < 512
  {
    if len < 512 {
      PosCounts(len / 2);
      assert PosAfter(len / 2) >= len / 2;
    }
  }

  method StrReverse(str: array<byte>, len: nat)
    requires len <= str.Length && len < 512
    modifies str
    ensures str[..] == Splice(old(str[..]), 0, Reverse(old(str[..len])))
  {
    var pos := 0;
    ghost var turns := 0;
    while pos < len / 2
      invariant 0 <= pos <= len / 2 && pos == turns == PosAfter(turns)
      invariant forall k :: 0 <= k < pos || len - pos <= k < len ==> str[k] == old(str[len - 1 - k])
      invariant forall k :: pos <= k < len - pos || len <= k < str.Length ==> str[k] == old(str[k])
      decreases len / 2 - pos
    {
      var s := str[pos];
      var e := str[(len - 1) - pos];
      str[pos] := e;
      str[(len - 1) - pos] := s;
      pos := (pos + 1) % 256;
      turns := turns + 1;
    }
  }

  lemma Regroup3(a: seq<byte>, b: seq<byte>, c: seq<byte>)
    ensures a + (b + c) == (a + b) + c
  {
  }

  lemma Regroup(done: seq<byte>, c: byte, rest: seq<byte>)
    ensures done + ([c] + rest) == (done + [c]) + rest
  {
  }

  /** A 32-bit number has at most ten decimal digits. */
  lemma TenDigits(val: u32, limit: nat)
    ensures |Digits(val, 10, limit)| <= 10
  {
    TenDigitsSuffice(val);
    FitsExactly(val, 10, 10);
    if limit > 10 {
      DigitsLimit(val, 10, 10, limit);
    }
  }

  /** u32_to_str: digits into the buffer, least significant first, then '0' for zero, a NUL, and the
      reversal. */
  method U32ToStr(val: u32, buff: array<byte>, len: nat) returns (i: nat)
    requires |Printed(val, 10, len)| < buff.Length
    modifies buff
    ensures i == |Printed(val, 10, len)|
    ensures buff[..i] == Printed(val, 10, len) && buff[i] == 0
  {
    var v: nat := val;
    i := 0;
    ghost var all := Digits(val, 10, len);
    assert all == buff[..i] + all;
    while v > 0 && i < len
      invariant 0 <= i <= len && i <= buff.Length && all == buff[..i] + Digits(v, 10, len - i)
      decreases v
    {
      ghost var done := buff[..i];
      var c := v % 10 + 48;
      Regroup(done, c, Digits(v / 10, 10, len - i - 1));
      buff[i] := c;
      assert buff[..i + 1] == done + [c];
      i := i + 1;
      v := v / 10;
    }
    assert all == buff[..i];
    TenDigits(val, len);
    Finish(buff, i, all);
    i := if i == 0 then 1 else i;
  }

  /** The end of both printers: '0' when no digit was written, the terminator, the reversal. */
  method Finish(buff: array<byte>, n: nat, ghost digits: seq<byte>)
    requires n < 511 && (if n == 0 then 1 else n) < buff.Length && buff[..n] == digits
    modifies buff
    ensures var text := Reverse(if digits == [] then [48] else digits);
      |text| == (if n == 0 then 1 else n) && buff[..|text|] == text && buff[|text|] == 0
  {
    var i := n;
    if i == 0 {
      buff[i] := 48;
      i := i + 1;
    }
    ghost var text := buff[..i];
    buff[i] := 0;
    assert buff[..i] == text;
    StrReverse(buff, i);
  }

  // ----- the power -----

  /** The exponent reached by `sqrt(val, pow)`: its loop bound `pow - 1` wraps at zero. */
  function Exponent(pow: u32): (e: nat)
    ensures pow > 0 ==> e == pow
    ensures pow == 0 ==> e == 0x1_0000_0000
  {
    Wrap(pow as int - 1) + 1
  }

  lemma WrapAdd(x: int, k: int)
    ensures Wrap(x + TWO32 * k) == Wrap(x)
  {
  }

  lemma WrapMul(a: int, b: int)
    ensures Wrap(Wrap(a) * b) == Wrap(a * b)
  {
    var q := a / TWO32;
    assert a == TWO32 * q + Wrap(a);
    assert a * b == Wrap(a) * b + TWO32 * (q * b);
    WrapAdd(Wrap(a) * b, q * b);
  }

  lemma WrapSum(a: int, b: int)
    ensures Wrap(Wrap(a) as int + b) == Wrap(a + b)
  {
    var q := a / TWO32;
    assert a == TWO32 * q + Wrap(a);
    WrapAdd(Wrap(a) as int + b, q);
  }

  /** sqrt.c computes an integer power modulo 2^32. */
  method Power(base: u32, pow: u32) returns (val: u32)
    ensures val == Wrap(Pow(base, Exponent(pow)))
  {
    val := base;
    var i: u32 := 0;
    var bound := Wrap(pow as int - 1);
    assert Pow(base, 1) == base * Pow(base, 0);
    while i < bound
      invariant 0 <= i <= bound && val == Wrap(Pow(base, i + 1))
    {
      WrapMul(Pow(base, i + 1), base);
      assert Pow(base, i + 2) == base * Pow(base, i + 1);
      val := Wrap(val * base);
      i := i + 1;
    }
  }

  lemma {:induction false} PowAdd(b: nat, m: nat, n: nat)
    ensures Pow(b, m + n) == Pow(b, m) * Pow(b, n)
    decreases m
  {
    if m != 0 {
      PowAdd(b, m - 1, n);
      assert b * (Pow(b, m - 1) * Pow(b, n)) == (b * Pow(b, m - 1)) * Pow(b, n);
    }
  }

  lemma TenToThe32()
    ensures Pow(10, 32) == 100000000000000000000000000000000
  {
    assert Pow(10, 8) == 100000000;
    PowAdd(10, 8, 8);
    PowAdd(10, 16, 16);
  }

  /** Ten to the 32 is a multiple of 2^32, and so is every higher power. */
  lemma {:induction false} HighPowersVanish(e: nat)
    requires e >= 32
    ensures Wrap(Pow(10, e)) == 0
    decreases e
  {
    if e == 32 {
      TenToThe32();
    } else {
      HighPowersVanish(e - 1);
      WrapMul(Pow(10, e - 1), 10);
    }
  }

  // ----- the parser -----

  function DigitVal(c: byte): int {
    SignedChar(c) - 48
  }

  /** The decimal value of a string, digit by digit. */
  function Dec(s: seq<byte>): int
    decreases |s|
  {
    if s == [] then 0 else 10 * Dec(s[..|s| - 1]) + DigitVal(s[|s| - 1])
  }

  /** The value of an 8-bit counter after n increments. */
  function Place(n: nat): nat {
    n % 256
  }

  /** What atoi sums: its 8-bit position counter repeats the weights every 256 digits. */
  function Summed(s: seq<byte>): int
    decreases |s|
  {
    if s == [] then 0 else DigitVal(s[0]) * Pow(10, Place(|s| - 1)) + Summed(s[1..])
  }

  /** The next position counter, and the place it stands for. */
  lemma PlaceAfter(j: nat)
    ensures Place(j) < 256 && (Place(j) + 1) % 256 == Place(j + 1) == if Place(j) == 255 then 0 else Place(j) + 1
  {
  }

  /** The weight atoi uses when its position counter is `pow`, for the place before it. */
  lemma WeightIs(pow: nat, place: nat)
    requires place < 256 && pow == (if place == 255 then 0 else place + 1) && pow != 1
    ensures Wrap(Pow(10, Exponent(Wrap(pow - 1)))) == Wrap(Pow(10, place))
  {
    if pow == 0 {
      HighPowersVanish(place);
      HighPowersVanish(Exponent(Wrap(pow - 1)));
    } else {
      assert Exponent(Wrap(pow - 1)) == place;
    }
  }

  lemma WrapTerm(sum: int, d: int, w: int)
    ensures Wrap(Wrap(sum) as int + Wrap(Wrap(d) * Wrap(w))) == Wrap(d * w + sum)
  {
    WrapMul(d, Wrap(w));
    WrapMul(w, d);
    assert d * Wrap(w) == Wrap(w) * d && d * w == w * d;
    WrapSum(sum, Wrap(d * w));
    WrapSum(d * w, sum);
  }

  lemma AtoiStep(s: seq<byte>, rtn: u32, place: nat, weight: u32)
    requires s != [] && rtn == Wrap(Summed(s[1..])) && place == Place(|s| - 1)
    requires weight == Wrap(Pow(10, place))
    ensures Wrap(rtn as int + Wrap(Wrap(DigitVal(s[0])) * weight)) == Wrap(Summed(s))
  {
    var d, w, sum := DigitVal(s[0]), Pow(10, place), Summed(s[1..]);
    assert Summed(s) == d * w + sum;
    WrapTerm(sum, d, w);
  }

  /** One digit: its contribution to the running sum. */
  method AddDigit(rtn: u32, num: u32, pow: nat, ghost s: seq<byte>, ghost place: nat) returns (r: u32)
    requires s != [] && rtn == Wrap(Summed(s[1..])) && num == Wrap(DigitVal(s[0]))
    requires place == Place(|s| - 1) && pow == if place == 255 then 0 else place + 1
    ensures r == Wrap(Summed(s))
  {
    if pow == 1 {
      assert Pow(10, 0) == 1 && num * 1 == num;
      AtoiStep(s, rtn, place, 1);
      r := Wrap(rtn as int + num);
    } else {
      r := AddWeighted(rtn, num, pow, s, place);
    }
  }

  /** rtn += num * sqrt(10, pow - 1) */
  method AddWeighted(rtn: u32, num: u32, pow: nat, ghost s: seq<byte>, ghost place: nat) returns (r: u32)
    requires s != [] && rtn == Wrap(Summed(s[1..])) && num == Wrap(DigitVal(s[0]))
    requires place == Place(|s| - 1) && pow == if place == 255 then 0 else place + 1
    requires pow != 1
    ensures r == Wrap(Summed(s))
  {
    WeightIs(pow, place);
    var weight := Power(10, Wrap(pow - 1));
    AtoiStep(s, rtn, place, weight);
    r := Wrap(rtn as int + Wrap(num * weight));
  }

  lemma Tail(s: seq<byte>, lo: nat, hi: nat)
    requires lo < hi <= |s|
    ensures s[lo..hi][1..] == s[lo + 1..hi]
  {
  }

  /** atoi: digits from the right, weighted by `sqrt(10, pow - 1)`, with an 8-bit position counter. */
  method Atoi(str: array<byte>, at: nat, len: u32) returns (rtn: u32)
    requires at + len <= str.Length
    ensures rtn == Wrap(Summed(str[at..at + len]))
  {
    rtn := 0;
    var pow: nat := 0;
    var i := len;
    while i > 0
      invariant 0 <= i <= len && pow == Place(len - i)
      invariant rtn == Wrap(Summed(str[at + i..at + len]))
      decreases i
    {
      ghost var j, place := len - i, pow;
      PlaceAfter(j);
      pow := (pow + 1) % 256;
      var num := Wrap(SignedChar(str[at + (i - 1)]) - 48);
      ghost var s := str[at + (i - 1)..at + len];
      Tail(str[..], at + (i - 1), at + len);
      rtn := AddDigit(rtn, num, pow, s, place);
      i := i - 1;
      assert len - i == j + 1;
    }
  }

  // ----- what the parser computes -----

  /** From the left: each digit times its power of ten. */
  function Weighted(s: seq<byte>): int
    decreases |s|
  {
    if s == [] then 0 else DigitVal(s[0]) * Pow(10, |s| - 1) + Weighted(s[1..])
  }

  lemma {:induction false} WeightedIsDec(s: seq<byte>)
    ensures Weighted(s) == Dec(s)
    decreases |s|
  {
    if s != [] {
      var n := |s| - 1;
      WeightedSnoc(s[..n], s[n]);
      assert s[..n] + [s[n]] == s;
      WeightedIsDec(s[..n]);
    }
  }

  lemma {:induction false} WeightedSnoc(s: seq<byte>, c: byte)
    ensures Weighted(s + [c]) == 10 * Weighted(s) + DigitVal(c)
    decreases |s|
  {
    if s == [] {
      assert Weighted([c]) == DigitVal(c) * Pow(10, 0) + Weighted([c][1..]);
    } else {
      assert (s + [c])[1..] == s[1..] + [c];
      WeightedSnoc(s[1..], c);
      var d, p := DigitVal(s[0]), Pow(10, |s| - 1);
      assert d * (10 * p) == 10 * (d * p);
    }
  }

  /** Up to 256 digits the repeated weights are the true ones. */
  lemma {:induction false} SummedIsDec(s: seq<byte>)
    requires |s| <= 256
    ensures Summed(s) == Weighted(s)
    decreases |s|
  {
    if s != [] {
      SummedIsDec(s[1..]);
      SmallPlace(|s| - 1);
    }
  }

  lemma SmallPlace(n: nat)
    requires n < 256
    ensures Place(n) == n
  {
  }

  lemma SamePlace(n: nat)
    ensures Place(n + 256) == Place(n)
  {
  }

  lemma {:induction false} SummedSplit(a: seq<byte>, b: seq<byte>)
    requires |b| == 256
    ensures Summed(a + b) == Summed(a) + Summed(b)
    decreases |a|
  {
    if a == [] {
      assert a + b == b;
    } else {
      assert (a + b)[1..] == a[1..] + b;
      SummedSplit(a[1..], b);
      SamePlace(|a| - 1);
    }
  }

  lemma Distribute(d: int, p: int, q: int, w: int)
    ensures d * (p * q) + w * q == (d * p + w) * q
  {
    assert d * (p * q) == (d * p) * q;
  }

  lemma {:induction false} WeightedSplit(a: seq<byte>, b: seq<byte>)
    ensures Weighted(a + b) == Weighted(a) * Pow(10, |b|) + Weighted(b)
    decreases |a|
  {
    if a == [] {
      assert a + b == b;
    } else {
      assert (a + b)[1..] == a[1..] + b && (a + b)[0] == a[0];
      WeightedSplit(a[1..], b);
      PowAdd(10, |a| - 1, |b|);
      Distribute(DigitVal(a[0]), Pow(10, |a| - 1), Pow(10, |b|), Weighted(a[1..]));
    }
  }

  /** Digits before the last 256 do not change the decimal value modulo 2^32. */
  lemma HighDigitsVanish(a: seq<byte>, b: seq<byte>)
    requires |b| == 256
    ensures Wrap(Weighted(a + b)) == Wrap(Weighted(b))
  {
    WeightedSplit(a, b);
    HighPowersVanish(|b|);
    VanishingTerm(Weighted(a), Pow(10, |b|), Weighted(b));
  }

  lemma VanishingTerm(x: int, p: int, y: int)
    requires Wrap(p) == 0
    ensures Wrap(x * p + y) == Wrap(y)
  {
    WrapMul(p, x);
    assert p * x == x * p;
    WrapSum(x * p, y);
  }

  /** The decimal values of the stretches of 256 digits, counted from the end, added up. */
  function ChunkSum(s: seq<byte>): int
    decreases |s|
  {
    if |s| <= 256 then Dec(s) else ChunkSum(s[..|s| - 256]) + Dec(s[|s| - 256..])
  }

  /** What atoi adds up, whatever the length: beyond 256 digits it starts over with the lowest weight. */
  lemma {:induction false} SummedIsChunks(s: seq<byte>)
    ensures Summed(s) == ChunkSum(s)
    decreases |s|
  {
    if |s| <= 256 {
      SummedIsDec(s);
      WeightedIsDec(s);
    } else {
      var a, b := s[..|s| - 256], s[|s| - 256..];
      assert s == a + b;
      SummedSplit(a, b);
      SummedIsChunks(a);
      SummedIsDec(b);
      WeightedIsDec(b);
    }
  }

  /** For at most 256 digits atoi returns the decimal value modulo 2^32; for longer strings exactly when the
      stretches before the last 256 digits add up to zero. */
  lemma AtoiExact(s: seq<byte>)
    ensures Summed(s) == ChunkSum(s)
    ensures |s| <= 256 ==> Wrap(Summed(s)) == Wrap(Dec(s))
    ensures |s| > 256 ==> (Wrap(Summed(s)) == Wrap(Dec(s)) <==> Wrap(ChunkSum(s[..|s| - 256])) == 0)
  {
    SummedIsChunks(s);
    WeightedIsDec(s);
    if |s| <= 256 {
      assert ChunkSum(s) == Dec(s);
    } else {
      var a, b := s[..|s| - 256], s[|s| - 256..];
      assert s == a + b;
      HighDigitsVanish(a, b);
      WeightedIsDec(b);
      LongSum(ChunkSum(a), Dec(b), Summed(s), Dec(s));
    }
  }

  lemma LongSum(x: int, y: int, sum: int, value: int)
    requires sum == x + y && Wrap(value) == Wrap(y)
    ensures Wrap(sum) == Wrap(value) <==> Wrap(x) == 0
  {
    WrapShift(x, y);
  }

  lemma WrapShift(x: int, y: int)
    ensures Wrap(x + y) == Wrap(y) <==> Wrap(x) == 0
  {
    WrapSum(x, y);
  }

  lemma {:induction false} DecIsValue(s: seq<byte>)
    requires forall i :: 0 <= i < |s| ==> 48 <= s[i] < 58
    ensures Dec(s) == Value(s, 10)
    decreases |s|
  {
    if s != [] {
      DecIsValue(s[..|s| - 1]);
    }
  }

  lemma ModExactly(v: nat, p: nat)
    requires p > 0
    ensures v % p <= v && (v % p == v <==> v < p)
  {
    if v < p {
      ModUnique(v, p, 0, v);
    }
    assert v == p * (v / p) + v % p;
    assert p * (v / p) >= 0;
  }

  lemma PrintedDec(v: nat, limit: nat)
    ensures Dec(Printed(v, 10, limit)) == v % Pow(10, limit)
  {
    var s := Printed(v, 10, limit);
    PrintedAreDigits(v, 10, limit);
    forall i | 0 <= i < |s| ensures 48 <= s[i] < 58 {
      assert s[i] in s;
    }
    DecIsValue(s);
    PrintedValue(v, 10, limit);
  }

  /** Printing a number and parsing the text gives it back exactly when it has no more digits than the
      printer's limit allows. */
  lemma RoundTripExactly(v: u32, limit: nat)
    ensures Wrap(Summed(Printed(v, 10, limit))) == v <==> v < Pow(10, limit)
  {
    TenDigits(v, limit);
    PrintedDec(v, limit);
    AtoiExact(Printed(v, 10, limit));
    ModExactly(v, Pow(10, limit));
  }

  /** A limit of ten suffices for every 32-bit number. */
  lemma RoundTrip(v: u32, limit: nat)
    requires 10 <= limit
    ensures Wrap(Summed(Printed(v, 10, limit))) == v
  {
    TenDigitsSuffice(v);
    LimitIrrelevant(v, 10, 10, limit);
    RoundTripExactly(v, 10);
  }
}
