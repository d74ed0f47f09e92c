/** The format interpreter of libc/stdio/printf.c and the text it sends to the terminal. */
module Printf {
  import opened Bytes
  import Numbers
  import Screen
  import VgaConsole

  const PERCENT: byte := 37

  /** A variadic argument: a 32-bit value or a NUL-terminated string. */
  datatype Arg = Num(n: u32) | Str(s: seq<byte>)

  // the characters after '%'
  const CHAR: byte := 99     // c
  const STRING: byte := 115  // s
  const DECIMAL: byte := 100 // d
  const HEX: byte := 120     // x

  predicate Conversion(c: byte) {
    c == CHAR || c == STRING || c == DECIMAL || c == HEX
  }

  /** The argument list supplies what the conversions of the format take, in order. */
  predicate Matches(fmt: seq<byte>, args: seq<Arg>)
    decreases |fmt|
  {
    if fmt == [] then true
    else if fmt[0] != PERCENT then Matches(fmt[1..], args)
    else if |fmt| > 1 && fmt[1] == PERCENT then Matches(fmt[2..], args)
    else if |fmt| > 1 && Conversion(fmt[1]) then
      args != [] && (if fmt[1] == STRING then args[0].Str? else args[0].Num?) && Matches(fmt[2..], args[1..])
    else true
  }

  /** The text of one conversion. */
  function Converted(c: byte, arg: Arg): seq<byte>
    requires Conversion(c) && if c == STRING then arg.Str? else arg.Num?
  {
    if c == CHAR then [arg.n % 256]
    else if c == STRING then arg.s
    else if c == DECIMAL then Numbers.Printed(arg.n, 10, 14)
    else Numbers.Printed(arg.n, 16, 20)
  }

  /** The text of a whole format, one character or conversion at a time; an unknown conversion ends the
      interpretation and the rest of the format is printed as it stands. */
  function Render(fmt: seq<byte>, args: seq<Arg>): seq<byte>
    requires Matches(fmt, args)
    decreases |fmt|
  {
    if fmt == [] then []
    else if fmt[0] != PERCENT then [fmt[0]] + Render(fmt[1..], args)
    else if |fmt| > 1 && fmt[1] == PERCENT then [PERCENT] + Render(fmt[2..], args)
    else if |fmt| > 1 && Conversion(fmt[1]) then Converted(fmt[1], args[0]) + Render(fmt[2..], args[1..])
    else fmt
  }

  /** %d and %x print the argument without leading zeros, and the text reads back as the argument. */
  lemma DigitsReadBack(n: u32)
    ensures var s := Converted(DECIMAL, Num(n));
      Numbers.Value(s, 10) == n && (|s| > 1 ==> s[0] != 48)
    ensures var s := Converted(HEX, Num(n));
      Numbers.Value(s, 16) == n && (|s| > 1 ==> s[0] != 48)
  {
    Numbers.TenDigitsSuffice(n);
    Numbers.LimitIrrelevant(n, 10, 10, 14);
    Numbers.LimitIrrelevant(n, 16, 8, 20);
    Numbers.PrintedCanonical(n, 10, 10);
    Numbers.PrintedCanonical(n, 16, 8);
  }

  /** The rendering, piece by piece: '%' doubled is itself, %c is one character, %s the string, %d and %x digits that
      read back as the number, an unknown conversion is printed with everything after it, and any other character is
      itself. */
  lemma RenderPieces(c: byte, rest: seq<byte>, n: u32, text: seq<byte>, args: seq<Arg>)
    requires Matches(rest, args)
    ensures c != 37 ==> Matches([c] + rest, args) && Render([c] + rest, args) == [c] + Render(rest, args)
    ensures Matches([37, 37] + rest, args) && Render([37, 37] + rest, args) == [37] + Render(rest, args)
    ensures Matches([37, 99] + rest, [Num(n)] + args)
      && Render([37, 99] + rest, [Num(n)] + args) == [n % 256] + Render(rest, args)
    ensures Matches([37, 115] + rest, [Str(text)] + args)
      && Render([37, 115] + rest, [Str(text)] + args) == text + Render(rest, args)
  {
    assert ([c] + rest)[1..] == rest && ([37, 37] + rest)[2..] == rest;
    assert ([37, 99] + rest)[2..] == rest && ([37, 115] + rest)[2..] == rest;
    assert ([Num(n)] + args)[1..] == args && ([Str(text)] + args)[1..] == args;
  }

  lemma RenderNumbers(rest: seq<byte>, n: u32, args: seq<Arg>) returns (dec: seq<byte>, hex: seq<byte>)
    requires Matches(rest, args)
    ensures Matches([37, 100] + rest, [Num(n)] + args) && Matches([37, 120] + rest, [Num(n)] + args)
    ensures Render([37, 100] + rest, [Num(n)] + args) == dec + Render(rest, args)
    ensures Render([37, 120] + rest, [Num(n)] + args) == hex + Render(rest, args)
    ensures Numbers.Value(dec, 10) == n && (|dec| > 1 ==> dec[0] != 48)
    ensures Numbers.Value(hex, 16) == n && (|hex| > 1 ==> hex[0] != 48)
  {
    dec, hex := Converted(DECIMAL, Num(n)), Converted(HEX, Num(n));
    DigitsReadBack(n);
    assert ([37, 100] + rest)[2..] == rest && ([37, 120] + rest)[2..] == rest && ([Num(n)] + args)[1..] == args;
  }

  lemma RenderUnknown(fmt: seq<byte>, args: seq<Arg>)
    requires fmt != [] && fmt[0] == 37
    requires |fmt| > 1 ==> fmt[1] != 37 && fmt[1] != 99 && fmt[1] != 115 && fmt[1] != 100 && fmt[1] != 120
    ensures Matches(fmt, args) && Render(fmt, args) == fmt
  {
  }

  lemma LiteralStep(c: byte, rest: seq<byte>, args: seq<Arg>)
    requires c != PERCENT && Matches([c] + rest, args)
    ensures Matches(rest, args) && Render([c] + rest, args) == [c] + Render(rest, args)
  {
    assert ([c] + rest)[1..] == rest;
  }

  lemma PercentStep(rest: seq<byte>, args: seq<Arg>)
    requires Matches([PERCENT, PERCENT] + rest, args)
    ensures Matches(rest, args) && Render([PERCENT, PERCENT] + rest, args) == [PERCENT] + Render(rest, args)
  {
    assert ([PERCENT, PERCENT] + rest)[2..] == rest;
  }

  lemma {:induction false} LiteralPrefix(p: seq<byte>, rest: seq<byte>, args: seq<Arg>)
    requires PERCENT !in p && Matches(p + rest, args)
    ensures Matches(rest, args) && Render(p + rest, args) == p + Render(rest, args)
    decreases |p|
  {
    if p == [] {
      assert p + rest == rest;
    } else {
      var tail := p[1..] + rest;
      assert p + rest == [p[0]] + tail && p[0] in p;
      LiteralStep(p[0], tail, args);
      LiteralPrefix(p[1..], rest, args);
      assert p + Render(rest, args) == [p[0]] + (p[1..] + Render(rest, args));
    }
  }

  /** A first character, doubled if it is '%', and a run without '%' render as they stand. */
  lemma LiteralChunk(c: byte, p: seq<byte>, rest: seq<byte>, args: seq<Arg>)
    requires PERCENT !in p
    requires Matches((if c == PERCENT then [c, c] else [c]) + (p + rest), args)
    ensures Matches(rest, args)
    ensures Render((if c == PERCENT then [c, c] else [c]) + (p + rest), args) == ([c] + p) + Render(rest, args)
  {
    if c == PERCENT {
      PercentStep(p + rest, args);
    } else {
      LiteralStep(c, p + rest, args);
    }
    LiteralPrefix(p, rest, args);
    Numbers.Regroup3([c], p, Render(rest, args));
  }

  /** One literal character and then up to the next '%'. */
  method ScanLiteral(fmt: seq<byte>, from: nat) returns (amt: nat)
    requires from < |fmt|
    ensures 0 < amt && from + amt <= |fmt| && PERCENT !in fmt[from + 1..from + amt]
    ensures from + amt < |fmt| ==> fmt[from + amt] == PERCENT
  {
    amt := 1;
    while from + amt < |fmt| && fmt[from + amt] != PERCENT
      invariant 1 <= amt && from + amt <= |fmt| && PERCENT !in fmt[from + 1..from + amt]
    {
      assert fmt[from + 1..from + (amt + 1)] == fmt[from + 1..from + amt] + [fmt[from + amt]];
      amt := amt + 1;
    }
  }

  /** The literal branch: past a doubled '%', then a run. */
  method LiteralRun(fmt: seq<byte>, f: nat, ghost args: seq<Arg>) returns (from: nat, amt: nat)
    requires f < |fmt| && (fmt[f] != PERCENT || (f + 1 < |fmt| && fmt[f + 1] == PERCENT))
    requires Matches(fmt[f..], args)
    ensures f <= from && 0 < amt && from + amt <= |fmt|
    ensures Matches(fmt[from + amt..], args)
    ensures Render(fmt[f..], args) == fmt[from..from + amt] + Render(fmt[from + amt..], args)
  {
    from := f;
    if fmt[f] == PERCENT {
      from := f + 1;
    }
    amt := ScanLiteral(fmt, from);
    ghost var c, p, rest := fmt[from], fmt[from + 1..from + amt], fmt[from + amt..];
    assert fmt[f..] == (if c == PERCENT then [c, c] else [c]) + (p + rest);
    assert fmt[from..from + amt] == [c] + p;
    LiteralChunk(c, p, rest, args);
  }

  /** The digit loop of the %x conversion. */
  method FillHex(num: u32, buff: array<byte>) returns (i: nat)
    requires buff.Length == 20
    modifies buff
    ensures i <= 20 && buff[..i] == Numbers.Digits(num, 16, 20)
  {
    var v: nat := num;
    i := 0;
    ghost var all := Numbers.Digits(num, 16, 20);
    assert all == buff[..i] + all;
    while v > 0 && i < 20
      invariant 0 <= i <= 20 && all == buff[..i] + Numbers.Digits(v, 16, 20 - i)
      decreases v
    {
      ghost var done := buff[..i];
      var r := v % 16;
      var c := if r < 10 then r + 48 else (r - 10) + 65;
      Numbers.Regroup(done, c, Numbers.Digits(v / 16, 16, 20 - i - 1));
      buff[i] := c;
      assert buff[..i + 1] == done + [c];
      i := i + 1;
      v := v / 16;
    }
    assert all == buff[..i];
  }

  /** The %x conversion, in its own 20-byte buffer. */
  method HexDigits(num: u32) returns (text: seq<byte>)
    ensures text == Converted(HEX, Num(num))
  {
    HexLength(num);
    var buff := new byte[20];
    var i := FillHex(num, buff);
    Numbers.Finish(buff, i, Numbers.Digits(num, 16, 20));
    text := buff[..if i == 0 then 1 else i];
  }

  lemma HexLength(num: u32)
    ensures |Numbers.Digits(num, 16, 20)| <= 8
  {
    Numbers.TenDigitsSuffice(num);
    Numbers.FitsExactly(num, 16, 8);
    Numbers.DigitsLimit(num, 16, 8, 20);
  }

  lemma DecimalLength(num: u32)
    ensures |Numbers.Printed(num, 10, 14)| <= 11
  {
    Numbers.TenDigitsSuffice(num);
    Numbers.LimitIrrelevant(num, 10, 10, 14);
  }

  /** The text a conversion writes. */
  method Convert(c: byte, arg: Arg) returns (text: seq<byte>)
    requires Conversion(c) && if c == STRING then arg.Str? else arg.Num?
    ensures text == Converted(c, arg)
  {
    if c == CHAR {
      text := [arg.n % 256];
    } else if c == STRING {
      text := arg.s;
    } else if c == DECIMAL {
      var buff := new byte[15];
      DecimalLength(arg.n);
      var len := Numbers.U32ToStr(arg.n, buff, 14);
      text := buff[..len];
    } else {
      text := HexDigits(arg.n);
    }
  }

  lemma ConversionStep(c: byte, rest: seq<byte>, args: seq<Arg>)
    requires Conversion(c) && Matches([PERCENT, c] + rest, args)
    ensures args != [] && (if c == STRING then args[0].Str? else args[0].Num?) && Matches(rest, args[1..])
    ensures Render([PERCENT, c] + rest, args) == Converted(c, args[0]) + Render(rest, args[1..])
  {
    assert ([PERCENT, c] + rest)[2..] == rest;
  }

  /** One turn of the loop: the next piece of text, and where format and arguments continue. */
  method Piece(fmt: seq<byte>, f: nat, args: seq<Arg>, a: nat) returns (text: seq<byte>, f': nat, a': nat)
    requires f < |fmt| && a <= |args| && Matches(fmt[f..], args[a..])
    ensures f < f' <= |fmt| && a' <= |args| && Matches(fmt[f'..], args[a'..])
    ensures Render(fmt[f..], args[a..]) == text + Render(fmt[f'..], args[a'..])
  {
    if fmt[f] != PERCENT || (f + 1 < |fmt| && fmt[f + 1] == PERCENT) {
      var from, amt := LiteralRun(fmt, f, args[a..]);
      text, f', a' := fmt[from..from + amt], from + amt, a;
    } else if f + 1 < |fmt| && Conversion(fmt[f + 1]) {
      assert fmt[f..] == [PERCENT, fmt[f + 1]] + fmt[f + 2..];
      ConversionStep(fmt[f + 1], fmt[f + 2..], args[a..]);
      assert args[a..][1..] == args[a + 1..] && args[a..][0] == args[a];
      text := Convert(fmt[f + 1], args[a]);
      f', a' := f + 2, a + 1;
    } else {
      text, f', a' := fmt[f..], |fmt|, a;
      assert fmt[f'..] == [];
    }
  }

  lemma CountStep(written: u32, sent: seq<byte>, text: seq<byte>)
    requires written == Wrap(|sent|)
    ensures Wrap(written + |text|) == Wrap(|sent + text|)
  {
    Numbers.WrapSum(|sent|, |text|);
  }

  /** printf: the terminal receives exactly the rendered text, the result counts its characters, and the
      screen is refreshed. */
  method Printf(console: VgaConsole.Console, fmt: seq<byte>, args: seq<Arg>) returns (written: u32)
    requires console.Holds() && Matches(fmt, args) && 0 !in fmt && forall a :: a in args && a.Str? ==> 0 !in a.s
    modifies console, console.virt, console.phys
    ensures console.Holds() && console.Shown()
    ensures console.state == Screen.Write(old(console.state), Render(fmt, args))
    ensures written == Wrap(|Render(fmt, args)|)
  {
    ghost var t0, sent, left := console.state, [], Render(fmt, args);
    var f, a := 0, 0;
    written := 0;
    assert fmt[f..] == fmt && args[a..] == args;
    while f < |fmt|
      invariant console.Holds() && f <= |fmt| && a <= |args|
      invariant Matches(fmt[f..], args[a..]) && left == Render(fmt[f..], args[a..])
      invariant sent + left == Render(fmt, args)
      invariant console.state == Screen.Write(t0, sent) && written == Wrap(|sent|)
      decreases |fmt| - f
    {
      var text;
      text, f, a := Piece(fmt, f, args, a);
      console.Write(text);
      Screen.WriteConcat(t0, sent, text);
      CountStep(written, sent, text);
      written := Wrap(written + |text|);
      left := Render(fmt[f..], args[a..]);
      Numbers.Regroup3(sent, text, left);
      sent := sent + text;
    }
    assert left == [] && sent + left == sent;
    console.Update();
  }

  const GREETING: seq<byte> := Ascii("VGA terminal initialized.") + [Screen.NEWLINE, Screen.RETURN]

  lemma {:induction false} PlainRender(s: seq<byte>)
    requires PERCENT !in s
    ensures Matches(s, []) && Render(s, []) == s
    decreases |s|
  {
    if s != [] {
      assert s[0] in s && s == [s[0]] + s[1..];
      PlainRender(s[1..]);
    }
  }

  /** A format without conversions. */
  method Greet(console: VgaConsole.Console, s: seq<byte>)
    requires console.Holds() && PERCENT !in s && 0 !in s
    modifies console, console.virt, console.phys
    ensures console.Holds() && console.Shown() && console.state == Screen.Write(old(console.state), s)
  {
    PlainRender(s);
    var written := Printf(console, s, []);
  }

  /** vga_term_init: blank buffers, then the greeting. */
  method VgaTermInit() returns (console: VgaConsole.Console)
    ensures console.Holds() && console.Shown() && fresh(console) && fresh(console.virt) && fresh(console.phys)
    ensures console.state == Screen.Write(Screen.Init(), GREETING)
  {
    console := new VgaConsole.Console();
    Greet(console, GREETING);
  }
}
