/** kernel/arch/i386/vga_console.c over its two memory buffers, tied to the terminal model. */
module VgaConsole {
  import opened Bytes
  import opened CString
  import opened Screen
  import Numbers

  const VIRT_BYTES: nat := 160 * 102 // VIRT_WIDTH * (VIRT_HEIGHT + 2) cells
  const PHYS_BYTES: nat := 160 * 25

  /** The 100 lines held in the virtual buffer. */
  function Lines(b: seq<byte>): (r: seq<seq<byte>>)
    requires |b| == VIRT_BYTES
    ensures |r| == LINES
    ensures forall y :: 0 <= y < LINES ==> r[y] == b[160 * y..160 * y + 160]
  {
    seq(LINES, y requires 0 <= y < LINES => b[160 * y..160 * y + 160])
  }

  lemma LinesPut(b: seq<byte>, y: nat, x: nat, e: seq<byte>)
    requires |b| == VIRT_BYTES && y < LINES && x < WIDTH && |e| == 2
    ensures Lines(Splice(b, 160 * y + 2 * x, e)) == Lines(b)[y := Splice(Lines(b)[y], 2 * x, e)]
  {
    var b' := Splice(b, 160 * y + 2 * x, e);
    forall z | 0 <= z < LINES ensures Lines(b')[z] == Lines(b)[y := Splice(Lines(b)[y], 2 * x, e)][z] {
      SpliceSlice(b, 160 * y + 2 * x, e, 160 * z, 160 * z + 160);
    }
  }

  lemma LinesAre(b: seq<byte>, lines: seq<seq<byte>>)
    requires |b| == VIRT_BYTES && |lines| == LINES
    requires forall y :: 0 <= y < LINES ==> lines[y] == b[160 * y..160 * y + 160]
    ensures Lines(b) == lines
  {
  }

  // ----- the status bar -----

  const STAR: byte := 42 // '*'

  /** The banner, the window's first line in decimal, and the terminator, which is drawn too. */
  function BarText(start: u32): (r: seq<byte>) {
    Ascii(" GrainX Ver0.1! term: ") + Numbers.Printed(start, 10, 14) + [0]
  }

  /** One cell a character, in colours 1 to 7 in turn. */
  function Painted(s: seq<byte>): (r: seq<byte>)
    ensures |r| == 2 * |s|
  {
    seq(2 * |s|, k requires 0 <= k < 2 * |s| => if k % 2 == 0 then s[k / 2] else k / 2 % 7 + 1)
  }

  function BarCells(text: seq<byte>): (r: seq<byte>)
    ensures |r| == 2 * |text| + 4
  {
    [STAR, GREEN] + Painted(text) + [STAR, GREEN]
  }

  /** Two stars and the characters between them make up the bar. */
  lemma BarDrawn(was: seq<byte>, starred: seq<byte>, text: seq<byte>, offset: nat)
    requires |was| == |starred| == PHYS_BYTES && 1 <= |text| <= 25 && offset == WIDTH - (|text| + 1)
    requires starred == Splice(Splice(was, 2 * offset - 2, [STAR, GREEN]), 2 * (offset + |text|), [STAR, GREEN])
    ensures Splice(starred, 2 * offset, Painted(text)) == Splice(was, LINE_BYTES - 2 * |text| - 4, BarCells(text))
  {
  }

  function Bar(start: u32): (r: seq<byte>) {
    BarCells(BarText(start))
  }

  /** The string constant the number is copied into. */
  function Template(): (r: seq<byte>)
    ensures |r| == 27
  {
    Ascii(" GrainX Ver0.1! term:     ") + [0]
  }

  /** The constant with three characters of the number's text copied in holds the bar's text: behind a number
      of one digit they include its terminator and whatever follows. */
  lemma BannerText(start: u32, buff: seq<byte>, n: nat)
    requires start <= BOTTOM && |buff| == 15 && n == |Numbers.Printed(start, 10, 14)|
    requires n < 15 && buff[..n] == Numbers.Printed(start, 10, 14) && buff[n] == 0
    ensures var s := Splice(Template(), 22, buff[..3]);
      0 in s[0..] && Text(s, 0) + [0] == BarText(start)
  {
    BarLength(start);
    var s, text := Splice(Template(), 22, buff[..3]), BarText(start);
    forall k | 0 <= k < |text| ensures s[k] == text[k] {
      assert k < n ==> buff[..n][k] == buff[k];
      assert 22 <= k < 22 + n ==> text[k] == buff[..n][k - 22];
    }
    assert s[..|text|] == text;
    TerminatedText(s, text);
  }

  lemma BarLength(start: u32)
    requires start <= BOTTOM
    ensures 1 <= |Numbers.Printed(start, 10, 14)| <= 2 && |BarText(start)| <= 25
    ensures 0 !in BarText(start)[..|BarText(start)| - 1]
  {
    assert Numbers.Pow(10, 2) == 100;
    Numbers.LimitIrrelevant(start, 10, 2, 14);
    Numbers.PrintedAreDigits(start, 10, 14);
    var text := BarText(start);
    forall i | 0 <= i < |text| - 1 ensures text[i] != 0 {
      assert i >= 22 ==> text[i] in Numbers.Printed(start, 10, 14);
    }
  }

  /** Memory that starts with a text and its terminator holds that text. */
  lemma TerminatedText(s: seq<byte>, text: seq<byte>)
    requires 0 < |text| <= |s| && s[..|text|] == text && text[|text| - 1] == 0 && 0 !in text[..|text| - 1]
    ensures 0 in s[0..] && Text(s, 0) + [0] == text
  {
    var n := |text| - 1;
    var body := text[..n];
    assert s[0..n] == body && s[n] == text[n] == 0 && s[0..][n] == 0;
    TextSkip(s, 0, n);
    assert Text(s, n) == [];
    assert text == body + [0];
  }

  lemma SeventyFive()
    ensures Numbers.Printed(75, 10, 14) == [55, 53]
  {
    assert Numbers.Digits(7, 10, 13) == [55] + Numbers.Digits(0, 10, 12);
    assert Numbers.Digits(75, 10, 14) == [53] + Numbers.Digits(7, 10, 13);
    assert Numbers.Reverse<byte>([53, 55]) == [55, 53];
  }

  /** The bar of line 75: 25 characters, the terminator the last of them, between stars. */
  lemma BarAtBottom()
    ensures BarText(75) == Ascii(" GrainX Ver0.1! term: 75") + [0]
  {
    SeventyFive();
    assert Ascii(" GrainX Ver0.1! term: 75") == Ascii(" GrainX Ver0.1! term: ") + [55, 53];
  }

  /** The bar cell by cell: a green star, the characters in colours 1 to 7 in turn, a green star. */
  lemma BarCellsAre(text: seq<byte>)
    ensures var bar, n := BarCells(text), |text|;
      && |bar| == 2 * n + 4 && bar[0] == bar[2 * n + 2] == 42 && bar[1] == bar[2 * n + 3] == 2
      && forall i :: 0 <= i < n ==> bar[2 * i + 2] == text[i] && bar[2 * i + 3] == i % 7 + 1
  {
    var bar := BarCells(text);
    forall i | 0 <= i < |text| ensures bar[2 * i + 2] == text[i] && bar[2 * i + 3] == i % 7 + 1 {
      PaintedAt(text, i);
      BarIndex(text, 2 * i);
      BarIndex(text, 2 * i + 1);
    }
  }

  lemma BarIndex(text: seq<byte>, k: nat)
    requires k < |Painted(text)|
    ensures BarCells(text)[k + 2] == Painted(text)[k]
  {
  }

  lemma PaintedAt(text: seq<byte>, i: nat)
    requires i < |text|
    ensures Painted(text)[2 * i] == text[i] && Painted(text)[2 * i + 1] == i % 7 + 1
  {
    assert 2 * i % 2 == 0 && 2 * i / 2 == i && (2 * i + 1) % 2 == 1 && (2 * i + 1) / 2 == i;
  }

  /** A screen row with the status bar over its right end. */
  function WithBar(row: seq<byte>, start: u32): (r: seq<byte>)
    requires |row| == LINE_BYTES && start <= BOTTOM
  {
    BarLength(start);
    Splice(row, LINE_BYTES - |Bar(start)|, Bar(start))
  }

  ghost predicate Shows(phys: seq<byte>, virt: seq<byte>, start: u32)
    requires |phys| == PHYS_BYTES && |virt| == VIRT_BYTES && start <= BOTTOM
  {
    && phys[..160] == WithBar(Lines(virt)[start], start)
    && forall r :: 1 <= r < HEIGHT ==> phys[160 * r..160 * r + 160] == Lines(virt)[start + r]
  }

  /** The window's cells with the status bar drawn over the end of the first row. */
  lemma DrawnShows(window: seq<byte>, phys: seq<byte>, virt: seq<byte>, start: u32)
    requires |window| == PHYS_BYTES && |virt| == VIRT_BYTES && start <= BOTTOM
    requires window == virt[160 * start..160 * start + PHYS_BYTES]
    requires |Bar(start)| <= LINE_BYTES && phys == Splice(window, LINE_BYTES - |Bar(start)|, Bar(start))
    ensures Shows(phys, virt, start)
  {
    var bar, at := Bar(start), LINE_BYTES - |Bar(start)|;
    SpliceSlice(window, at, bar, 0, 160);
    assert window[0..160] == virt[160 * start..160 * start + 160] == Lines(virt)[start];
    assert phys[..160] == phys[0..160];
    forall r | 1 <= r < HEIGHT ensures phys[160 * r..160 * r + 160] == Lines(virt)[start + r] {
      SpliceSlice(window, at, bar, 160 * r, 160 * r + 160);
      assert window[160 * r..160 * r + 160] == virt[160 * (start + r)..160 * (start + r) + 160];
    }
  }

  /** The bar ends where the row ends, and what is left of it shows through. */
  lemma BarPlace(row: seq<byte>, start: u32)
    requires |row| == 160 && start <= 75
    ensures |WithBar(row, start)| == 160 && |Bar(start)| == 2 * |BarText(start)| + 4 <= 160
    ensures WithBar(row, start)[160 - |Bar(start)|..] == BarCells(BarText(start))
    ensures WithBar(row, start)[..160 - |Bar(start)|] == row[..160 - |Bar(start)|]
  {
    BarLength(start);
  }

  /** The text of the bar: the banner, the number in decimal, the terminator. */
  lemma BarReads(start: u32)
    requires start <= 75
    ensures |BarText(start)| > 23 && BarText(start)[..22] == Ascii(" GrainX Ver0.1! term: ")
    ensures BarText(start)[|BarText(start)| - 1] == 0
    ensures Numbers.Value(BarText(start)[22..|BarText(start)| - 1], 10) == start
  {
    BarLength(start);
    assert Numbers.Pow(10, 2) == 100;
    Numbers.LimitIrrelevant(start, 10, 2, 14);
    Numbers.PrintedCanonical(start, 10, 2);
    assert BarText(start)[22..|BarText(start)| - 1] == Numbers.Printed(start, 10, 14);
  }

  class Console {
    const virt: array<byte>
    const phys: array<byte>
    var tRow: nat
    var tCol: nat
    var termColor: byte
    var startLine: u32
    ghost var state: Term

    constructor ()
      ensures Holds() && state == Screen.Init() && fresh(virt) && fresh(phys)
    {
      var v := new byte[VIRT_BYTES](i => if i % 2 == 0 then SPACE else GREEN);
      virt := v;
      phys := new byte[PHYS_BYTES](i => if i % 2 == 0 then SPACE else GREEN);
      tRow, tCol, termColor, startLine := BOTTOM, 0, GREEN, BOTTOM;
      state := Screen.Init();
      new;
      LinesAre(virt[..], state.lines);
    }

    ghost predicate Holds()
      reads this, virt
    {
      && virt.Length == VIRT_BYTES && phys.Length == PHYS_BYTES && virt != phys
      && WellFormed(state)
      && state == Term(Lines(virt[..]), tRow, tCol, termColor, startLine)
    }

    /** The screen shows the window: rows 1..24 of text memory are the window's rows; row 0 is the window's
        first row under the status bar. */
    ghost predicate Shown()
      reads this, virt, phys
    {
      && virt.Length == VIRT_BYTES && phys.Length == PHYS_BYTES && startLine <= BOTTOM
      && Shows(phys[..], virt[..], startLine)
    }

    method SetColor(fg: byte, bg: byte)
      requires Holds() && fg < 16 && bg < 16
      modifies this
      ensures Holds() && state == Screen.SetColor(old(state), fg, bg)
    {
      termColor := VgaEntryColor(fg, bg);
      state := Screen.SetColor(state, fg, bg);
    }

    method PutCAt(c: byte, color: byte, x: nat, y: nat)
      requires Holds() && x < WIDTH && y < LINES
      modifies this`state, virt
      ensures Holds()
      ensures state == old(state).(lines := old(state).lines[y := PutCell(old(state).lines[y], x, c, color)])
    {
      ghost var b := virt[..];
      var cell := LE16(VgaEntry(c, color));
      var at := 2 * (y * WIDTH + x);
      virt[at] := cell[0];
      virt[at + 1] := cell[1];
      assert virt[..] == Splice(b, at, [c, color]);
      LinesPut(b, y, x, [c, color]);
      state := state.(lines := state.lines[y := PutCell(state.lines[y], x, c, color)]);
    }

    /** scroll_virtual_term: every line is copied over the one above it, in place. */
    method ScrollVirtual()
      requires Holds()
      modifies this`state, virt
      ensures Holds()
      ensures state == old(state).(lines := old(state).lines[1..] + [BlankLine(old(state).color)])
    {
      ghost var b := virt[..];
      var y := 0;
      while y < LINES - 1
        invariant 0 <= y <= LINES - 1
        invariant forall i :: 0 <= i < 160 * y ==> virt[i] == b[i + 160]
        invariant forall i :: 160 * y <= i < VIRT_BYTES ==> virt[i] == b[i]
        modifies virt
      {
        ghost var now := virt[..];
        Memcpy(virt, 160 * y, virt, 160 * (y + 1), 160);
        assert forall i :: 0 <= i < VIRT_BYTES ==> virt[i] == virt[..][i];
        y := y + 1;
      }
      var x := 0;
      while x < WIDTH
        invariant 0 <= x <= WIDTH
        invariant forall i :: 0 <= i < 160 * 99 ==> virt[i] == b[i + 160]
        invariant forall i :: 160 * 99 <= i < 160 * 99 + 2 * x ==> virt[i] == if i % 2 == 0 then SPACE else termColor
        modifies virt
      {
        var cell := LE16(VgaEntry(SPACE, termColor));
        virt[2 * ((LINES - 1) * WIDTH + x)] := cell[0];
        virt[2 * ((LINES - 1) * WIDTH + x) + 1] := cell[1];
        x := x + 1;
      }
      LinesScrolled(b, virt[..], termColor);
      state := state.(lines := state.lines[1..] + [BlankLine(state.color)]);
    }

    /** The banner with the first three characters of the line number's text copied in; behind a number of
        one digit that includes its terminator and whatever follows. */
    method StatusText() returns (str: array<byte>)
      requires startLine <= BOTTOM
      ensures fresh(str) && str.Length == 27 && 0 in str[0..]
      ensures Text(str[..], 0) + [0] == BarText(startLine)
    {
      var banner := Template();
      str := new byte[27](i requires 0 <= i < 27 => banner[i]);
      assert str[..] == banner;
      var buff := new byte[15];
      BarLength(startLine);
      var n := Numbers.U32ToStr(startLine, buff, 14);
      CopyThree(str, buff);
      BannerText(startLine, buff[..], n);
    }

    /** The loop that copies three characters of the number into the banner. */
    method CopyThree(str: array<byte>, buff: array<byte>)
      requires str.Length == 27 && buff.Length == 15 && str != buff
      modifies str
      ensures str[..] == Splice(old(str[..]), 22, buff[..3])
    {
      for i := 0 to 3
        invariant str[..] == Splice(old(str[..]), 22, buff[..i])
      {
        str[22 + i] := buff[i];
      }
    }

    /** Draw the status bar over the right end of row 0. */
    method StatusBar()
      requires startLine <= BOTTOM && phys.Length == PHYS_BYTES
      modifies phys
      ensures |Bar(startLine)| <= LINE_BYTES
      ensures phys[..] == Splice(old(phys[..]), LINE_BYTES - |Bar(startLine)|, Bar(startLine))
    {
      BarLength(startLine);
      var text := BarBytes();
      DrawBar(text);
    }

    /** The characters drawn: the text up to and with its terminator. */
    method BarBytes() returns (text: seq<byte>)
      requires startLine <= BOTTOM
      ensures text == BarText(startLine)
    {
      var str := StatusText();
      var len := Strlen(str, 0);
      assert str[..len] == Text(str[..], 0) && str[..len + 1] == str[..len] + [str[len]];
      text := str[..len + 1];
    }

    /** Stars around the characters, which end one cell before the edge. */
    method DrawBar(text: seq<byte>)
      requires 1 <= |text| <= 25 && phys.Length == PHYS_BYTES
      modifies phys
      ensures phys[..] == Splice(old(phys[..]), LINE_BYTES - 2 * |text| - 4, BarCells(text))
    {
      ghost var was := phys[..];
      var strLen := |text|;
      var offset := WIDTH - (strLen + 1);
      phys[2 * (offset - 1)], phys[2 * (offset - 1) + 1] := STAR, GREEN;
      phys[2 * (offset + strLen)], phys[2 * (offset + strLen) + 1] := STAR, GREEN;
      ghost var starred := phys[..];
      DrawText(text, offset);
      BarDrawn(was, starred, text, offset);
    }

    method DrawText(text: seq<byte>, offset: nat)
      requires offset + |text| <= WIDTH && phys.Length == PHYS_BYTES
      modifies phys
      ensures phys[..] == Splice(old(phys[..]), 2 * offset, Painted(text))
    {
      ghost var was, cells := phys[..], Painted(text);
      for i := 0 to |text|
        invariant forall k :: 0 <= k < PHYS_BYTES ==>
          phys[k] == if 2 * offset <= k < 2 * (offset + i) then cells[k - 2 * offset] else was[k]
        modifies phys
      {
        phys[2 * (offset + i)], phys[2 * (offset + i) + 1] := text[i], i % 7 + 1;
      }
    }

    /** Copy the window's cells to text memory. */
    method CopyWindow()
      requires Holds()
      modifies phys
      ensures forall i :: 0 <= i < PHYS_BYTES ==> phys[i] == virt[160 * startLine + i]
    {
      var at := 160 * startLine;
      var index := 0;
      while index < HEIGHT * WIDTH
        invariant 0 <= index <= HEIGHT * WIDTH
        invariant forall i :: 0 <= i < 2 * index ==> phys[i] == virt[at + i]
        modifies phys
      {
        phys[2 * index] := virt[at + 2 * index];
        phys[2 * index + 1] := virt[at + 2 * index + 1];
        index := index + 1;
      }
    }

    method WritePhysical()
      requires Holds()
      modifies phys
      ensures Holds() && Shown()
    {
      CopyWindow();
      ghost var window := phys[..];
      assert window == virt[..][160 * startLine..160 * startLine + PHYS_BYTES];
      StatusBar();
      DrawnShows(window, phys[..], virt[..], startLine);
    }

    method UpdateCursor() returns (pos: u16)
      requires Holds()
      ensures pos == CursorWord(state)
    {
      var row := Wrap(tRow as int - startLine);
      pos := (row * WIDTH + tCol) % 0x1_0000;
    }

    /** vga_term_pos: the recursive reset when the step would leave the buffer. */
    method Pos(val: u32)
      requires Holds()
      modifies this, phys
      ensures Holds() && Shown() && state == ScrollTo(old(state), val)
      decreases val != 0
    {
      var out := StepWindow(val);
      if out {
        Pos(0);
      }
      WritePhysical();
    }

    /** The step itself; `out` when it would leave the buffer, and nothing is changed. */
    method StepWindow(val: u32) returns (out: bool)
      requires Holds()
      modifies this`startLine, this`state
      ensures Holds()
      ensures if out then val != 0 && state == old(state) && ScrollTo(state, val) == ScrollTo(state, 0)
        else state == ScrollTo(old(state), val)
    {
      var i := Wrap(startLine as int + val);
      if val == 0 {
        startLine := BOTTOM;
      } else if i < BOTTOM + 1 && i > 0 {
        startLine := Wrap(startLine as int + val);
      } else {
        return true;
      }
      state := ScrollTo(state, val);
      out := false;
    }

    method LineDown()
      requires Holds()
      modifies this, virt
      ensures Holds() && state == LineFeed(old(state))
    {
      tRow := tRow + 1;
      if tRow == LINES {
        tRow := tRow - 1;
        ScrollVirtual();
      } else {
        state := LineFeed(state);
      }
    }

    method PutC(c: byte)
      requires Holds()
      modifies this, virt, phys
      ensures Holds() && state == Screen.PutC(old(state), c)
    {
      if c == NEWLINE {
        if startLine != BOTTOM {
          Pos(0);
        }
        tCol := 0;
        state := state.(col := 0);
        LineDown();
        return;
      }
      if c == RETURN {
        tCol := 0;
        state := state.(col := 0);
        return;
      }
      if c == BACKSPACE {
        if tCol != 0 {
          tCol := tCol - 1;
          state := state.(col := state.col - 1);
        }
        return;
      }
      PutCAt(c, termColor, tCol, tRow);
      tCol := tCol + 1;
      if tCol == WIDTH {
        tCol := 0;
        state := state.(col := 0);
        LineDown();
      } else {
        state := state.(col := state.col + 1);
      }
    }

    method Write(data: seq<byte>)
      requires Holds()
      modifies this, virt, phys
      ensures Holds() && state == Screen.Write(old(state), data)
    {
      var i := 0;
      while i < |data|
        invariant 0 <= i <= |data| && Holds()
        invariant Screen.Write(state, data[i..]) == Screen.Write(old(state), data)
      {
        assert data[i..][0] == data[i] && data[i..][1..] == data[i + 1..];
        PutC(data[i]);
        i := i + 1;
      }
    }

    method Update()
      requires Holds()
      modifies phys
      ensures Holds() && Shown()
    {
      var pos := UpdateCursor();
      WritePhysical();
    }

    method WriteStr(data: seq<byte>)
      requires Holds()
      modifies this, virt, phys
      ensures Holds() && Shown() && state == Screen.Write(old(state), data)
    {
      Write(data);
      Update();
    }

    method Clear()
      requires Holds()
      modifies this, virt, phys
      ensures Holds() && Shown() && state == Screen.Clear(old(state))
    {
      var k := 0;
      while k < LINES * WIDTH
        invariant 0 <= k <= LINES * WIDTH
        invariant forall i :: 0 <= i < 2 * k ==> virt[i] == if i % 2 == 0 then SPACE else termColor
        modifies virt
      {
        var cell := LE16(VgaEntry(SPACE, termColor));
        virt[2 * k] := cell[0];
        virt[2 * k + 1] := cell[1];
        k := k + 1;
      }
      tRow := startLine;
      tCol := 0;
      state := Cleared(state);
      LinesAre(virt[..], state.lines);
      var pos := UpdateCursor();
      WriteStr(ClearMessage());
    }
  }

  lemma LinesScrolled(b: seq<byte>, b': seq<byte>, color: byte)
    requires |b| == |b'| == VIRT_BYTES
    requires forall i :: 0 <= i < 160 * 99 ==> b'[i] == b[i + 160]
    requires forall i :: 160 * 99 <= i < 160 * 100 ==> b'[i] == if i % 2 == 0 then SPACE else color
    ensures Lines(b') == Lines(b)[1..] + [BlankLine(color)]
  {
    forall y | 0 <= y < 99 ensures Lines(b')[y] == Lines(b)[y + 1] {
    }
    var last := Lines(b')[99];
    forall k | 0 <= k < 160 ensures last[k] == BlankLine(color)[k] {
      assert last[k] == b'[160 * 99 + k] && (160 * 99 + k) % 2 == k % 2;
    }
    assert last == BlankLine(color);
  }
}
