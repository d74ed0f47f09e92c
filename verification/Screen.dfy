/** The virtual terminal of kernel/arch/i386/vga_console.c as a value: 100 lines of VGA text memory,
    a cursor, a colour and the first line of the 25-line window shown on the screen. */
module Screen {
  import opened Bytes

  const WIDTH: nat := 80       // VIRT_WIDTH == VGA_WIDTH
  const LINE_BYTES: nat := 160 // two bytes a cell
  const LINES: nat := 100      // VIRT_HEIGHT
  const HEIGHT: nat := 25      // VGA_HEIGHT
  const BOTTOM: nat := 75      // VIRT_HEIGHT - VGA_HEIGHT

  const NEWLINE: byte := 10
  const RETURN: byte := 13
  const BACKSPACE: byte := 8
  const SPACE: byte := 32
  const GREEN: byte := 2

  datatype Term = Term(lines: seq<seq<byte>>, row: nat, col: nat, color: byte, start: u32)

  function VgaEntryColor(fg: byte, bg: byte): (r: byte)
    requires fg < 16 && bg < 16
    ensures r % 16 == fg && r / 16 == bg
  {
    fg as int + 16 * (bg as int)
  }

  function VgaEntry(c: byte, color: byte): u16 {
    c as int + 256 * (color as int)
  }

  /** A cell in memory: character first, colour second. */
  lemma CellBytes(c: byte, color: byte)
    ensures LE16(VgaEntry(c, color)) == [c, color]
  {
  }

  function BlankLine(color: byte): (r: seq<byte>)
    ensures |r| == LINE_BYTES
    ensures forall x :: 0 <= x < WIDTH ==> r[2 * x] == SPACE && r[2 * x + 1] == color
  {
    seq(LINE_BYTES, i => if i % 2 == 0 then SPACE else color)
  }

  function PutCell(line: seq<byte>, x: nat, c: byte, color: byte): (r: seq<byte>)
    requires |line| == LINE_BYTES && x < WIDTH
    ensures |r| == LINE_BYTES
  {
    Splice(line, 2 * x, [c, color])
  }

  predicate WellFormed(t: Term) {
    && |t.lines| == LINES && (forall y :: 0 <= y < LINES ==> |t.lines[y]| == LINE_BYTES)
    && t.row < LINES && t.col < WIDTH && t.start <= BOTTOM
  }

  function Init(): (t: Term)
    ensures WellFormed(t)
  {
    Term(seq(LINES, _ => BlankLine(GREEN)), BOTTOM, 0, GREEN, BOTTOM)
  }

  /** The cursor moves down a line; at the bottom the buffer scrolls instead. */
  function LineFeed(t: Term): (r: Term)
    requires WellFormed(t)
    ensures WellFormed(r)
  {
    if t.row + 1 == LINES then t.(lines := t.lines[1..] + [BlankLine(t.color)]) else t.(row := t.row + 1)
  }

  function PutC(t: Term, c: byte): (r: Term)
    requires WellFormed(t)
    ensures WellFormed(r)
  {
    if c == NEWLINE then LineFeed(t.(start := BOTTOM, col := 0))
    else if c == RETURN then t.(col := 0)
    else if c == BACKSPACE then if t.col > 0 then t.(col := t.col - 1) else t
    else
      var t1 := t.(lines := t.lines[t.row := PutCell(t.lines[t.row], t.col, c, t.color)]);
      if t.col + 1 == WIDTH then LineFeed(t1.(col := 0)) else t1.(col := t.col + 1)
  }

  function Write(t: Term, s: seq<byte>): (r: Term)
    requires WellFormed(t)
    ensures WellFormed(r)
    decreases |s|, t
  {
    if s == [] then t else Write(PutC(t, s[0]), s[1..])
  }

  function SetColor(t: Term, fg: byte, bg: byte): Term
    requires fg < 16 && bg < 16
  {
    t.(color := VgaEntryColor(fg, bg))
  }

  /** vga_term_pos with its wrapping 32-bit step. */
  function ScrollTo(t: Term, val: u32): (r: Term)
    requires WellFormed(t)
    ensures WellFormed(r)
  {
    var i := Wrap(t.start as int + val);
    if val != 0 && 0 < i < BOTTOM + 1 then t.(start := i) else t.(start := BOTTOM)
  }

  function Cleared(t: Term): (r: Term)
    requires WellFormed(t)
    ensures WellFormed(r)
  {
    t.(lines := seq(LINES, _ => BlankLine(t.color)), row := t.start, col := 0)
  }

  function ClearMessage(): seq<byte> {
    Ascii("Term cleared.") + [RETURN, NEWLINE]
  }

  function Clear(t: Term): (r: Term)
    requires WellFormed(t)
    ensures WellFormed(r)
  {
    Write(Cleared(t), ClearMessage())
  }

  /** The 16-bit word sent to the cursor port: the row distance is an unsigned difference. */
  function CursorWord(t: Term): u16 {
    (Wrap(t.row as int - t.start) * WIDTH + t.col) % 0x1_0000
  }

  // ----- one character, cell by cell -----

  /** Character and colour of the cell in line y, column x. */
  predicate CellIs(t: Term, y: nat, x: nat, c: byte, color: byte)
    requires WellFormed(t) && y < 100 && x < 80
  {
    t.lines[y][2 * x] == c && t.lines[y][2 * x + 1] == color
  }

  predicate SameCell(t: Term, y: nat, t': Term, y': nat, x: nat)
    requires WellFormed(t) && WellFormed(t') && y < 100 && y' < 100 && x < 80
  {
    t'.lines[y'][2 * x] == t.lines[y][2 * x] && t'.lines[y'][2 * x + 1] == t.lines[y][2 * x + 1]
  }

  /** The cursor moved down a line: on the last line the buffer moves up instead, and its last line is blank. */
  ghost predicate Down(t: Term, t': Term)
    requires WellFormed(t) && WellFormed(t')
  {
    && t'.color == t.color
    && if t.row < 99 then t'.row == t.row + 1 && t'.lines == t.lines
       else
         && t'.row == 99 && (forall x :: 0 <= x < 80 ==> CellIs(t', 99, x, 32, t.color))
         && forall y :: 0 <= y < 99 ==> t'.lines[y] == t.lines[y + 1]
  }

  lemma FeedIsDown(t: Term)
    requires WellFormed(t)
    ensures Down(t, LineFeed(t)) && LineFeed(t).col == t.col && LineFeed(t).start == t.start
  {
  }

  /** Newline goes to the start of the next line and the window to the bottom; return to the start of the line;
      backspace one column back. */
  lemma ControlCharacters(t: Term)
    requires WellFormed(t)
    ensures var r := PutC(t, 10);
      Down(t, r) && r.col == 0 && r.start == 75
    ensures PutC(t, 13) == t.(col := 0)
    ensures PutC(t, 8) == t.(col := if t.col == 0 then 0 else t.col - 1)
  {
    FeedIsDown(t.(start := BOTTOM, col := 0));
  }

  /** Any other character is drawn in the current colour in the cursor's cell and nowhere else; then the cursor is one
      column on, and behind the last column at the start of the next line. */
  lemma OtherCharacter(t: Term, c: byte)
    requires WellFormed(t) && c != 10 && c != 13 && c != 8
    ensures exists t1: Term :: Drawn(t, t1, c) && Moved(t1, PutC(t, c))
  {
    var t1 := t.(lines := t.lines[t.row := PutCell(t.lines[t.row], t.col, c, t.color)]);
    assert Drawn(t, t1, c);
    if t.col == 79 {
      FeedIsDown(t1.(col := 0));
    }
  }

  ghost predicate Moved(t1: Term, r: Term)
    requires WellFormed(t1) && WellFormed(r)
  {
    if t1.col < 79 then r == t1.(col := t1.col + 1) else Down(t1, r) && r.col == 0 && r.start == t1.start
  }

  /** Only the cursor's cell differs, and holds the character in the current colour. */
  ghost predicate Drawn(t: Term, t1: Term, c: byte)
    requires WellFormed(t)
  {
    && WellFormed(t1) && t1.row == t.row && t1.col == t.col && t1.color == t.color && t1.start == t.start
    && CellIs(t1, t.row, t.col, c, t.color)
    && forall y, x :: 0 <= y < 100 && 0 <= x < 80 && !(y == t.row && x == t.col) ==> SameCell(t, y, t1, y, x)
  }

  /** The initialised terminal: blank in green on black, the cursor and the window on line 75. */
  lemma InitCells()
    ensures var t := Init();
      && t.row == 75 && t.col == 0 && t.start == 75 && t.color == 2
      && forall y, x :: 0 <= y < 100 && 0 <= x < 80 ==> CellIs(t, y, x, 32, 2)
  {
  }

  /** A window step by any value, in 32 bits: to that line if it is one of 1 to 75, else to 75, and a step by zero goes
      there too. */
  lemma ScrollExactly(t: Term, val: u32)
    requires WellFormed(t)
    ensures ScrollTo(t, val) == t.(start := ScrollTo(t, val).start)
    ensures var to := (t.start as int + val) % 0x1_0000_0000;
      ScrollTo(t, val).start == if val != 0 && 1 <= to <= 75 then to else 75
  {
  }

  lemma WriteOne(t: Term, c: byte)
    requires WellFormed(t)
    ensures Write(t, []) == t && Write(t, [c]) == PutC(t, c)
  {
    assert [c][1..] == [];
    assert Write(t, [c]) == Write(PutC(t, c), []);
  }

  /** The cursor word is the distance in cells modulo 2^16, also when the row lies above the window. */
  lemma CursorWordExactly(t: Term)
    requires WellFormed(t)
    ensures (CursorWord(t) - ((t.row - t.start) * 80 + t.col)) % 65536 == 0
  {
    var w := Wrap(t.row as int - t.start);
    assert w == t.row - t.start || w == t.row - t.start + TWO32;
    var p := w * 80 + t.col;
    assert p % 65536 == CursorWord(t);
    assert TWO32 * 80 == 65536 * 5242880;
  }

  datatype Op = Put(c: byte) | Color(fg: byte, bg: byte) | Scroll(val: u32) | ClearAll

  predicate OpOk(op: Op) {
    op.Color? ==> op.fg < 16 && op.bg < 16
  }

  predicate OpsOk(ops: seq<Op>) {
    forall i :: 0 <= i < |ops| ==> OpOk(ops[i])
  }

  function Step(t: Term, op: Op): (r: Term)
    requires WellFormed(t) && OpOk(op)
    ensures WellFormed(r)
  {
    match op
    case Put(c) => PutC(t, c)
    case Color(fg, bg) => SetColor(t, fg, bg)
    case Scroll(val) => ScrollTo(t, val)
    case ClearAll => Clear(t)
  }

  function Run(t: Term, ops: seq<Op>): (r: Term)
    requires WellFormed(t) && OpsOk(ops)
    ensures WellFormed(r)
    decreases |ops|
  {
    if ops == [] then t else Run(Step(t, ops[0]), ops[1..])
  }

  lemma {:induction false} WriteConcat(t: Term, a: seq<byte>, b: seq<byte>)
    requires WellFormed(t)
    ensures Write(t, a + b) == Write(Write(t, a), b)
    decreases |a|
  {
    if a == [] {
      assert a + b == b;
    } else {
      assert (a + b)[0] == a[0] && (a + b)[1..] == a[1..] + b;
      WriteConcat(PutC(t, a[0]), a[1..], b);
    }
  }

  // ----- plain text on one line -----

  predicate Plain(s: seq<byte>) {
    NEWLINE !in s && RETURN !in s && BACKSPACE !in s
  }

  /** The characters of `s` as cells of one colour. */
  function Cells(s: seq<byte>, color: byte): (r: seq<byte>)
    ensures |r| == 2 * |s|
  {
    if s == [] then [] else [s[0], color] + Cells(s[1..], color)
  }

  /** Text without control characters that ends before the right edge is laid out in place on the
      cursor's line and touches nothing else. */
  lemma {:induction false} PlainWrite(t: Term, s: seq<byte>)
    requires WellFormed(t) && Plain(s) && t.col + |s| < WIDTH
    ensures Write(t, s) ==
      t.(lines := t.lines[t.row := Splice(t.lines[t.row], 2 * t.col, Cells(s, t.color))], col := t.col + |s|)
    decreases |s|
  {
    var line := t.lines[t.row];
    if s == [] {
      assert Splice(line, 2 * t.col, []) == line;
      assert t.lines[t.row := line] == t.lines;
    } else {
      assert s[0] in s && Plain(s[1..]);
      var t1 := PutC(t, s[0]);
      PlainWrite(t1, s[1..]);
      var line1 := PutCell(line, t.col, s[0], t.color);
      assert t1.lines[t.row] == line1;
      assert Splice(line1, 2 * t.col + 2, Cells(s[1..], t.color)) == Splice(line, 2 * t.col, Cells(s, t.color));
      assert t1.lines[t.row := Splice(line, 2 * t.col, Cells(s, t.color))]
          == t.lines[t.row := Splice(line, 2 * t.col, Cells(s, t.color))];
    }
  }

  // ----- the scroll window -----

  /** The window starts at an odd line of 1..75 and the cursor is in the bottom 25 lines. */
  predicate WindowOk(t: Term) {
    t.start % 2 == 1 && 1 <= t.start <= BOTTOM && BOTTOM <= t.row < LINES
  }

  /** The operations the running kernel performs: window steps of 0, +2 and -2, and no clear between
      a window step and the newline that precedes every command.  `reset` says that no window step
      has come since the last newline. */
  predicate KernelRun(ops: seq<Op>, reset: bool)
    decreases |ops|
  {
    ops == [] ||
    match ops[0]
    case Put(c) => KernelRun(ops[1..], reset || c == NEWLINE)
    case Color(_, _) => KernelRun(ops[1..], reset)
    case Scroll(val) => (val == 0 || val == 2 || val == TWO32 - 2) && KernelRun(ops[1..], false)
    case ClearAll => reset && KernelRun(ops[1..], true)
  }

  lemma MessagePlain()
    ensures Plain(Ascii("Term cleared.")) && |Ascii("Term cleared.")| == 13
  {
  }

  /** Clearing puts the cursor one line under the window's first line and the window at the bottom. */
  lemma ClearShape(t: Term)
    requires WellFormed(t)
    ensures Clear(t).start == BOTTOM && Clear(t).row == t.start + 1 && Clear(t).col == 0
  {
    var t0, msg := Cleared(t), Ascii("Term cleared.");
    MessagePlain();
    WriteConcat(t0, msg, [RETURN, NEWLINE]);
    PlainWrite(t0, msg);
    var t1 := Write(t0, msg);
    WriteConcat(t1, [RETURN], [NEWLINE]);
    assert [RETURN] + [NEWLINE] == [RETURN, NEWLINE];
    var t2 := PutC(t1, RETURN);
    assert Write(t1, [RETURN]) == t2;
    assert Write(t2, [NEWLINE]) == PutC(t2, NEWLINE);
  }

  /** Clearing blanks every line in the current colour but the one the window started at, which shows the message. */
  lemma ClearLines(t: Term)
    requires WellFormed(t)
    ensures var r := Clear(t);
      && r.color == t.color
      && (forall y, x :: 0 <= y < 100 && 0 <= x < 80 && y != t.start ==> CellIs(r, y, x, 32, t.color))
      && (forall x :: 0 <= x < 13 ==> CellIs(r, t.start, x, "Term cleared."[x] as int % 256, t.color))
      && (forall x :: 13 <= x < 80 ==> CellIs(r, t.start, x, 32, t.color))
  {
    var msg := Ascii("Term cleared.");
    var t1 := MessageWritten(t, msg);
    ClearedCells(t, t1, msg);
  }

  /** Clearing is writing the message on the blank lines, and then only the cursor moves. */
  lemma MessageWritten(t: Term, msg: seq<byte>) returns (t1: Term)
    requires WellFormed(t) && msg == Ascii("Term cleared.")
    ensures WellFormed(t1) && Clear(t).lines == t1.lines && Clear(t).color == t.color
    ensures t1.lines == Cleared(t).lines[t.start := Splice(Cleared(t).lines[t.start], 0, Cells(msg, t.color))]
  {
    var t0 := Cleared(t);
    MessagePlain();
    WriteConcat(t0, msg, [RETURN, NEWLINE]);
    PlainWrite(t0, msg);
    t1 := Write(t0, msg);
    EndLine(t1);
  }

  lemma EndLine(t: Term)
    requires WellFormed(t)
    ensures Write(t, [RETURN, NEWLINE]) == PutC(PutC(t, RETURN), NEWLINE)
  {
    assert [RETURN, NEWLINE][1..] == [NEWLINE] && [NEWLINE][1..] == [];
    assert Write(t, [RETURN, NEWLINE]) == Write(PutC(t, RETURN), [NEWLINE]);
    assert Write(PutC(t, RETURN), [NEWLINE]) == Write(PutC(PutC(t, RETURN), NEWLINE), []);
  }

  lemma ClearedCells(t: Term, t1: Term, msg: seq<byte>)
    requires WellFormed(t) && WellFormed(t1) && |msg| == 13
    requires t1.lines == Cleared(t).lines[t.start := Splice(Cleared(t).lines[t.start], 0, Cells(msg, t.color))]
    ensures forall y, x :: 0 <= y < 100 && 0 <= x < 80 && y != t.start ==> CellIs(t1, y, x, 32, t.color)
    ensures forall x :: 0 <= x < 13 ==> CellIs(t1, t.start, x, msg[x], t.color)
    ensures forall x :: 13 <= x < 80 ==> CellIs(t1, t.start, x, 32, t.color)
  {
    CellsAt(msg, t.color);
    var line := t1.lines[t.start];
    forall x | 0 <= x < 80 ensures line[2 * x] == (if x < 13 then msg[x] else 32) && line[2 * x + 1] == t.color {
      assert Cleared(t).lines[t.start][2 * x] == 32 && Cleared(t).lines[t.start][2 * x + 1] == t.color;
    }
  }

  lemma {:induction false} CellsAt(s: seq<byte>, color: byte)
    ensures forall x :: 0 <= x < |s| ==> Cells(s, color)[2 * x] == s[x] && Cells(s, color)[2 * x + 1] == color
    decreases |s|
  {
    if s != [] {
      CellsAt(s[1..], color);
      forall x | 0 <= x < |s| ensures Cells(s, color)[2 * x] == s[x] && Cells(s, color)[2 * x + 1] == color {
        if x > 0 {
          assert Cells(s, color)[2 * x] == Cells(s[1..], color)[2 * (x - 1)];
          assert Cells(s, color)[2 * x + 1] == Cells(s[1..], color)[2 * (x - 1) + 1];
        }
      }
    }
  }

  /** The row distance stays non-negative after a clear exactly when the window was at the bottom. */
  lemma ClearSafeExactly(t: Term)
    requires WellFormed(t) && WindowOk(t)
    ensures Clear(t).start <= Clear(t).row <==> t.start == BOTTOM
    ensures t.start == BOTTOM ==> WindowOk(Clear(t))
  {
    ClearShape(t);
  }

  /** In every kernel run the window stays odd and in range, the cursor stays in the bottom 25 lines,
      and the unsigned row distance is the true one. */
  lemma {:induction false} WindowSafe(t: Term, ops: seq<Op>, reset: bool)
    requires WellFormed(t) && WindowOk(t) && (reset ==> t.start == BOTTOM)
    requires OpsOk(ops) && KernelRun(ops, reset)
    ensures var r := Run(t, ops);
      WindowOk(r) && r.start <= r.row && CursorWord(r) == (r.row - r.start) * WIDTH + r.col
    decreases |ops|
  {
    if ops != [] {
      assert OpOk(ops[0]);
      var t' := Step(t, ops[0]);
      match ops[0] {
        case Put(c) => WindowSafe(t', ops[1..], reset || c == NEWLINE);
        case Color(_, _) => WindowSafe(t', ops[1..], reset);
        case Scroll(val) =>
          ScrollWindow(t, val);
          WindowSafe(t', ops[1..], false);
        case ClearAll =>
          ClearShape(t);
          WindowSafe(t', ops[1..], true);
      }
    }
  }

  lemma ScrollWindow(t: Term, val: u32)
    requires WellFormed(t) && WindowOk(t) && (val == 0 || val == 2 || val == TWO32 - 2)
    ensures WindowOk(ScrollTo(t, val)) && ScrollTo(t, val) == t.(start := ScrollTo(t, val).start)
    ensures val == 0 ==> ScrollTo(t, val).start == 75
    ensures val == TWO32 - 2 ==> ScrollTo(t, val).start == if t.start == 1 then BOTTOM else t.start - 2
    ensures val == 2 ==> ScrollTo(t, val).start == if t.start == BOTTOM then BOTTOM else t.start + 2
  {
    assert val == TWO32 - 2 ==> Wrap(t.start as int + val) == Wrap(t.start as int - 2);
  }
}
