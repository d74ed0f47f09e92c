/** The virtual terminal refines an unbounded transcript that is only ever appended to and
    overwritten at the cursor. */
module Transcript {
  import opened Bytes
  import opened Screen

  /** Every line ever shown, the cursor as a line of the transcript, and the window. */
  datatype Log = Log(lines: seq<seq<byte>>, row: nat, col: nat, color: byte, start: u32)

  ghost predicate LogOk(g: Log) {
    && LINES <= |g.lines| && (forall y :: 0 <= y < |g.lines| ==> |g.lines[y]| == LINE_BYTES)
    && |g.lines| - LINES <= g.row < |g.lines| && g.col < WIDTH && g.start <= BOTTOM
  }

  function LogInit(): Log {
    Log(seq(LINES, _ => BlankLine(GREEN)), BOTTOM, 0, GREEN, BOTTOM)
  }

  /** Down a line; the transcript grows by a blank line when the cursor leaves its end. */
  function LogFeed(g: Log): Log {
    g.(row := g.row + 1, lines := g.lines + if g.row + 1 == |g.lines| then [BlankLine(g.color)] else [])
  }

  function LogPut(g: Log, c: byte): (r: Log)
    requires g.row < |g.lines| && |g.lines[g.row]| == LINE_BYTES && g.col < WIDTH
  {
    if c == NEWLINE then LogFeed(g.(start := BOTTOM, col := 0))
    else if c == RETURN then g.(col := 0)
    else if c == BACKSPACE then if g.col > 0 then g.(col := g.col - 1) else g
    else
      var g1 := g.(lines := g.lines[g.row := PutCell(g.lines[g.row], g.col, c, g.color)]);
      if g.col + 1 == WIDTH then LogFeed(g1.(col := 0)) else g1.(col := g.col + 1)
  }

  /** The last 100 lines, with the cursor's place among them. */
  function View(g: Log): Term
    requires LINES <= |g.lines| && |g.lines| - LINES <= g.row
  {
    Term(g.lines[|g.lines| - LINES..], g.row - (|g.lines| - LINES), g.col, g.color, g.start)
  }

  lemma ViewWellFormed(g: Log)
    requires LogOk(g)
    ensures WellFormed(View(g))
  {
  }

  datatype Typing = Char(c: byte) | Paint(fg: byte, bg: byte) | Window(val: u32)

  predicate TypingOk(op: Typing) {
    op.Paint? ==> op.fg < 16 && op.bg < 16
  }

  predicate AllOk(ops: seq<Typing>) {
    forall i :: 0 <= i < |ops| ==> TypingOk(ops[i])
  }

  function ToOp(op: Typing): Op {
    match op
    case Char(c) => Put(c)
    case Paint(fg, bg) => Color(fg, bg)
    case Window(val) => Scroll(val)
  }

  ghost function LogStep(g: Log, op: Typing): (r: Log)
    requires LogOk(g) && TypingOk(op)
    ensures LogOk(r)
  {
    match op
    case Char(c) => LogPut(g, c)
    case Paint(fg, bg) => g.(color := VgaEntryColor(fg, bg))
    case Window(val) =>
      ViewWellFormed(g);
      g.(start := ScrollTo(View(g), val).start)
  }

  ghost function LogRun(g: Log, ops: seq<Typing>): (r: Log)
    requires LogOk(g) && AllOk(ops)
    ensures LogOk(r)
    decreases |ops|
  {
    if ops == [] then g else LogRun(LogStep(g, ops[0]), ops[1..])
  }

  function ToOps(ops: seq<Typing>): (r: seq<Op>)
    ensures |r| == |ops| && forall i :: 0 <= i < |ops| ==> r[i] == ToOp(ops[i])
  {
    seq(|ops|, i requires 0 <= i < |ops| => ToOp(ops[i]))
  }

  lemma FeedRefines(g: Log)
    requires LogOk(g)
    ensures WellFormed(View(g)) && LogOk(LogFeed(g)) && View(LogFeed(g)) == LineFeed(View(g))
  {
    ViewWellFormed(g);
    var n := |g.lines| - LINES;
    if g.row + 1 == |g.lines| {
      assert LogFeed(g).lines[n + 1..] == g.lines[n..][1..] + [BlankLine(g.color)];
    } else {
      assert LogFeed(g).lines == g.lines;
    }
  }

  lemma CellRefines(g: Log, line: seq<byte>, col: nat)
    requires LogOk(g) && |line| == LINE_BYTES && col < WIDTH
    ensures LogOk(g.(lines := g.lines[g.row := line], col := col))
    ensures View(g.(lines := g.lines[g.row := line], col := col))
         == View(g).(lines := View(g).lines[View(g).row := line], col := col)
  {
    var n := |g.lines| - LINES;
    assert g.lines[g.row := line][n..] == g.lines[n..][g.row - n := line];
  }

  lemma PutRefines(g: Log, c: byte)
    requires LogOk(g)
    ensures WellFormed(View(g)) && LogOk(LogPut(g, c)) && View(LogPut(g, c)) == PutC(View(g), c)
  {
    ViewWellFormed(g);
    if c == NEWLINE {
      FeedRefines(g.(start := BOTTOM, col := 0));
    } else if c != RETURN && c != BACKSPACE {
      var line := PutCell(g.lines[g.row], g.col, c, g.color);
      if g.col + 1 == WIDTH {
        CellRefines(g, line, 0);
        FeedRefines(g.(lines := g.lines[g.row := line], col := 0));
      } else {
        CellRefines(g, line, g.col + 1);
      }
    }
  }

  /** After any typing, colour changes and window steps, the 100-line buffer is the last 100 lines of
      the transcript, with the cursor on the corresponding cell. */
  lemma {:induction false} RunRefines(g: Log, ops: seq<Typing>)
    requires LogOk(g) && AllOk(ops)
    ensures WellFormed(View(g)) && OpsOk(ToOps(ops))
    ensures Run(View(g), ToOps(ops)) == View(LogRun(g, ops))
    decreases |ops|
  {
    ViewWellFormed(g);
    assert forall i :: 0 <= i < |ops| ==> TypingOk(ops[i]) && OpOk(ToOps(ops)[i]);
    if ops != [] {
      var op := ops[0];
      if op.Char? {
        PutRefines(g, op.c);
      }
      assert ToOps(ops)[1..] == ToOps(ops[1..]);
      assert View(LogStep(g, op)) == Step(View(g), ToOp(op));
      RunRefines(LogStep(g, op), ops[1..]);
    }
  }

  lemma FromInit(ops: seq<Typing>)
    requires AllOk(ops)
    ensures LogOk(LogInit()) && OpsOk(ToOps(ops))
    ensures Run(Screen.Init(), ToOps(ops)) == View(LogRun(LogInit(), ops))
  {
    var g := LogInit();
    assert g.lines[|g.lines| - LINES..] == Screen.Init().lines;
    RunRefines(g, ops);
  }

  /** History is append-only: lines above the cursor are never changed, and the cursor never moves up. */
  lemma {:induction false} HistoryStable(g: Log, ops: seq<Typing>, y: nat)
    requires LogOk(g) && AllOk(ops) && y < g.row
    ensures y < |LogRun(g, ops).lines| && LogRun(g, ops).lines[y] == g.lines[y]
    ensures g.row <= LogRun(g, ops).row
    decreases |ops|
  {
    if ops != [] {
      HistoryStable(LogStep(g, ops[0]), ops[1..], y);
    }
  }
}
