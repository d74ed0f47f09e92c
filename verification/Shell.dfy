/** The command loop of kernel/kernel/kernel.c as far as the terminal goes: a line of input, a newline, and
    whatever the command prints.  The newline is what keeps clearing safe. */
module Shell {
  import opened Bytes
  import Screen
  import Keyboard
  import LineEditor

  /** What one command does to the terminal, the next prompt included: it prints, it clears the screen and
      prints, or (writing to a file) it prints, takes a second line of input and prints. */
  datatype Command =
    | Says(ops: seq<Screen.Op>)
    | Clears(ops: seq<Screen.Op>)
    | Asks(ask: seq<Screen.Op>, ops: seq<Screen.Op>)

  /** Printing and colour changes only. */
  predicate Talk(ops: seq<Screen.Op>) {
    Screen.OpsOk(ops) && forall i :: 0 <= i < |ops| ==> ops[i].Put? || ops[i].Color?
  }

  predicate CommandOk(c: Command) {
    Talk(c.ops) && (c.Asks? ==> Talk(c.ask))
  }

  const LINE: nat := 99  // tty_get_user_input(buff, 100)
  const DATA: nat := 249 // tty_get_user_input(data, 250)

  /** One turn of the loop.  The result is not done when the scancode stream ran out. */
  function Turn(kb: Keyboard.Kb, t: Screen.Term, stream: seq<byte>, c: Command): (r: LineEditor.Line)
    requires Screen.WellFormed(t) && LineEditor.CodesOk(stream) && CommandOk(c)
    ensures Screen.WellFormed(r.term)
  {
    var line := LineEditor.Session(kb, t, [], LINE, stream);
    if !line.done then line else
      var t1 := Screen.PutC(line.term, Screen.NEWLINE);
      match c
      case Says(ops) => line.(term := Screen.Run(t1, ops))
      case Clears(ops) => line.(term := Screen.Run(Screen.Clear(t1), ops))
      case Asks(ask, ops) =>
        RestOk(kb, t, [], LINE, stream);
        var data := LineEditor.Session(line.kb, Screen.Run(t1, ask), [], DATA, line.rest);
        if !data.done then data else data.(term := Screen.Run(data.term, ops))
  }

  /** The loop, over any sequence of commands. */
  function Loop(kb: Keyboard.Kb, t: Screen.Term, stream: seq<byte>, commands: seq<Command>): (r: LineEditor.Line)
    requires Screen.WellFormed(t) && LineEditor.CodesOk(stream)
    requires forall i :: 0 <= i < |commands| ==> CommandOk(commands[i])
    ensures Screen.WellFormed(r.term)
    decreases |commands|
  {
    if commands == [] then LineEditor.Line(true, [], kb, t, stream) else
      var r := Turn(kb, t, stream, commands[0]);
      TurnRest(kb, t, stream, commands[0]);
      if r.done then Loop(r.kb, r.term, r.rest, commands[1..]) else r
  }

  lemma {:induction false} RestOk(kb: Keyboard.Kb, t: Screen.Term, text: seq<byte>, cap: nat, stream: seq<byte>)
    requires Screen.WellFormed(t) && LineEditor.CodesOk(stream)
    ensures LineEditor.CodesOk(LineEditor.Session(kb, t, text, cap, stream).rest)
    decreases |stream|
  {
    if |text| < cap {
      LineEditor.KeyCodeOk(kb, stream);
      match Keyboard.NextKey(kb, stream)
      case Waiting(_) =>
      case Key(code, kb', rest) =>
        var key := LineEditor.KeyBytes(code);
        if !(LineEditor.Special(key) && LineEditor.Enter() <= key) {
          RestOk(kb', LineEditor.Echo(t, text, key, kb'.shift), LineEditor.Push(text, key, kb'.shift), cap, rest);
        }
    }
  }

  lemma TurnRest(kb: Keyboard.Kb, t: Screen.Term, stream: seq<byte>, c: Command)
    requires Screen.WellFormed(t) && LineEditor.CodesOk(stream) && CommandOk(c)
    ensures LineEditor.CodesOk(Turn(kb, t, stream, c).rest)
  {
    RestOk(kb, t, [], LINE, stream);
    var line := LineEditor.Session(kb, t, [], LINE, stream);
    if line.done && c.Asks? {
      RestOk(line.kb, Screen.Run(Screen.PutC(line.term, Screen.NEWLINE), c.ask), [], DATA, line.rest);
    }
  }

  // ----- the window -----

  lemma {:induction false} WriteWindow(t: Screen.Term, s: seq<byte>)
    requires Screen.WellFormed(t) && Screen.WindowOk(t)
    ensures Screen.WindowOk(Screen.Write(t, s))
    decreases |s|
  {
    if s != [] {
      WriteWindow(Screen.PutC(t, s[0]), s[1..]);
    }
  }

  lemma {:induction false} TalkWindow(t: Screen.Term, ops: seq<Screen.Op>)
    requires Screen.WellFormed(t) && Screen.WindowOk(t) && Talk(ops)
    ensures Screen.WindowOk(Screen.Run(t, ops))
    decreases |ops|
  {
    if ops != [] {
      assert ops[0].Put? || ops[0].Color?;
      assert Screen.OpOk(ops[0]);
      TalkWindow(Screen.Step(t, ops[0]), ops[1..]);
    }
  }

  lemma EchoWindow(t: Screen.Term, text: seq<byte>, key: seq<byte>, shift: bool)
    requires Screen.WellFormed(t) && Screen.WindowOk(t) && key != []
    ensures Screen.WindowOk(LineEditor.Echo(t, text, key, shift))
  {
    WriteWindow(t, [LineEditor.Typed(key, shift)]);
    WriteWindow(t, LineEditor.ERASE);
    Screen.ScrollWindow(t, TWO32 - 2);
    Screen.ScrollWindow(t, 2);
  }

  /** While a line is typed, scroll keys included, the window stays odd and in range. */
  lemma {:induction false} SessionWindow(kb: Keyboard.Kb, t: Screen.Term, text: seq<byte>, cap: nat, stream: seq<byte>)
    requires Screen.WellFormed(t) && LineEditor.CodesOk(stream) && Screen.WindowOk(t)
    ensures Screen.WindowOk(LineEditor.Session(kb, t, text, cap, stream).term)
    decreases |stream|
  {
    if |text| < cap {
      LineEditor.KeyCodeOk(kb, stream);
      match Keyboard.NextKey(kb, stream)
      case Waiting(_) =>
      case Key(code, kb', rest) =>
        var key := LineEditor.KeyBytes(code);
        if !(LineEditor.Special(key) && LineEditor.Enter() <= key) {
          EchoWindow(t, text, key, kb'.shift);
          var t', text' := LineEditor.Echo(t, text, key, kb'.shift), LineEditor.Push(text, key, kb'.shift);
          SessionWindow(kb', t', text', cap, rest);
        }
    }
  }

  lemma TurnWindow(kb: Keyboard.Kb, t: Screen.Term, stream: seq<byte>, c: Command)
    requires Screen.WellFormed(t) && LineEditor.CodesOk(stream) && CommandOk(c) && Screen.WindowOk(t)
    ensures Screen.WindowOk(Turn(kb, t, stream, c).term)
  {
    var line := LineEditor.Session(kb, t, [], LINE, stream);
    SessionWindow(kb, t, [], LINE, stream);
    if line.done {
      var t1 := Screen.PutC(line.term, Screen.NEWLINE);
      assert t1.start == Screen.BOTTOM && Screen.WindowOk(t1);
      match c {
        case Says(ops) => TalkWindow(t1, ops);
        case Clears(ops) =>
          Screen.ClearSafeExactly(t1);
          TalkWindow(Screen.Clear(t1), ops);
        case Asks(ask, ops) =>
          RestOk(kb, t, [], LINE, stream);
          TalkWindow(t1, ask);
          var t2 := Screen.Run(t1, ask);
          var data := LineEditor.Session(line.kb, t2, [], DATA, line.rest);
          SessionWindow(line.kb, t2, [], DATA, line.rest);
          if data.done {
            TalkWindow(data.term, ops);
          }
      }
    }
  }

  lemma {:induction false} LoopWindow(kb: Keyboard.Kb, t: Screen.Term, stream: seq<byte>, commands: seq<Command>)
    requires Screen.WellFormed(t) && Screen.WindowOk(t) && LineEditor.CodesOk(stream)
    requires forall i :: 0 <= i < |commands| ==> CommandOk(commands[i])
    ensures Screen.WindowOk(Loop(kb, t, stream, commands).term)
    decreases |commands|
  {
    if commands != [] {
      TurnWindow(kb, t, stream, commands[0]);
      TurnRest(kb, t, stream, commands[0]);
      var r := Turn(kb, t, stream, commands[0]);
      if r.done {
        LoopWindow(r.kb, r.term, r.rest, commands[1..]);
      }
    }
  }

  /** Over every run of the command loop, whatever is typed and whatever the commands print, the window starts
      at an odd line of 1..75, the cursor is in the bottom 25 lines, and the unsigned row distance sent to the
      cursor is the true one. */
  lemma LoopSafe(kb: Keyboard.Kb, t: Screen.Term, stream: seq<byte>, commands: seq<Command>)
    requires Screen.WellFormed(t) && Screen.WindowOk(t) && LineEditor.CodesOk(stream)
    requires forall i :: 0 <= i < |commands| ==> CommandOk(commands[i])
    ensures var r := Loop(kb, t, stream, commands).term;
      && Screen.WindowOk(r) && r.start <= r.row
      && Screen.CursorWord(r) == (r.row - r.start) * Screen.WIDTH + r.col
  {
    LoopWindow(kb, t, stream, commands);
    CursorTrue(Loop(kb, t, stream, commands).term);
  }

  lemma CursorTrue(t: Screen.Term)
    requires Screen.WellFormed(t) && Screen.WindowOk(t)
    ensures t.start <= t.row && Screen.CursorWord(t) == (t.row - t.start) * Screen.WIDTH + t.col
  {
  }

  /** The same from the initialised terminal, after whatever is printed before the first prompt. */
  lemma LoopSafeFromBoot(boot: seq<Screen.Op>, stream: seq<byte>, commands: seq<Command>)
    requires Talk(boot) && LineEditor.CodesOk(stream)
    requires forall i :: 0 <= i < |commands| ==> CommandOk(commands[i])
    ensures var r := Loop(Keyboard.Init(), Screen.Run(Screen.Init(), boot), stream, commands).term;
      && Screen.WindowOk(r) && r.start <= r.row
      && Screen.CursorWord(r) == (r.row - r.start) * Screen.WIDTH + r.col
  {
    TalkWindow(Screen.Init(), boot);
    LoopSafe(Keyboard.Init(), Screen.Run(Screen.Init(), boot), stream, commands);
  }
}
