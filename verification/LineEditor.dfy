/** The line editor of kernel/arch/i386/tty.c: keys from the scancode stream, echo on the terminal, and
    an index that is stepped below zero on purpose. */
module LineEditor {
  import opened Bytes
  import opened CString
  import Screen
  import Keyboard
  import VgaConsole

  const KEYS: nat := 85

  /** scancode_to_str: entry `code - 1` of the table. */
  function KeyName(code: byte): (r: string)
    requires 1 <= code <= KEYS
  {
    match code
    case 1 => "<esc>"
    case 2 => "1"
    case 3 => "2"
    case 4 => "3"
    case 5 => "4"
    case 6 => "5"
    case 7 => "6"
    case 8 => "7"
    case 9 => "8"
    case 10 => "9"
    case 11 => "0"
    case 12 => "-"
    case 13 => "="
    case 14 => "<backspace>"
    case 15 => "<tab>"
    case 16 => "q"
    case 17 => "w"
    case 18 => "e"
    case 19 => "r"
    case 20 => "t"
    case 21 => "y"
    case 22 => "u"
    case 23 => "i"
    case 24 => "o"
    case 25 => "p"
    case 26 => "["
    case 27 => "]"
    case 28 => "<enter>"
    case 29 => "<left_ctrl>"
    case 30 => "a"
    case 31 => "s"
    case 32 => "d"
    case 33 => "f"
    case 34 => "g"
    case 35 => "h"
    case 36 => "j"
    case 37 => "k"
    case 38 => "l"
    case 39 => ";"
    case 40 => "'"
    case 41 => "`"
    case 42 => "<left_shift>"
    case 43 => "\\"
    case 44 => "z"
    case 45 => "x"
    case 46 => "c"
    case 47 => "v"
    case 48 => "b"
    case 49 => "n"
    case 50 => "m"
    case 51 => ","
    case 52 => "."
    case 53 => "/"
    case 54 => "<right_shift>"
    case 55 => "(keypad *)"
    case 56 => "<left_alt>"
    case 57 => " "
    case 58 => "<capslock>"
    case 59 => "<F1>"
    case 60 => "<F2>"
    case 61 => "<F3>"
    case 62 => "<F4>"
    case 63 => "<F5>"
    case 64 => "<F6>"
    case 65 => "<F7>"
    case 66 => "<F8>"
    case 67 => "<F9>"
    case 68 => "<F10>"
    case 69 => "<numlock>"
    case 70 => "<scroll_lock>"
    case 71 => "(keypad 7)"
    case 72 => "(keypad 8)"
    case 73 => "(keypad 9)"
    case 74 => "(keypad -)"
    case 75 => "(keypad 4)"
    case 76 => "(keypad 5)"
    case 77 => "(keypad 6)"
    case 78 => "(keypad +)"
    case 79 => "(keypad 1)"
    case 80 => "(keypad 2)"
    case 81 => "(keypad 3)"
    case 82 => "(keypad 0)"
    case 83 => "(keypad .)"
    case 84 => "<F11>"
    case _ => "<F12>"
  }

  /** The key name as the NUL-terminated string the editor is given. */
  function KeyBytes(code: byte): (r: seq<byte>)
    requires 1 <= code <= KEYS
    ensures |r| == |KeyName(code)| + 1 && 0 in r
  {
    assert (Ascii(KeyName(code)) + [0])[|KeyName(code)|] == 0;
    Ascii(KeyName(code)) + [0]
  }

  function Enter(): seq<byte> { Ascii("<enter>") }
  function Backspace(): seq<byte> { Ascii("<backspace>") }
  function F2(): seq<byte> { Ascii("<F2>") }
  function F3(): seq<byte> { Ascii("<F3>") }

  predicate Printable(c: byte) {
    32 <= c < 127
  }

  /** The first characters of a name are ASCII. */
  predicate AsciiHead(s: string) {
    s != "" && 32 <= s[0] as int < 127 && (|s| > 1 ==> s[1] as int < 128) && (|s| > 2 ==> s[2] as int < 128)
  }

  /** The names the editor looks for, and how no other name begins. */
  predicate KeyHead(code: byte, s: string) {
    && (code == 28 ==> s == "<enter>") && (|s| > 2 && s[0] == '<' && s[1] == 'e' && s[2] == 'n' ==> code == 28)
    && (code == 14 ==> s == "<backspace>") && (|s| > 2 && s[0] == '<' && s[1] == 'b' ==> code == 14)
    && (code == 60 ==> s == "<F2>") && (|s| > 2 && s[0] == '<' && s[1] == 'F' && s[2] == '2' ==> code == 60)
    && (code == 61 ==> s == "<F3>") && (|s| > 2 && s[0] == '<' && s[1] == 'F' && s[2] == '3' ==> code == 61)
  }

  lemma AsciiHeads(code: byte)
    requires 1 <= code <= KEYS
    ensures AsciiHead(KeyName(code))
  {
  }

  lemma KeyHeads(code: byte)
    requires 1 <= code <= KEYS
    ensures KeyHead(code, KeyName(code))
  {
  }

  lemma HeadBytes(code: byte, name: string)
    requires AsciiHead(name) && KeyHead(code, name)
    ensures var s := Ascii(name) + [0];
      && Printable(s[0])
      && (Enter() <= s <==> code == 28) && (Backspace() <= s <==> code == 14)
      && (F2() <= s <==> code == 60) && (F3() <= s <==> code == 61)
  {
    var s := Ascii(name) + [0];
    assert Enter() <= s ==> |s| > 6 && s[0] == 60 && s[1] == 101 && s[2] == 110;
    assert Backspace() <= s ==> |s| > 10 && s[0] == 60 && s[1] == 98;
    assert F2() <= s ==> |s| > 3 && s[0] == 60 && s[1] == 70 && s[2] == 50;
    assert F3() <= s ==> |s| > 3 && s[0] == 60 && s[1] == 70 && s[2] == 51;
  }

  /** The editor's tests on key names single out one key each. */
  lemma Names(code: byte)
    requires 1 <= code <= KEYS
    ensures Printable(KeyBytes(code)[0])
    ensures Enter() <= KeyBytes(code) <==> code == 28
    ensures Backspace() <= KeyBytes(code) <==> code == 14
    ensures F2() <= KeyBytes(code) <==> code == 60
    ensures F3() <= KeyBytes(code) <==> code == 61
  {
    AsciiHeads(code);
    KeyHeads(code);
    HeadBytes(code, KeyName(code));
  }

  /** The character a shifted key types. */
  function Shifted(c: byte): byte {
    match c
    case 49 => 33 // 1 gives !
    case 50 => 64 // 2 gives @
    case 51 => 35 // 3 gives #
    case 52 => 36 // 4 gives $
    case 53 => 37 // 5 gives %
    case 54 => 94 // 6 gives ^
    case 55 => 38 // 7 gives &
    case 56 => 42 // 8 gives *
    case 57 => 40 // 9 gives (
    case 48 => 41 // 0 gives )
    case 45 => 95 // - gives _
    case 61 => 43 // = gives +
    case 96 => 126 // ` gives ~
    case 91 => 123 // [ gives {
    case 93 => 125 // ] gives }
    case 92 => 124 // \ gives |
    case 59 => 58 // ; gives :
    case 39 => 34 // ' gives "
    case 44 => 60 // , gives <
    case 46 => 62 // . gives >
    case 47 => 63 // / gives ?
    case _ => if 97 <= c <= 122 then c - 32 else c
  }

  /** The keys that type a character, row by row: each name is that character. */
  lemma KeyRows(i: nat)
    ensures i < 12 ==> KeyName(2 + i) == ["1234567890-="[i]]
    ensures i < 12 ==> KeyName(16 + i) == ["qwertyuiop[]"[i]]
    ensures i < 12 ==> KeyName(30 + i) == ["asdfghjkl;'`"[i]]
    ensures i < 11 ==> KeyName(43 + i) == ["\\zxcvbnm,./"[i]]
    ensures KeyName(57) == [' ']
  {
  }

  predicate TypingKey(code: byte) {
    2 <= code < 14 || 16 <= code < 28 || 30 <= code < 42 || 43 <= code < 54 || code == 57
  }

  lemma TypingNames(code: byte)
    requires 1 <= code <= KEYS && TypingKey(code)
    ensures |KeyName(code)| == 1 && KeyName(code)[0] != '<' && KeyName(code)[0] != '('
  {
  }

  /** Every other key's name starts with '<' or '('. */
  lemma OtherKeys(code: byte)
    requires 1 <= code <= KEYS && !TypingKey(code)
    ensures |KeyName(code)| > 2 && (KeyName(code)[0] == '<' || KeyName(code)[0] == '(')
  {
  }

  /** With shift held, digits and signs type the character above them, letters the capital, and nothing else changes. */
  lemma ShiftRow(i: nat, c: byte)
    ensures i < 21 ==> Shifted("1234567890-=`[]\\;',./"[i] as int % 256) == "!@#$%^&*()_+~{}|:\"<>?"[i] as int % 256
    ensures 97 <= c <= 122 ==> Shifted(c) == c - 32
    ensures (forall k :: 0 <= k < 21 ==> c as int != "1234567890-=`[]\\;',./"[k] as int) && !(97 <= c <= 122) ==>
      Shifted(c) == c
  {
    var signs := "1234567890-=`[]\\;',./";
    if Shifted(c) != c && !(97 <= c <= 122) {
      var k := ShiftPlace(c);
      assert signs[k] as int == c;
    }
  }

  function ShiftPlace(c: byte): (k: nat)
    requires Shifted(c) != c && !(97 <= c <= 122)
    ensures k < 21 && "1234567890-=`[]\\;',./"[k] as int == c
  {
    match c
    case 48 => 9
    case 45 => 10
    case 61 => 11
    case 96 => 12
    case 91 => 13
    case 93 => 14
    case 92 => 15
    case 59 => 16
    case 39 => 17
    case 44 => 18
    case 46 => 19
    case 47 => 20
    case _ => c as nat - 49
  }

  const ERASE: seq<byte> := [8, 32, 8] // back, blank, back

  // ----- the specification: a bounded stack beside a terminal -----

  predicate Special(key: seq<byte>)
    requires key != []
  {
    key[0] == 60 || key[0] == 40 // < or (
  }

  function Typed(key: seq<byte>, shift: bool): byte
    requires key != []
  {
    if shift then Shifted(key[0]) else key[0]
  }

  /** What one key other than enter does to the stack of characters typed so far. */
  function Push(text: seq<byte>, key: seq<byte>, shift: bool): seq<byte>
    requires key != []
  {
    if !Special(key) then text + [Typed(key, shift)]
    else if Backspace() <= key && text != [] then text[..|text| - 1]
    else text
  }

  /** What the same key does to the terminal. */
  function Echo(t: Screen.Term, text: seq<byte>, key: seq<byte>, shift: bool): (r: Screen.Term)
    requires key != [] && Screen.WellFormed(t)
    ensures Screen.WellFormed(r)
  {
    if !Special(key) then Screen.Write(t, [Typed(key, shift)])
    else if Backspace() <= key then if text == [] then t else Screen.Write(t, ERASE)
    else if F2() <= key then Screen.ScrollTo(t, TWO32 - 2)
    else if F3() <= key then Screen.ScrollTo(t, 2)
    else t
  }

  predicate CodesOk(stream: seq<byte>) {
    forall i :: 0 <= i < |stream| ==> 1 <= stream[i] && (Keyboard.IsPressed(stream[i]) ==> stream[i] <= KEYS)
  }

  /** How a line stands: complete or still waiting for keys, with the text so far, the keyboard, the
      terminal and the scancodes not consumed. */
  datatype Line = Line(done: bool, text: seq<byte>, kb: Keyboard.Kb, term: Screen.Term, rest: seq<byte>)

  /** The line a scancode stream produces: characters are pushed and popped until enter, or until
      `cap` of them are held. */
  function Session(kb: Keyboard.Kb, t: Screen.Term, text: seq<byte>, cap: nat, stream: seq<byte>): (r: Line)
    requires Screen.WellFormed(t) && CodesOk(stream)
    ensures Screen.WellFormed(r.term)
    decreases |stream|, kb
  {
    if |text| >= cap then Line(true, text, kb, t, stream)
    else
      KeyCodeOk(kb, stream);
      match Keyboard.NextKey(kb, stream)
      case Waiting(kb') => Line(false, text, kb', t, [])
      case Key(code, kb', rest) =>
        var key := KeyBytes(code);
        if Special(key) && Enter() <= key then Line(true, text, kb', t, rest)
        else Session(kb', Echo(t, text, key, kb'.shift), Push(text, key, kb'.shift), cap, rest)
  }

  lemma {:induction false} KeyCodeOk(kb: Keyboard.Kb, stream: seq<byte>)
    requires CodesOk(stream)
    ensures match Keyboard.NextKey(kb, stream)
      case Waiting(_) => true
      case Key(code, _, rest) => 1 <= code <= KEYS && CodesOk(rest)
    decreases |stream|
  {
    if stream != [] && !Keyboard.Rising(kb, stream[0]) {
      KeyCodeOk(Keyboard.Scan(kb, stream[0]), stream[1..]);
    }
  }

  /** One key other than enter moves the session on. */
  lemma SessionStep(kb: Keyboard.Kb, t: Screen.Term, text: seq<byte>, cap: nat, stream: seq<byte>,
                    code: byte, kb': Keyboard.Kb, rest: seq<byte>)
    requires Screen.WellFormed(t) && CodesOk(stream) && |text| < cap
    requires Keyboard.NextKey(kb, stream) == Keyboard.Key(code, kb', rest)
    ensures 1 <= code <= KEYS && CodesOk(rest)
    ensures Session(kb, t, text, cap, stream) ==
      if Special(KeyBytes(code)) && Enter() <= KeyBytes(code) then Line(true, text, kb', t, rest)
      else Session(kb', Echo(t, text, KeyBytes(code), kb'.shift), Push(text, KeyBytes(code), kb'.shift), cap, rest)
  {
    KeyCodeOk(kb, stream);
  }

  /** What each key does to a line that is not full: enter ends it; backspace takes the last character off, if there is
      one, and draws back, blank, back; F2 and F3 move the window; a typing key appends its character, with shift the
      one above it, and draws it; every other key does nothing. */
  lemma SessionKeys(kb: Keyboard.Kb, t: Screen.Term, text: seq<byte>, cap: nat, stream: seq<byte>,
                    code: byte, kb': Keyboard.Kb, rest: seq<byte>)
    requires Screen.WellFormed(t) && CodesOk(stream) && |text| < cap
    requires Keyboard.NextKey(kb, stream) == Keyboard.Key(code, kb', rest)
    ensures 1 <= code <= 85 && CodesOk(rest)
    ensures var line := Session(kb, t, text, cap, stream);
      if code == 28 then line == Line(true, text, kb', t, rest)
      else if code == 14 && text != [] then
        line == Session(kb', Screen.Write(t, [8, 32, 8]), text[..|text| - 1], cap, rest)
      else if code == 60 then line == Session(kb', Screen.ScrollTo(t, TWO32 - 2), text, cap, rest)
      else if code == 61 then line == Session(kb', Screen.ScrollTo(t, 2), text, cap, rest)
      else if TypingKey(code) then
        KeyName(code) != "" &&
        var c := KeyName(code)[0] as int % 256;
        var typed := if kb'.shift then Shifted(c) else c;
        line == Session(kb', Screen.Write(t, [typed]), text + [typed], cap, rest)
      else line == Session(kb', t, text, cap, rest)
  {
    SessionStep(kb, t, text, cap, stream, code, kb', rest);
    Names(code);
    KeyKind(code);
  }

  /** Which names are special, and what the others type. */
  lemma KeyKind(code: byte)
    requires 1 <= code <= KEYS
    ensures KeyName(code) != "" && KeyBytes(code)[0] == KeyName(code)[0] as int % 256
    ensures Special(KeyBytes(code)) <==> !TypingKey(code)
  {
    AsciiHeads(code);
    if TypingKey(code) {
      TypingNames(code);
      NameKind(KeyName(code), true);
    } else {
      OtherKeys(code);
      NameKind(KeyName(code), false);
    }
  }

  lemma NameKind(name: string, typing: bool)
    requires AsciiHead(name) && (typing <==> name[0] != '<' && name[0] != '(')
    ensures (Ascii(name) + [0])[0] == name[0] as int % 256
    ensures Special(Ascii(name) + [0]) <==> !typing
  {
  }

  lemma SessionWaits(kb: Keyboard.Kb, t: Screen.Term, text: seq<byte>, cap: nat, stream: seq<byte>, kb': Keyboard.Kb)
    requires Screen.WellFormed(t) && CodesOk(stream) && |text| < cap
    requires Keyboard.NextKey(kb, stream) == Keyboard.Waiting(kb')
    ensures Session(kb, t, text, cap, stream) == Line(false, text, kb', t, [])
  {
  }

  lemma SessionFull(kb: Keyboard.Kb, t: Screen.Term, text: seq<byte>, cap: nat, stream: seq<byte>)
    requires Screen.WellFormed(t) && CodesOk(stream) && |text| >= cap
    ensures Session(kb, t, text, cap, stream) == Line(true, text, kb, t, stream)
  {
  }

  // ----- the echo agrees with the text -----

  /** From column `c` on, the cursor's line shows exactly `text` and then blanks, and the cursor is
      after the text. */
  ghost predicate Shows(t: Screen.Term, c: nat, text: seq<byte>) {
    && Screen.WellFormed(t) && t.col == c + |text| && t.col < Screen.WIDTH
    && forall x :: c <= x < Screen.WIDTH ==>
         t.lines[t.row][2 * x] == if x < t.col then text[x - c] else Screen.SPACE
  }

  lemma TypeShows(t: Screen.Term, c: nat, text: seq<byte>, ch: byte)
    requires Shows(t, c, text) && t.col + 1 < Screen.WIDTH && Printable(ch)
    ensures Shows(Screen.Write(t, [ch]), c, text + [ch]) && Screen.Write(t, [ch]).row == t.row
  {
    assert Screen.Write(t, [ch]) == Screen.Write(Screen.PutC(t, ch), []);
    assert Screen.Write(t, [ch]) == Screen.PutC(t, ch);
  }

  lemma EraseShows(t: Screen.Term, c: nat, text: seq<byte>)
    requires Shows(t, c, text) && text != []
    ensures Shows(Screen.Write(t, ERASE), c, text[..|text| - 1]) && Screen.Write(t, ERASE).row == t.row
  {
    var t1 := Screen.PutC(t, 8);
    var t2 := Screen.PutC(t1, 32);
    var t3 := Screen.PutC(t2, 8);
    assert Screen.Write(t, ERASE) == t3 by {
      assert ERASE[1..] == [32, 8] && ERASE[1..][1..] == [8] && ERASE[1..][1..][1..] == [];
      assert Screen.Write(t, ERASE) == Screen.Write(t1, [32, 8]);
      assert Screen.Write(t1, [32, 8]) == Screen.Write(t2, [8]);
      assert Screen.Write(t2, [8]) == Screen.Write(t3, []);
    }
  }

  lemma KeyShows(t: Screen.Term, c: nat, text: seq<byte>, code: byte, shift: bool)
    requires Shows(t, c, text) && t.col + 1 < Screen.WIDTH && 1 <= code <= KEYS
    ensures Shows(Echo(t, text, KeyBytes(code), shift), c, Push(text, KeyBytes(code), shift))
    ensures Echo(t, text, KeyBytes(code), shift).row == t.row
  {
    Names(code);
    var key := KeyBytes(code);
    if !Special(key) {
      TypeShows(t, c, text, Typed(key, shift));
    } else if Backspace() <= key && text != [] {
      EraseShows(t, c, text);
    }
  }

  /** While a line is typed from column `c` of a line that is blank from there on, with room for the
      whole buffer, the screen line shows exactly the edit buffer after every key. */
  lemma {:induction false} EchoAgrees(kb: Keyboard.Kb, t: Screen.Term, c: nat, text: seq<byte>, cap: nat,
                                      stream: seq<byte>)
    requires Shows(t, c, text) && CodesOk(stream) && c + cap + 1 <= Screen.WIDTH
    ensures var r := Session(kb, t, text, cap, stream);
      Shows(r.term, c, r.text) && r.term.row == t.row
    decreases |stream|
  {
    if |text| < cap {
      KeyCodeOk(kb, stream);
      match Keyboard.NextKey(kb, stream)
      case Waiting(_) =>
      case Key(code, kb', rest) =>
        var key := KeyBytes(code);
        if !(Special(key) && Enter() <= key) {
          KeyShows(t, c, text, code, kb'.shift);
          EchoAgrees(kb', Echo(t, text, key, kb'.shift), c, Push(text, key, kb'.shift), cap, rest);
        }
    }
  }

  // ----- the routine -----

  /** vga_term_write_str; of the screen the editor needs only the terminal's state. */
  method Show(console: VgaConsole.Console, text: seq<byte>)
    requires console.Holds()
    modifies console, console.virt, console.phys
    ensures console.Holds() && console.state == Screen.Write(old(console.state), text)
  {
    console.WriteStr(text);
  }

  /** vga_term_pos */
  method Scroll(console: VgaConsole.Console, val: u32)
    requires console.Holds()
    modifies console, console.virt, console.phys
    ensures console.Holds() && console.state == Screen.ScrollTo(old(console.state), val)
  {
    console.Pos(val);
  }

  /** One special key other than enter: the terminal's reaction and the step of the index, which is
      about to be incremented. */
  method SpecialKey(console: VgaConsole.Console, i: u32, key: seq<byte>) returns (j: u32)
    requires console.Holds() && 0 in key && Special(key) && !(Enter() <= key)
    modifies console, console.virt, console.phys
    ensures console.Holds()
    ensures forall text :: |text| == i ==> console.state == Echo(old(console.state), text, key, false)
    ensures j == Wrap(i as int - if Backspace() <= key && i != 0 then 2 else 1)
  {
    NulDiffers(key, Backspace(), |Backspace()|);
    var erase := Memcmp(key, Backspace(), |Backspace()|);
    if erase == 1 {
      if i == 0 {
        return Wrap(-1);
      }
      Show(console, ERASE);
      return Wrap(i as int - 2);
    }
    NulDiffers(key, F2(), |F2()|);
    var up := Memcmp(key, F2(), |F2()|);
    if up == 1 {
      Scroll(console, Wrap(-2));
    } else {
      NulDiffers(key, F3(), |F3()|);
      var down := Memcmp(key, F3(), |F3()|);
      if down == 1 {
        Scroll(console, 2);
      }
    }
    return Wrap(i as int - 1);
  }

  /** The loop body for one key other than enter, and the increment after it: the index wraps below
      zero and back.  The buffer up to the index is the stack. */
  method OneKey(console: VgaConsole.Console, buff: array<byte>, index: u32, key: seq<byte>, shift: bool)
    returns (next: u32)
    requires console.Holds() && index < buff.Length && buff != console.virt && buff != console.phys
    requires 0 in key && !(Special(key) && Enter() <= key) && index < TWO32 - 1
    modifies console, console.virt, console.phys, buff
    ensures console.Holds() && console.state == Echo(old(console.state), old(buff[..index]), key, shift)
    ensures next <= buff.Length && buff[..next] == Push(old(buff[..index]), key, shift)
  {
    var i := index;
    ghost var text := buff[..i];
    if key[0] != 60 && key[0] != 40 {
      var c := key[0];
      if shift {
        c := Shifted(c);
      }
      Show(console, [c]);
      buff[i] := c;
      assert buff[..i + 1] == text + [c];
    } else {
      i := SpecialKey(console, i, key);
    }
    next := Wrap(i as int + 1);
  }

  datatype Turn = More | Entered | NoKey

  /** One turn of the loop: the next key is taken and acted on. */
  method OneTurn(kb: Keyboard.Ps2, console: VgaConsole.Console, buff: array<byte>, index: u32, last: u32,
                 input: seq<byte>)
    returns (turn: Turn, i: u32, stream: seq<byte>)
    requires kb.Holds() && console.Holds() && CodesOk(input) && index < last < buff.Length
    requires buff != kb.keysDown && buff != console.virt && buff != console.phys
    requires kb.keysDown != console.virt && kb.keysDown != console.phys
    modifies kb, kb.keysDown, console, console.virt, console.phys, buff
    ensures kb.Holds() && console.Holds() && CodesOk(stream) && i <= last
    ensures turn.More? ==> |stream| < |input|
    ensures var line := Session(old(kb.state), old(console.state), old(buff[..index]), last, input);
      match turn
      case More => line == Session(kb.state, console.state, buff[..i], last, stream)
      case Entered => line == Line(true, buff[..i], kb.state, console.state, stream) && buff[i] == 0
      case NoKey => line == Line(false, buff[..i], kb.state, console.state, stream)
  {
    i := index;
    ghost var text, t, kb0 := buff[..i], console.state, kb.state;
    KeyCodeOk(kb0, input);
    NoZero(input);
    var found, code;
    found, code, stream := kb.KeyIn(input);
    if !found {
      return NoKey, i, stream;
    }
    SessionStep(kb0, t, text, last, input, code, kb.state, stream);
    var key := KeyBytes(code);
    var enter := 0;
    if key[0] == 60 || key[0] == 40 {
      EnterHasNoNul();
      NulDiffers(key, Enter(), |Enter()|);
      enter := Memcmp(key, Enter(), |Enter()|);
    }
    if enter == 1 {
      buff[i] := 0;
      assert buff[..i] == text;
      return Entered, i, stream;
    }
    i := OneKey(console, buff, i, key, kb.shiftDown);
    PushLength(text, key, kb.shiftDown);
    return More, i, stream;
  }

  /** tty_get_user_input.  `done` is false when the scancode stream ran out first. */
  method GetUserInput(kb: Keyboard.Ps2, console: VgaConsole.Console, buff: array<byte>, buffLen: u32, input: seq<byte>)
    returns (done: bool, stream: seq<byte>)
    requires kb.Holds() && console.Holds() && CodesOk(input)
    requires 1 <= buffLen <= buff.Length
    requires buff != kb.keysDown && buff != console.virt && buff != console.phys
    requires kb.keysDown != console.virt && kb.keysDown != console.phys
    modifies kb, kb.keysDown, console, console.virt, console.phys, buff
    ensures kb.Holds() && console.Holds()
    ensures var r := Session(old(kb.state), old(console.state), [], buffLen - 1, input);
      && done == r.done && stream == r.rest && kb.state == r.kb && console.state == r.term
      && |r.text| < buff.Length && buff[..|r.text|] == r.text && (done ==> buff[|r.text|] == 0)
  {
    stream := input;
    var i: u32 := 0;
    var last := Wrap(buffLen as int - 1);
    ghost var empty := buff[..i];
    assert last == buffLen - 1 && empty == [];
    ghost var goal := Session(kb.state, console.state, empty, last, input);
    assert goal == Session(old(kb.state), old(console.state), [], buffLen - 1, input);
    while i < last
      invariant kb.Holds() && console.Holds() && CodesOk(stream)
      invariant i <= last && Session(kb.state, console.state, buff[..i], last, stream) == goal
      decreases |stream|
    {
      var turn;
      turn, i, stream := OneTurn(kb, console, buff, i, last, stream);
      if turn == Entered {
        return true, stream;
      }
      if turn == NoKey {
        return false, stream;
      }
    }
    ghost var text := buff[..i];
    SessionFull(kb.state, console.state, text, last, stream);
    buff[buffLen - 1] := 0;
    assert buff[..i] == text;
    return true, stream;
  }

  lemma EnterHasNoNul()
    ensures 0 !in Enter()[..|Enter()|]
  {
  }

  lemma NoZero(stream: seq<byte>)
    requires CodesOk(stream)
    ensures 0 !in stream
  {
  }

  lemma PushLength(text: seq<byte>, key: seq<byte>, shift: bool)
    requires key != []
    ensures |Push(text, key, shift)| <= |text| + 1
  {
  }
}
