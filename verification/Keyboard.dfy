/**
 Scancodes to key events: a shift flag and a table of printable keys.
 */
module Keyboard {
  import opened Words

  datatype KeyEvent = Char(c: char) | Enter | Backspace

  // The printable keys, one row per run of consecutive scancodes, plain and shifted.
  const DIGIT_ROW := "1234567890-="
  const DIGIT_ROW_SHIFTED := "!@#$%^&*()_+"
  const TOP_ROW := "qwertyuiop[]"
  const TOP_ROW_SHIFTED := "QWERTYUIOP{}"
  const HOME_ROW := "asdfghjkl;'`"
  const HOME_ROW_SHIFTED := "ASDFGHJKL:\"~"
  const BOTTOM_ROW := "\\zxcvbnm,./"
  const BOTTOM_ROW_SHIFTED := "|ZXCVBNM<>?"

  const LEFT_SHIFT: Byte := 0x2A
  const RIGHT_SHIFT: Byte := 0x36
  const LEFT_SHIFT_UP: Byte := 0xAA
  const RIGHT_SHIFT_UP: Byte := 0xB6
  const ENTER: Byte := 0x1C
  const BACKSPACE: Byte := 0x0E
  const SPACE: Byte := 0x39

  function DecodePrintable(shift: bool, code: Byte): Option<char> {
    if 0x02 <= code <= 0x0D then Some(if shift then DIGIT_ROW_SHIFTED[code - 0x02] else DIGIT_ROW[code - 0x02])
    else if 0x10 <= code <= 0x1B then Some(if shift then TOP_ROW_SHIFTED[code - 0x10] else TOP_ROW[code - 0x10])
    else if 0x1E <= code <= 0x29 then Some(if shift then HOME_ROW_SHIFTED[code - 0x1E] else HOME_ROW[code - 0x1E])
    else if 0x2B <= code <= 0x35 then Some(if shift then BOTTOM_ROW_SHIFTED[code - 0x2B] else BOTTOM_ROW[code - 0x2B])
    else if code == SPACE then Some(' ')
    else None
  }

  /** New shift state and the event, if the scancode stands for one. */
  function Translate(shift: bool, code: Byte): (bool, Option<KeyEvent>) {
    if code == LEFT_SHIFT || code == RIGHT_SHIFT then (true, None)
    else if code == LEFT_SHIFT_UP || code == RIGHT_SHIFT_UP then (false, None)
    else if code >= 0x80 then (shift, None)
    else if code == ENTER then (shift, Some(Enter))
    else if code == BACKSPACE then (shift, Some(Backspace))
    else
      var c := DecodePrintable(shift, code);
      (shift, if c.Some? then Some(Char(c.value)) else None)
  }

  /** Shift state and events after a run of scancodes. */
  function TranslateAll(shift: bool, codes: seq<Byte>): (bool, seq<KeyEvent>)
    decreases |codes|
  {
    if codes == [] then (shift, [])
    else
      var (shift', event) := Translate(shift, codes[0]);
      var (end, events) := TranslateAll(shift', codes[1..]);
      (end, (if event.Some? then [event.value] else []) + events)
  }

  class KeyboardDriver {
    var shiftPressed: bool

    constructor ()
      ensures !shiftPressed
    {
      shiftPressed := false;
    }

    method DecodeScancode(code: Byte) returns (event: Option<KeyEvent>)
      modifies this`shiftPressed
      ensures (shiftPressed, event) == Translate(old(shiftPressed), code)
    {
      match code
      case 0x2A => shiftPressed := true; return None;
      case 0x36 => shiftPressed := true; return None;
      case 0xAA => shiftPressed := false; return None;
      case 0xB6 => shiftPressed := false; return None;
      case _ =>
        if code >= 0x80 {
          return None;
        }
        if code == 0x1C {
          return Some(Enter);
        }
        if code == 0x0E {
          return Some(Backspace);
        }
        var c := DecodePrintable(shiftPressed, code);
        return if c.Some? then Some(Char(c.value)) else None;
    }
  }

  // ---- what the keyboard can produce ----

  predicate Printable(c: char) {
    ' ' <= c <= '~'
  }

  predicate AllPrintable(s: string) {
    forall i :: 0 <= i < |s| ==> Printable(s[i])
  }

  lemma RowsArePrintable()
    ensures AllPrintable(DIGIT_ROW) && AllPrintable(DIGIT_ROW_SHIFTED)
    ensures AllPrintable(TOP_ROW) && AllPrintable(TOP_ROW_SHIFTED)
    ensures AllPrintable(HOME_ROW) && AllPrintable(HOME_ROW_SHIFTED)
    ensures AllPrintable(BOTTOM_ROW) && AllPrintable(BOTTOM_ROW_SHIFTED)
  {
  }

  /** Whatever is typed is printable ASCII. */
  lemma TranslatedIsPrintable(shift: bool, code: Byte)
    ensures Translate(shift, code).1.Some? && Translate(shift, code).1.value.Char? ==> Printable(Translate(shift, code).1.value.c)
  {
    RowsArePrintable();
  }

  // ---- typing ----

  /** Shift state and scancode of a printable character that is not a letter. */
  function SymbolKey(c: char): (bool, Byte) {
    match c
    case ' ' => (false, 0x39)  case '!' => (true, 0x02)  case '\"' => (true, 0x28)
    case '#' => (true, 0x04)  case '$' => (true, 0x05)  case '%' => (true, 0x06)
    case '&' => (true, 0x08)  case '\'' => (false, 0x28)  case '(' => (true, 0x0A)
    case ')' => (true, 0x0B)  case '*' => (true, 0x09)  case '+' => (true, 0x0D)
    case ',' => (false, 0x33)  case '-' => (false, 0x0C)  case '.' => (false, 0x34)
    case '/' => (false, 0x35)  case '0' => (false, 0x0B)  case '1' => (false, 0x02)
    case '2' => (false, 0x03)  case '3' => (false, 0x04)  case '4' => (false, 0x05)
    case '5' => (false, 0x06)  case '6' => (false, 0x07)  case '7' => (false, 0x08)
    case '8' => (false, 0x09)  case '9' => (false, 0x0A)  case ':' => (true, 0x27)
    case ';' => (false, 0x27)  case '<' => (true, 0x33)  case '=' => (false, 0x0D)
    case '>' => (true, 0x34)  case '?' => (true, 0x35)  case '@' => (true, 0x03)
    case '[' => (false, 0x1A)  case '\\' => (false, 0x2B)  case ']' => (false, 0x1B)
    case '^' => (true, 0x07)  case '_' => (true, 0x0C)  case '`' => (false, 0x29)
    case '{' => (true, 0x1A)  case '|' => (true, 0x2B)  case '}' => (true, 0x1B)
    case '~' => (true, 0x29)
    case _ => (false, 0)
  }

  /** Scancode of the letter that is `i` places after 'a'. */
  function LetterCode(i: nat): Byte {
    match i
    case 0 => 0x1E  case 1 => 0x30  case 2 => 0x2E  case 3 => 0x20  case 4 => 0x12  case 5 => 0x21
    case 6 => 0x22  case 7 => 0x23  case 8 => 0x17  case 9 => 0x24  case 10 => 0x25  case 11 => 0x26
    case 12 => 0x32  case 13 => 0x31  case 14 => 0x18  case 15 => 0x19  case 16 => 0x10  case 17 => 0x13
    case 18 => 0x1F  case 19 => 0x14  case 20 => 0x16  case 21 => 0x2F  case 22 => 0x11  case 23 => 0x2D
    case 24 => 0x15  case 25 => 0x2C
    case _ => 0
  }

  function KeyFor(c: char): (bool, Byte) {
    if 'a' <= c <= 'z' then (false, LetterCode(c as int - 'a' as int))
    else if 'A' <= c <= 'Z' then (true, LetterCode(c as int - 'A' as int))
    else SymbolKey(c)
  }

  lemma LowerKeys(i: nat)
    requires i < 26
    ensures DecodePrintable(false, LetterCode(i)) == Some(('a' as int + i) as char)
  {
  }

  lemma UpperKeys(i: nat)
    requires i < 26
    ensures DecodePrintable(true, LetterCode(i)) == Some(('A' as int + i) as char)
  {
  }

  lemma LowSymbolKeys(c: char)
    requires ' ' <= c < '0'
    ensures DecodePrintable(SymbolKey(c).0, SymbolKey(c).1) == Some(c)
  {
  }

  lemma MiddleSymbolKeys(c: char)
    requires '0' <= c <= '@'
    ensures DecodePrintable(SymbolKey(c).0, SymbolKey(c).1) == Some(c)
  {
  }

  lemma HighSymbolKeys(c: char)
    requires '[' <= c <= '`' || '{' <= c <= '~'
    ensures DecodePrintable(SymbolKey(c).0, SymbolKey(c).1) == Some(c)
  {
  }

  /** Every printable ASCII character is on the keyboard. */
  lemma EveryPrintableHasAKey(c: char)
    requires Printable(c)
    ensures DecodePrintable(KeyFor(c).0, KeyFor(c).1) == Some(c)
  {
    if 'a' <= c <= 'z' {
      LowerKeys(c as int - 'a' as int);
    } else if 'A' <= c <= 'Z' {
      UpperKeys(c as int - 'A' as int);
    } else if c < '0' {
      LowSymbolKeys(c);
    } else if c <= '@' {
      MiddleSymbolKeys(c);
    } else {
      HighSymbolKeys(c);
    }
  }

  /** The keystrokes for a character, whatever the shift state: set shift, press the key. */
  function Strokes(c: char): seq<Byte> {
    [if KeyFor(c).0 then LEFT_SHIFT else LEFT_SHIFT_UP, KeyFor(c).1]
  }

  function Typing(s: string): seq<Byte> {
    if s == "" then [] else Strokes(s[0]) + Typing(s[1..])
  }

  function Chars(s: string): (events: seq<KeyEvent>)
    ensures |events| == |s|
  {
    seq(|s|, i requires 0 <= i < |s| => Char(s[i]))
  }

  lemma CharsCons(s: string)
    requires s != ""
    ensures Chars(s) == [Char(s[0])] + Chars(s[1..])
  {
  }

  lemma {:induction false} TranslateAllConcat(shift: bool, a: seq<Byte>, b: seq<Byte>)
    ensures
      var (mid, first) := TranslateAll(shift, a);
      var (end, second) := TranslateAll(mid, b);
      TranslateAll(shift, a + b) == (end, first + second)
    decreases |a|
  {
    if a == [] {
      assert a + b == b;
      assert [] + TranslateAll(shift, b).1 == TranslateAll(shift, b).1;
    } else {
      assert (a + b)[1..] == a[1..] + b;
      var (next, event) := Translate(shift, a[0]);
      TranslateAllConcat(next, a[1..], b);
      var here := if event.Some? then [event.value] else [];
      var (mid, first) := TranslateAll(next, a[1..]);
      assert here + (first + TranslateAll(mid, b).1) == (here + first) + TranslateAll(mid, b).1;
    }
  }

  lemma StrokesDecode(shift: bool, c: char)
    requires Printable(c)
    ensures TranslateAll(shift, Strokes(c)).1 == [Char(c)]
  {
    EveryPrintableHasAKey(c);
    var (pressed, code) := KeyFor(c);
    PrintableKeysArePlain(pressed, code);
    var codes := Strokes(c);
    assert codes[1..] == [code];
    assert [code][1..] == [];
    assert [Char(c)] + [] == [Char(c)];
    assert TranslateAll(pressed, [code]) == (pressed, [Char(c)]);
    assert Translate(shift, codes[0]) == (pressed, None);
  }

  /** A scancode with a printable meaning is not one of the special ones. */
  lemma PrintableKeysArePlain(shift: bool, code: Byte)
    requires DecodePrintable(shift, code).Some?
    ensures Translate(shift, code) == (shift, Some(Char(DecodePrintable(shift, code).value)))
  {
  }

  /** Typing a printable text produces exactly its characters, from either shift state. */
  lemma {:induction false} TypingDecodes(shift: bool, s: string)
    requires AllPrintable(s)
    ensures TranslateAll(shift, Typing(s)).1 == Chars(s)
    decreases s
  {
    if s != "" {
      var first, rest := Strokes(s[0]), Typing(s[1..]);
      StrokesDecode(shift, s[0]);
      TypingDecodes(TranslateAll(shift, first).0, s[1..]);
      TranslateAllConcat(shift, first, rest);
      CharsCons(s);
    }
  }

  // ---- what each scancode does ----

  /** Shift follows the two shift keys and nothing else: pressed by either, released
      by either; every other scancode, releases included, leaves it alone. */
  lemma {:induction false} ShiftFollowsShiftKeys(shift: bool, code: Byte)
    ensures Translate(shift, code).0 == (code == 0x2A || code == 0x36 || (shift && code != 0xAA && code != 0xB6))
    ensures code in {0x2A, 0x36, 0xAA, 0xB6} || code >= 0x80 ==> Translate(shift, code).1 == None
  {
  }

  /** Enter and Backspace come from one scancode each, whatever the shift state. */
  lemma {:induction false} EditingKeys(shift: bool, code: Byte)
    ensures Translate(shift, code).1 == Some(Enter) <==> code == 0x1C
    ensures Translate(shift, code).1 == Some(Backspace) <==> code == 0x0E
  {
  }

  lemma {:induction false} DigitRowKeys(i: nat)
    requires i < 12
    ensures KeyFor(DIGIT_ROW[i]) == (false, 0x02 + i) && KeyFor(DIGIT_ROW_SHIFTED[i]) == (true, 0x02 + i)
  {
  }

  lemma {:induction false} TopRowKeys(i: nat)
    requires i < 12
    ensures KeyFor(TOP_ROW[i]) == (false, 0x10 + i) && KeyFor(TOP_ROW_SHIFTED[i]) == (true, 0x10 + i)
  {
  }

  lemma {:induction false} HomeRowKeys(i: nat)
    requires i < 12
    ensures KeyFor(HOME_ROW[i]) == (false, 0x1E + i) && KeyFor(HOME_ROW_SHIFTED[i]) == (true, 0x1E + i)
  {
  }

  lemma {:induction false} BottomRowKeys(i: nat)
    requires i < 11
    ensures KeyFor(BOTTOM_ROW[i]) == (false, 0x2B + i) && KeyFor(BOTTOM_ROW_SHIFTED[i]) == (true, 0x2B + i)
  {
  }

  lemma {:induction false} KeyOfCharacter(shift: bool, code: Byte)
    requires DecodePrintable(shift, code).Some? && code != 0x39
    ensures KeyFor(DecodePrintable(shift, code).value) == (shift, code)
  {
    if code <= 0x0D {
      DigitRowKeys(code - 0x02);
    } else if code <= 0x1B {
      TopRowKeys(code - 0x10);
    } else if code <= 0x29 {
      HomeRowKeys(code - 0x1E);
    } else {
      BottomRowKeys(code - 0x2B);
    }
  }

  lemma {:induction false} TranslateChar(shift: bool, code: Byte, c: char)
    ensures Translate(shift, code).1 == Some(Char(c)) <==> DecodePrintable(shift, code) == Some(c)
  {
    if DecodePrintable(shift, code).Some? { PrintableKeysArePlain(shift, code); }
  }

  lemma {:induction false} SpaceBar(shift: bool, c: char)
    ensures DecodePrintable(shift, 0x39) == Some(c) <==> c == ' '
    ensures KeyFor(' ') == (false, 0x39)
  {
  }

  /** A scancode gives a character exactly if it is that character's key in that
      shift state; only the space bar ignores shift. */
  lemma {:induction false} OneKeyPerCharacter(shift: bool, code: Byte, c: char)
    ensures Translate(shift, code).1 == Some(Char(c)) <==>
      Printable(c) && ((shift, code) == KeyFor(c) || (c == ' ' && code == 0x39))
  {
    TranslateChar(shift, code, c);
    TranslatedIsPrintable(shift, code);
    SpaceBar(shift, c);
    if Printable(c) { EveryPrintableHasAKey(c); }
    if DecodePrintable(shift, code) == Some(c) && code != 0x39 { KeyOfCharacter(shift, code); }
  }
}
