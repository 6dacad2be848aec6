/**
 A shell session as a value: key events edit a line, Enter runs it, commands
 act on the overlay file system and answer on the console.
 */
module ShellSession {
  import opened Words
  import opened Utf8
  import opened Paths
  import opened Overlay
  import opened OverlayLaws
  import opened Keyboard
  import opened Commands

  const MAX_LINE_LEN: nat := 128

  /** What the shell answers. */
  datatype Reply =
    | Written(path: string) | WriteFailed(error: VfsError)
    | Shown(contents: string) | Missing(path: string)
    | Removed(path: string) | RemoveFailed(error: VfsError)
    | Listed(names: seq<string>)
    | UsageOf(verb: string) | Info(verb: string) | Unrecognized(line: string)
    | InvalidInput | InputTooLong

  datatype Session = Session(line: seq<Byte>, slots: seq<Entry>, replies: seq<Reply>)

  /** Slots and answers after one command over read-only table `ro`. */
  function Execute(ro: seq<File>, slots: seq<Entry>, command: Command): (seq<Entry>, seq<Reply>) {
    match command
    case WriteFile(path, contents) =>
      var (after, outcome) := Apply(ro, slots, Write(path, contents));
      (after, [if outcome == Done then Written(path) else WriteFailed(outcome.error)])
    case ShowFile(path) =>
      var contents := Read(ro, slots, path);
      (slots, [if contents.Some? then Shown(contents.value) else Missing(path)])
    case RemoveFile(path) =>
      var (after, outcome) := Apply(ro, slots, Remove(path));
      (after, [if outcome == Done then Removed(path) else RemoveFailed(outcome.error)])
    case ListFiles => (slots, [Listed(Listing(ro, slots))])
    case Usage(verb) => (slots, [UsageOf(verb)])
    case Informational(verb) => (slots, [Info(verb)])
    case Unknown(line) => (slots, [Unrecognized(line)])
    case Empty => (slots, [])
  }

  /** What Enter does with the bytes of the line. */
  function ExecuteLine(ro: seq<File>, slots: seq<Entry>, line: seq<Byte>): (seq<Entry>, seq<Reply>) {
    var text := Decode(line);
    if text == None then (slots, [InvalidInput])
    else
      var trimmed := Trim(text.value);
      if trimmed == "" then (slots, []) else Execute(ro, slots, Parse(trimmed))
  }

  /** A character is stored as its low byte. */
  function CharByte(c: char): Byte {
    c as int % 256
  }

  function Feed(ro: seq<File>, s: Session, e: KeyEvent): Session {
    match e
    case Enter =>
      var (slots, replies) := ExecuteLine(ro, s.slots, s.line);
      Session([], slots, s.replies + replies)
    case Backspace =>
      if s.line != [] then s.(line := s.line[..|s.line| - 1]) else s
    case Char(c) =>
      if |s.line| < MAX_LINE_LEN then s.(line := s.line + [CharByte(c)])
      else s.(line := [], replies := s.replies + [InputTooLong])
  }

  function FeedAll(ro: seq<File>, s: Session, events: seq<KeyEvent>): Session
    decreases |events|
  {
    if events == [] then s else FeedAll(ro, Feed(ro, s, events[0]), events[1..])
  }

  lemma {:induction false} FeedAllConcat(ro: seq<File>, s: Session, a: seq<KeyEvent>, b: seq<KeyEvent>)
    ensures FeedAll(ro, s, a + b) == FeedAll(ro, FeedAll(ro, s, a), b)
    decreases |a|
  {
    if a == [] {
      assert a + b == b;
    } else {
      assert (a + b)[1..] == a[1..] + b;
      FeedAllConcat(ro, Feed(ro, s, a[0]), a[1..], b);
    }
  }

  // ---- every key run ----

  predicate PrintableLine(line: seq<Byte>) {
    |line| <= MAX_LINE_LEN && forall i :: 0 <= i < |line| ==> 0x20 <= line[i] <= 0x7E
  }

  predicate PrintableEvents(events: seq<KeyEvent>) {
    forall i :: 0 <= i < |events| && events[i].Char? ==> Printable(events[i].c)
  }

  /** Answers that no typed line can bring about. */
  predicate NeverGiven(r: Reply) {
    r == InvalidInput || r == WriteFailed(ContentTooLong)
  }

  predicate SessionInv(s: Session) {
    && Inv(s.slots) && PrintableLine(s.line)
    && forall i :: 0 <= i < |s.replies| ==> !NeverGiven(s.replies[i])
  }

  lemma {:induction false} KeysArePrintable(shift: bool, codes: seq<Byte>)
    ensures PrintableEvents(TranslateAll(shift, codes).1)
    decreases |codes|
  {
    if codes != [] {
      TranslatedIsPrintable(shift, codes[0]);
      KeysArePrintable(Translate(shift, codes[0]).0, codes[1..]);
    }
  }

  /** The text of a line of ASCII bytes. */
  function AsText(line: seq<Byte>): (s: string)
    requires forall i :: 0 <= i < |line| ==> line[i] < 0x80
    ensures |s| == |line|
  {
    seq(|line|, i requires 0 <= i < |line| => line[i] as char)
  }

  lemma {:induction false} AsciiDecodes(line: seq<Byte>)
    requires forall i :: 0 <= i < |line| ==> line[i] < 0x80
    ensures Decode(line) == Some(AsText(line))
  {
    if line != [] {
      AsciiDecodes(line[1..]);
      assert AsText(line) == [line[0] as char] + AsText(line[1..]);
    }
  }

  lemma TrimIsSubstring(s: string)
    ensures |Trim(s)| <= |s| && forall i :: 0 <= i < |Trim(s)| ==> Trim(s)[i] in s
  {
    TrimSpec(s);
    var a, b :| Blank(a) && Blank(b) && s == a + Trim(s) + b;
    forall i | 0 <= i < |Trim(s)| ensures Trim(s)[i] in s {
      assert s[|a| + i] == Trim(s)[i];
    }
  }

  lemma TrimKeepsAscii(s: string)
    requires IsAscii(s)
    ensures IsAscii(Trim(s)) && |Trim(s)| <= |s|
  {
    TrimIsSubstring(s);
    forall i | 0 <= i < |Trim(s)| ensures Trim(s)[i] < '\U{80}' {
      assert Trim(s)[i] in s;
    }
  }

  lemma WrittenIsShort(line: string)
    requires IsAscii(line) && Parse(line).WriteFile?
    ensures |Encode(Parse(line).contents)| < |line|
  {
    WriteIsSuffix(line);
    AsciiLength(Parse(line).contents);
  }

  /** A typed line is at most 128 bytes, so what it writes always fits in a file. */
  lemma TypedWriteFits(line: seq<Byte>)
    requires PrintableLine(line)
    ensures Decode(line).Some?
    ensures
      var command := Parse(Trim(Decode(line).value));
      command.WriteFile? ==> |Encode(command.contents)| < MAX_LINE_LEN
  {
    AsciiDecodes(line);
    var text := AsText(line);
    assert IsAscii(text);
    TrimKeepsAscii(text);
    if Parse(Trim(text)).WriteFile? { WrittenIsShort(Trim(text)); }
  }

  lemma ExecuteLineInv(ro: seq<File>, slots: seq<Entry>, line: seq<Byte>)
    requires Inv(slots) && PrintableLine(line)
    ensures
      var (after, replies) := ExecuteLine(ro, slots, line);
      Inv(after) && forall i :: 0 <= i < |replies| ==> !NeverGiven(replies[i])
  {
    TypedWriteFits(line);
    var command := Parse(Trim(Decode(line).value));
    if command.WriteFile? {
      ApplyRefines(ro, slots, Write(command.path, command.contents));
    } else if command.RemoveFile? {
      ApplyRefines(ro, slots, Remove(command.path));
    }
  }

  lemma FeedInv(ro: seq<File>, s: Session, e: KeyEvent)
    requires SessionInv(s) && (e.Char? ==> Printable(e.c))
    ensures SessionInv(Feed(ro, s, e))
  {
    if e.Enter? { ExecuteLineInv(ro, s.slots, s.line); }
  }

  lemma {:induction false} FeedAllInv(ro: seq<File>, s: Session, events: seq<KeyEvent>)
    requires SessionInv(s) && PrintableEvents(events)
    ensures SessionInv(FeedAll(ro, s, events))
    decreases |events|
  {
    if events != [] {
      assert events[0].Char? ==> Printable(events[0].c);
      FeedInv(ro, s, events[0]);
      FeedAllInv(ro, Feed(ro, s, events[0]), events[1..]);
    }
  }

  /** For every run of scancodes the line stays printable and within 128 bytes,
      the file system stays in order, and neither the invalid-input answer nor
      a content-too-long failure is ever given. */
  lemma EveryKeyRun(ro: seq<File>, s: Session, shift: bool, codes: seq<Byte>)
    requires SessionInv(s)
    ensures SessionInv(FeedAll(ro, s, TranslateAll(shift, codes).1))
  {
    KeysArePrintable(shift, codes);
    FeedAllInv(ro, s, TranslateAll(shift, codes).1);
  }

  // ---- typed command lines ----

  lemma PrintableByte(c: char)
    requires Printable(c)
    ensures EncodeChar(c) == [CharByte(c)]
  {
  }

  lemma FeedOneMore(ro: seq<File>, s: Session, text: string)
    requires text != "" && Printable(text[0]) && |s.line| < MAX_LINE_LEN
    ensures FeedAll(ro, s, Chars(text)) == FeedAll(ro, s.(line := s.line + EncodeChar(text[0])), Chars(text[1..]))
  {
    PrintableByte(text[0]);
    assert Chars(text)[1..] == Chars(text[1..]);
  }

  lemma {:induction false} TypedCharsAppend(ro: seq<File>, s: Session, text: string)
    requires AllPrintable(text) && |s.line| + |text| <= MAX_LINE_LEN
    ensures FeedAll(ro, s, Chars(text)) == s.(line := s.line + Encode(text))
    decreases |text|
  {
    if text == "" {
      assert s.line + [] == s.line;
    } else {
      FeedOneMore(ro, s, text);
      PrintableByte(text[0]);
      TypedCharsAppend(ro, s.(line := s.line + EncodeChar(text[0])), text[1..]);
      assert s.line + EncodeChar(text[0]) + Encode(text[1..]) == s.line + Encode(text);
    }
  }

  function Backspaces(n: nat): (events: seq<KeyEvent>)
    ensures |events| == n
  {
    seq(n, _ => Backspace)
  }

  lemma {:induction false} BackspacesDrop(ro: seq<File>, s: Session, n: nat)
    requires n <= |s.line|
    ensures FeedAll(ro, s, Backspaces(n)) == s.(line := s.line[..|s.line| - n])
    decreases n
  {
    if n > 0 {
      var s1 := Feed(ro, s, Backspace);
      assert Backspaces(n)[1..] == Backspaces(n - 1);
      BackspacesDrop(ro, s1, n - 1);
      assert s1.line[..|s1.line| - (n - 1)] == s.line[..|s.line| - n];
    } else {
      assert s.line[..|s.line|] == s.line;
    }
  }

  /** Backspaces undo typing; one character past the limit drops the whole line. */
  lemma BackspacesUndoTyping(ro: seq<File>, s: Session, text: string)
    requires AllPrintable(text) && |s.line| + |text| <= 128
    ensures FeedAll(ro, s, Chars(text) + Backspaces(|text|)) == s
    ensures |s.line| + |text| == 128 ==>
      forall c :: Feed(ro, FeedAll(ro, s, Chars(text)), Char(c)) == s.(line := [], replies := s.replies + [InputTooLong])
  {
    TypedCharsAppend(ro, s, text);
    assert IsAscii(text);
    AsciiLength(text);
    FeedAllConcat(ro, s, Chars(text), Backspaces(|text|));
    BackspacesDrop(ro, FeedAll(ro, s, Chars(text)), |text|);
    assert (s.line + Encode(text))[..|s.line|] == s.line;
  }

  lemma EnterRuns(ro: seq<File>, s: Session, text: string)
    requires s.line == Encode(text) && text != "" && Trim(text) == text
    ensures
      var (slots, replies) := Execute(ro, s.slots, Parse(text));
      FeedAll(ro, s, [Enter]) == Session([], slots, s.replies + replies)
  {
    DecodeEncode(text);
    assert FeedAll(ro, Feed(ro, s, Enter), []) == Feed(ro, s, Enter);
    assert [Enter][1..] == [];
  }

  /** A line of at most 128 printable characters, typed and entered on an empty
      line, is executed as it was typed. */
  lemma TypedLineRuns(ro: seq<File>, s: Session, text: string)
    requires s.line == [] && AllPrintable(text) && |text| <= MAX_LINE_LEN && text != "" && Trim(text) == text
    ensures
      var (slots, replies) := Execute(ro, s.slots, Parse(text));
      FeedAll(ro, s, Chars(text) + [Enter]) == Session([], slots, s.replies + replies)
  {
    TypedCharsAppend(ro, s, text);
    FeedAllConcat(ro, s, Chars(text), [Enter]);
    var typed := s.(line := Encode(text));
    assert s.line + Encode(text) == Encode(text);
    EnterRuns(ro, typed, text);
  }

  /** Any printable line of at most 128 characters: Enter runs what is left of it after
      trimming, and does nothing if nothing is left. */
  lemma {:induction false} AnyLineRuns(ro: seq<File>, s: Session, text: string)
    requires s.line == [] && AllPrintable(text) && |text| <= MAX_LINE_LEN
    ensures
      FeedAll(ro, s, Chars(text) + [Enter]) ==
        if Blank(text) then s
        else
          var (slots, replies) := Execute(ro, s.slots, Parse(Trim(text)));
          Session([], slots, s.replies + replies)
  {
    TypedCharsAppend(ro, s, text);
    FeedAllConcat(ro, s, Chars(text), [Enter]);
    assert s.line + Encode(text) == Encode(text);
    var typed := s.(line := Encode(text));
    DecodeEncode(text);
    TrimSpec(text);
    assert [Enter][1..] == [];
    assert FeedAll(ro, typed, [Enter]) == Feed(ro, typed, Enter);
    assert s.replies + [] == s.replies;
  }

  /** White space around a line does not change what it does. */
  lemma {:induction false} PaddingIsIgnored(ro: seq<File>, s: Session, a: string, text: string, b: string)
    requires s.line == [] && Blank(a) && Blank(b) && AllPrintable(a + (text + b)) && |a + (text + b)| <= MAX_LINE_LEN
    ensures FeedAll(ro, s, Chars(a + (text + b)) + [Enter]) == FeedAll(ro, s, Chars(text) + [Enter])
  {
    var line := a + (text + b);
    forall i | 0 <= i < |text| ensures Printable(text[i]) {
      assert text[i] == line[|a| + i];
    }
    AnyLineRuns(ro, s, line);
    AnyLineRuns(ro, s, text);
    TrimIgnoresPadding(a, text, b);
    TrimSpec(line);
    TrimSpec(text);
  }

  /** `ls` answers with the listing and changes nothing. */
  lemma {:induction false} TypedLs(ro: seq<File>, s: Session)
    requires s.line == []
    ensures FeedAll(ro, s, Chars("ls") + [Enter]) == s.(replies := s.replies + [Listed(Listing(ro, s.slots))])
  {
    var verb: string := "ls";
    assert verb + "" == verb;
    VerbDecides(verb, "");
    TrimFixed(verb);
    AnyLineRuns(ro, s, verb);
    assert !IsWhitespace(verb[0]);
  }

  /** A trimmed line is executed as it stands. */
  lemma {:induction false} TrimmedLineRuns(ro: seq<File>, s: Session, line: string)
    requires s.line == [] && line != "" && Trimmed(line) && AllPrintable(line) && |line| <= MAX_LINE_LEN
    ensures
      var (slots, replies) := Execute(ro, s.slots, Parse(line));
      FeedAll(ro, s, Chars(line) + [Enter]) == Session([], slots, s.replies + replies)
  {
    TrimFixed(line);
    AnyLineRuns(ro, s, line);
    TrimSpec(line);
  }

  /** The first word of a line, and the rest. */
  predicate LineOf(verb: string, rest: string) {
    && Word(verb) && (rest == "" || IsWhitespace(rest[0]))
    && Trimmed(verb + rest) && AllPrintable(verb + rest) && |verb + rest| <= MAX_LINE_LEN
  }

  /** The informational verbs are answered as such, whatever follows them, and change no file. */
  lemma {:induction false} TypedInfo(ro: seq<File>, s: Session, verb: string, rest: string)
    requires s.line == [] && LineOf(verb, rest)
    requires verb in {"help", "info", "ticks", "mem", "tasks", "storage", "clear"}
    ensures FeedAll(ro, s, Chars(verb + rest) + [Enter]) == s.(replies := s.replies + [Info(verb)])
  {
    VerbDecides(verb, rest);
    TrimmedLineRuns(ro, s, verb + rest);
  }

  /** `cat` and `rm` alone are answered with their usage. */
  lemma {:induction false} TypedUsage(ro: seq<File>, s: Session, verb: string)
    requires s.line == [] && verb in {"cat", "rm"} && LineOf(verb, "")
    ensures FeedAll(ro, s, Chars(verb) + [Enter]) == s.(replies := s.replies + [UsageOf(verb)])
  {
    VerbDecides(verb, "");
    assert verb + "" == verb;
    TrimmedLineRuns(ro, s, verb);
  }

  /** A line with any other first word is answered as unrecognized, and changes no file. */
  lemma {:induction false} TypedUnknown(ro: seq<File>, s: Session, verb: string, rest: string)
    requires s.line == [] && LineOf(verb, rest)
    requires verb !in {"ls", "help", "info", "ticks", "mem", "tasks", "storage", "clear", "cat", "rm", "write"}
    ensures FeedAll(ro, s, Chars(verb + rest) + [Enter]) == s.(replies := s.replies + [Unrecognized(verb + rest)])
  {
    VerbDecides(verb, rest);
    TrimmedLineRuns(ro, s, verb + rest);
  }

  /** `write` without text is answered with its usage. */
  lemma {:induction false} TypedWriteUsage(ro: seq<File>, s: Session, p: string)
    requires s.line == [] && Path(p) && |"write " + p| <= MAX_LINE_LEN
    ensures FeedAll(ro, s, Chars("write " + p) + [Enter]) == s.(replies := s.replies + [UsageOf("write")])
  {
    var verb: string := "write";
    VerbAndPath(verb, p);
    assert verb + " " + p == "write " + p;
    WriteNeedsText(p);
    AnyLineRuns(ro, s, "write " + p);
    TrimSpec("write " + p);
  }

  /** A line that is not UTF-8 is refused: no file changes, and the line is dropped. */
  lemma {:induction false} UndecodableLine(ro: seq<File>, s: Session)
    requires Decode(s.line) == None
    ensures Feed(ro, s, Enter) == s.(line := [], replies := s.replies + [InvalidInput])
  {
  }

  /** Backspace on an empty line does nothing. */
  lemma {:induction false} BackspaceOnEmpty(ro: seq<File>, s: Session)
    requires s.line == []
    ensures Feed(ro, s, Backspace) == s
  {
  }

  function EnterLine(text: string): seq<Byte> {
    Typing(text) + [ENTER]
  }

  /** Any printable line can be typed, from either shift state. */
  lemma LineCanBeTyped(shift: bool, text: string)
    requires AllPrintable(text)
    ensures TranslateAll(shift, EnterLine(text)).1 == Chars(text) + [Enter]
  {
    TypingDecodes(shift, text);
    TranslateAllConcat(shift, Typing(text), [ENTER]);
    var mid := TranslateAll(shift, Typing(text)).0;
    assert [ENTER][1..] == [];
    assert TranslateAll(mid, [ENTER]).1 == [Enter] + [];
  }

  function WriteText(p: string, t: string): string { "write " + p + " " + t }
  function CatText(p: string): string { "cat " + p }
  function RmText(p: string): string { "rm " + p }

  /** Text that survives the trim at the end of the line. */
  predicate Content(t: string) {
    t != "" && AllPrintable(t) && !IsWhitespace(t[|t| - 1])
  }

  predicate Path(p: string) {
    Word(p) && AllPrintable(p)
  }

  lemma TypedWrite(ro: seq<File>, s: Session, p: string, t: string)
    requires s.line == [] && Path(p) && Content(t) && |WriteText(p, t)| <= MAX_LINE_LEN
    ensures
      var (slots, outcome) := Apply(ro, s.slots, Write(p, t));
      FeedAll(ro, s, Chars(WriteText(p, t)) + [Enter])
        == Session([], slots, s.replies + [if outcome == Done then Written(p) else WriteFailed(outcome.error)])
  {
    WriteLine(p, t);
    TypedLineRuns(ro, s, WriteText(p, t));
  }

  lemma TypedCat(ro: seq<File>, s: Session, p: string)
    requires s.line == [] && Path(p) && |CatText(p)| <= MAX_LINE_LEN
    ensures
      var contents := Read(ro, s.slots, p);
      FeedAll(ro, s, Chars(CatText(p)) + [Enter])
        == Session([], s.slots, s.replies + [if contents.Some? then Shown(contents.value) else Missing(p)])
  {
    CatLine(p);
    TypedLineRuns(ro, s, CatText(p));
  }

  lemma TypedRm(ro: seq<File>, s: Session, p: string)
    requires s.line == [] && Path(p) && |RmText(p)| <= MAX_LINE_LEN
    ensures
      var (slots, outcome) := Apply(ro, s.slots, Remove(p));
      FeedAll(ro, s, Chars(RmText(p)) + [Enter])
        == Session([], slots, s.replies + [if outcome == Done then Removed(p) else RemoveFailed(outcome.error)])
  {
    RmLine(p);
    TypedLineRuns(ro, s, RmText(p));
  }

  /** The overlay accepts a write to this path: the path is acceptable, and
      already stored or one of fewer than eight. */
  predicate HasRoom(slots: seq<Entry>, p: string) {
    Normalize(p).Ok? && (Normalize(p).value in ToMap(slots) || |ToMap(slots)| < MAX_OVERLAY_FILES)
  }

  lemma RoomIsEnough(ro: seq<File>, slots: seq<Entry>, p: string, t: string)
    requires Inv(slots) && HasRoom(slots, p) && AllPrintable(t) && |t| <= MAX_LINE_LEN
    ensures Apply(ro, slots, Write(p, t)).1 == Done
  {
    assert IsAscii(t);
    AsciiLength(t);
    ApplyRefines(ro, slots, Write(p, t));
  }

  /** End to end, from scancodes to the console: whenever the keys typed are
      `write p t`, Enter, `cat q`, Enter, with `q` any spelling of `p`, and the
      overlay has room, the shell answers with exactly `t`. */
  lemma WriteThenCat(ro: seq<File>, s: Session, shift: bool, codes: seq<Byte>, p: string, t: string, q: string)
    requires s.line == [] && Inv(s.slots) && Path(p) && Path(q) && Content(t) && Alias(p, q) && HasRoom(s.slots, p)
    requires |WriteText(p, t)| <= MAX_LINE_LEN && |CatText(q)| <= MAX_LINE_LEN
    requires TranslateAll(shift, codes).1
      == (Chars(WriteText(p, t)) + [Enter]) + (Chars(CatText(q)) + [Enter])
    ensures FeedAll(ro, s, TranslateAll(shift, codes).1)
      == Session([], Apply(ro, s.slots, Write(p, t)).0, s.replies + [Written(p), Shown(t)])
  {
    RoomIsEnough(ro, s.slots, p, t);
    TypedWrite(ro, s, p, t);
    var written := FeedAll(ro, s, Chars(WriteText(p, t)) + [Enter]);
    TypedCat(ro, written, q);
    ReadAfterWrite(ro, s.slots, p, t, q);
    FeedAllConcat(ro, s, Chars(WriteText(p, t)) + [Enter], Chars(CatText(q)) + [Enter]);
  }

  /** Such a run of keys exists for every such text, from either shift state. */
  lemma WriteThenCatCanBeTyped(shift: bool, p: string, t: string, q: string)
    requires Path(p) && Path(q) && Content(t)
    ensures TranslateAll(shift, EnterLine(WriteText(p, t)) + EnterLine(CatText(q))).1
      == (Chars(WriteText(p, t)) + [Enter]) + (Chars(CatText(q)) + [Enter])
  {
    LineCanBeTyped(shift, WriteText(p, t));
    LineCanBeTyped(TranslateAll(shift, EnterLine(WriteText(p, t))).0, CatText(q));
    TranslateAllConcat(shift, EnterLine(WriteText(p, t)), EnterLine(CatText(q)));
  }

  /** Writing a file that was not stored and removing it again leaves every path
      readable as before. */
  lemma WriteThenRm(ro: seq<File>, s: Session, p: string, t: string, q: string)
    requires s.line == [] && Inv(s.slots) && Path(p) && Content(t) && HasRoom(s.slots, p)
    requires Normalize(p).value !in ToMap(s.slots)
    requires |WriteText(p, t)| <= MAX_LINE_LEN
    ensures
      var end := FeedAll(ro, s, (Chars(WriteText(p, t)) + [Enter]) + (Chars(RmText(p)) + [Enter]));
      && end.replies == s.replies + [Written(p), Removed(p)]
      && Read(ro, end.slots, q) == Read(ro, s.slots, q)
  {
    RoomIsEnough(ro, s.slots, p, t);
    TypedWrite(ro, s, p, t);
    var written := FeedAll(ro, s, Chars(WriteText(p, t)) + [Enter]);
    TypedRm(ro, written, p);
    WriteThenRemove(ro, s.slots, p, t, q);
    FeedAllConcat(ro, s, Chars(WriteText(p, t)) + [Enter], Chars(RmText(p)) + [Enter]);
  }
}
