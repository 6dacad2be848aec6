/**
 How the shell reads a command line.
 */
module Commands {
  import opened Words
  import opened Paths

  datatype Command =
    | WriteFile(path: string, contents: string)
    | ShowFile(path: string)
    | RemoveFile(path: string)
    | ListFiles
    | Usage(verb: string)
    | Informational(verb: string)   // help, info, ticks, mem, tasks, storage, clear
    | Unknown(line: string)
    | Empty

  // ---- words ----

  /** Length of the leading run without white space. */
  function WordLength(s: string): (n: nat)
    ensures n <= |s|
    ensures forall i :: 0 <= i < n ==> !IsWhitespace(s[i])
    ensures n < |s| ==> IsWhitespace(s[n])
  {
    if s == "" || IsWhitespace(s[0]) then 0 else 1 + WordLength(s[1..])
  }

  /** The next word of a split at white space, and what follows it. */
  function NextWord(s: string): (Option<string>, string) {
    var t := TrimStart(s);
    if t == "" then (None, "") else (Some(t[..WordLength(t)]), t[WordLength(t)..])
  }

  /** Split at the first space. */
  function SplitOnce(s: string): Option<(string, string)> {
    if s == "" then None
    else if s[0] == ' ' then Some(("", s[1..]))
    else
      var rest := SplitOnce(s[1..]);
      if rest == None then None else Some(([s[0]] + rest.value.0, rest.value.1))
  }

  const WRITE_PREFIX := "write "

  predicate IsInformational(verb: string) {
    verb in {"help", "info", "ticks", "mem", "tasks", "storage", "clear"}
  }

  function ParseWrite(line: string): Command {
    if !(WRITE_PREFIX <= line) then Usage("write")
    else
      var parts := SplitOnce(line[|WRITE_PREFIX|..]);
      if parts == None then Usage("write") else WriteFile(parts.value.0, parts.value.1)
  }

  function ParseWithPath(verb: string, rest: string): Command {
    var path := NextWord(rest).0;
    if path == None then Usage(verb)
    else if verb == "cat" then ShowFile(path.value)
    else RemoveFile(path.value)
  }

  /** A trimmed line. */
  function Parse(line: string): Command {
    var (verb, rest) := NextWord(line);
    if verb == None then Empty
    else if verb.value == "write" then ParseWrite(line)
    else if verb.value == "cat" || verb.value == "rm" then ParseWithPath(verb.value, rest)
    else if verb.value == "ls" then ListFiles
    else if IsInformational(verb.value) then Informational(verb.value)
    else Unknown(line)
  }

  // ---- what the lines users write mean ----

  /** Non-empty and free of white space. */
  predicate Word(s: string) {
    s != "" && forall i :: 0 <= i < |s| ==> !IsWhitespace(s[i])
  }

  lemma {:induction false} WordLengthOf(w: string, rest: string)
    requires (forall i :: 0 <= i < |w| ==> !IsWhitespace(w[i])) && (rest == "" || IsWhitespace(rest[0]))
    ensures WordLength(w + rest) == |w|
  {
    if w == "" {
      assert w + rest == rest;
    } else {
      assert (w + rest)[1..] == w[1..] + rest;
      WordLengthOf(w[1..], rest);
    }
  }

  lemma WordThenSpace(w: string, rest: string)
    requires Word(w) && (rest == "" || IsWhitespace(rest[0]))
    ensures NextWord(w + rest) == (Some(w), rest)
  {
    var s := w + rest;
    assert s[0] == w[0];
    WordLengthOf(w, rest);
    assert s[..|w|] == w && s[|w|..] == rest;
  }

  lemma {:induction false} SplitAfterWord(w: string, rest: string)
    requires forall i :: 0 <= i < |w| ==> w[i] != ' '
    ensures SplitOnce(w + " " + rest) == Some((w, rest))
  {
    var s := w + " " + rest;
    if w == "" {
      assert s[1..] == rest;
    } else {
      assert s[1..] == w[1..] + " " + rest;
      SplitAfterWord(w[1..], rest);
      assert w == [w[0]] + w[1..];
    }
  }

  /** `write p t` writes text `t` to path `p`. */
  lemma WriteLine(p: string, t: string)
    requires Word(p) && t != "" && !IsWhitespace(t[|t| - 1])
    ensures Trim("write " + p + " " + t) == "write " + p + " " + t
    ensures Parse("write " + p + " " + t) == WriteFile(p, t)
  {
    var line := "write " + p + " " + t;
    var verb: string := "write";
    assert line[0] == 'w' && line[|line| - 1] == t[|t| - 1];
    TrimFixed(line);
    var rest := " " + p + " " + t;
    assert line == verb + rest;
    WordThenSpace(verb, rest);
    assert line[|WRITE_PREFIX|..] == p + " " + t;
    assert WRITE_PREFIX <= line;
    SplitAfterWord(p, t);
  }

  lemma VerbAndPath(verb: string, p: string)
    requires Word(verb) && Word(p)
    ensures var line := verb + " " + p; Trim(line) == line && NextWord(line) == (Some(verb), " " + p)
    ensures NextWord(" " + p).0 == Some(p)
  {
    var line, rest := verb + " " + p, " " + p;
    assert line[0] == verb[0] && line[|line| - 1] == p[|p| - 1];
    TrimFixed(line);
    assert line == verb + rest;
    WordThenSpace(verb, rest);
    assert rest[1..] == p;
    assert TrimStart(rest) == TrimStart(p) == p;
    WordThenSpace(p, "");
    assert p + "" == p;
  }

  /** `cat p` shows path `p`. */
  lemma CatLine(p: string)
    requires Word(p)
    ensures Trim("cat " + p) == "cat " + p
    ensures Parse("cat " + p) == ShowFile(p)
  {
    var verb: string := "cat";
    VerbAndPath(verb, p);
    assert "cat " + p == verb + " " + p;
  }

  /** `rm p` removes path `p`. */
  lemma RmLine(p: string)
    requires Word(p)
    ensures Trim("rm " + p) == "rm " + p
    ensures Parse("rm " + p) == RemoveFile(p)
  {
    var verb: string := "rm";
    VerbAndPath(verb, p);
    assert "rm " + p == verb + " " + p;
  }

  lemma VerbAlone(verb: string)
    requires verb in {"write", "cat", "rm"}
    ensures Parse(verb) == Usage(verb)
  {
    assert verb + "" == verb;
    WordThenSpace(verb, "");
  }

  /** `write` without text gets the usage answer. */
  lemma WriteNeedsText(p: string)
    requires Word(p)
    ensures Parse("write " + p) == Usage("write")
  {
    var verb: string := "write";
    VerbAndPath(verb, p);
    assert "write " + p == verb + " " + p;
    assert ("write " + p)[|WRITE_PREFIX|..] == p;
    NoSpaceToSplit(p);
  }

  lemma {:induction false} NoSpaceToSplit(s: string)
    requires forall i :: 0 <= i < |s| ==> s[i] != ' '
    ensures SplitOnce(s) == None
  {
    if s != "" { NoSpaceToSplit(s[1..]); }
  }

  /** What a command writes is a suffix of its line. */
  lemma WriteIsSuffix(line: string)
    requires Parse(line).WriteFile?
    ensures |Parse(line).contents| < |line|
    ensures Parse(line).contents == line[|line| - |Parse(line).contents|..]
  {
    var args := line[|WRITE_PREFIX|..];
    SplitIsSuffix(args);
  }

  lemma {:induction false} SplitIsSuffix(s: string)
    requires SplitOnce(s).Some?
    ensures var t := SplitOnce(s).value.1; |t| < |s| && t == s[|s| - |t|..]
  {
    if s[0] != ' ' {
      SplitIsSuffix(s[1..]);
    }
  }

  // ---- every line ----

  /** Splitting is at the first space, and fails exactly when there is none. */
  lemma {:induction false} SplitExactly(s: string, a: string, b: string)
    ensures SplitOnce(s) == Some((a, b)) <==> s == a + " " + b && (forall i :: 0 <= i < |a| ==> a[i] != ' ')
    ensures SplitOnce(s) == None <==> forall i :: 0 <= i < |s| ==> s[i] != ' '
  {
    if s == a + " " + b && (forall i :: 0 <= i < |a| ==> a[i] != ' ') { SplitAfterWord(a, b); }
    SplitParts(s);
  }

  lemma {:induction false} SplitParts(s: string)
    ensures
      var r := SplitOnce(s);
      if r == None then forall i :: 0 <= i < |s| ==> s[i] != ' '
      else
        && s == r.value.0 + " " + r.value.1
        && (forall i :: 0 <= i < |r.value.0| ==> r.value.0[i] != ' ')
        && s[|r.value.0|] == ' '
  {
    if s != "" && s[0] != ' ' {
      SplitParts(s[1..]);
      var rest := SplitOnce(s[1..]);
      assert s == [s[0]] + s[1..];
      if rest.Some? { assert [s[0]] + (rest.value.0 + " " + rest.value.1) == ([s[0]] + rest.value.0) + " " + rest.value.1; }
    } else if s != "" {
      assert s == "" + " " + s[1..];
    }
  }

  /** A line is its first word and what follows it. */
  lemma {:induction false} FirstWord(line: string) returns (verb: string, rest: string)
    requires line != "" && !IsWhitespace(line[0])
    ensures Word(verb) && line == verb + rest && (rest == "" || IsWhitespace(rest[0]))
    ensures NextWord(line) == (Some(verb), rest)
  {
    var n := WordLength(line);
    verb, rest := line[..n], line[n..];
    assert TrimStart(line) == line;
  }

  /** What a line whose first word is `verb` means, for every verb. */
  lemma {:induction false} VerbDecides(verb: string, rest: string)
    requires Word(verb) && (rest == "" || IsWhitespace(rest[0]))
    ensures
      var line := verb + rest;
      && (verb == "ls" ==> Parse(line) == ListFiles)
      && (verb in {"help", "info", "ticks", "mem", "tasks", "storage", "clear"} ==> Parse(line) == Informational(verb))
      && (verb in {"cat", "rm"} && Blank(rest) ==> Parse(line) == Usage(verb))
      && (verb == "write" ==> Parse(line).WriteFile? || Parse(line) == Usage("write"))
      && (verb !in {"ls", "help", "info", "ticks", "mem", "tasks", "storage", "clear", "cat", "rm", "write"} ==>
          Parse(line) == Unknown(line))
  {
    WordThenSpace(verb, rest);
    if Blank(rest) {
      SkipBlank(rest, "");
      assert rest + "" == rest;
    }
  }

  lemma {:induction false} SkipBlank(a: string, t: string)
    requires Blank(a) && (t == "" || !IsWhitespace(t[0]))
    ensures TrimStart(a + t) == t
  {
    if a == "" {
      assert a + t == t;
    } else {
      assert (a + t)[1..] == a[1..] + t;
      SkipBlank(a[1..], t);
    }
  }

  /** `cat` and `rm` take the next word, however much white space is before it and whatever follows it. */
  lemma {:induction false} PathIsNextWord(verb: string, a: string, p: string, more: string)
    requires verb in {"cat", "rm"} && a != "" && Blank(a) && Word(p) && (more == "" || IsWhitespace(more[0]))
    ensures Parse(verb + (a + (p + more))) == if verb == "cat" then ShowFile(p) else RemoveFile(p)
  {
    var rest := a + (p + more);
    assert rest[0] == a[0];
    WordThenSpace(verb, rest);
    assert (p + more)[0] == p[0];
    SkipBlank(a, p + more);
    WordThenSpace(p, more);
    assert NextWord(rest) == NextWord(p + more);
  }

  /** `write` splits what follows its one space at the next space: path before, text after. */
  lemma {:induction false} WriteSplits(p: string, t: string)
    requires forall i :: 0 <= i < |p| ==> p[i] != ' '
    ensures Parse("write " + (p + " " + t)) == WriteFile(p, t)
  {
    var line := "write " + (p + " " + t);
    var verb: string := "write";
    var rest := " " + (p + " " + t);
    assert line == verb + rest;
    WordThenSpace(verb, rest);
    assert line[|WRITE_PREFIX|..] == p + " " + t;
    assert WRITE_PREFIX <= line;
    SplitAfterWord(p, t);
  }

  /** `write` followed by anything but a space gets the usage answer. */
  lemma {:induction false} WriteNeedsSpace(rest: string)
    requires rest == "" || (IsWhitespace(rest[0]) && rest[0] != ' ')
    ensures Parse("write" + rest) == Usage("write")
  {
    var verb: string := "write";
    var line := verb + rest;
    WordThenSpace(verb, rest);
    assert rest != "" ==> line[5] == rest[0] != WRITE_PREFIX[5];
  }
}
