/**
 The shell object: a fixed line buffer edited in place in front of the file
 system object, proved against `ShellSession`.
 */
module Shell {
  import opened Words
  import opened Utf8
  import opened Paths
  import opened Overlay
  import opened OverlayLaws
  import opened Keyboard
  import opened Commands
  import opened ShellSession
  import Vfs

  class LineShell {
    var initialized: bool
    const buffer: array<Byte>
    var len: nat

    ghost predicate Valid()
      reads this
    {
      buffer.Length == MAX_LINE_LEN && len <= MAX_LINE_LEN
    }

    /** The bytes of the line being edited. */
    ghost function Line(): seq<Byte>
      requires Valid()
      reads this, buffer
    {
      buffer[..len]
    }

    constructor ()
      ensures Valid() && fresh(buffer) && !initialized && Line() == []
    {
      initialized := false;
      buffer := new Byte[MAX_LINE_LEN](_ => 0);
      len := 0;
    }

    method Initialize()
      requires Valid()
      modifies this`initialized
      ensures Valid() && initialized && Line() == old(Line())
    {
      if initialized {
        return;
      }
      initialized := true;
    }

    /** Runs one parsed command against the file system. */
    method ExecuteCommand(fs: Vfs.FileSystem, command: Command) returns (replies: seq<Reply>)
      requires fs.Valid()
      modifies fs.files, set f | f in fs.files :: f.path, set f | f in fs.files :: f.contents
      ensures fs.Valid()
      ensures (fs.View(), replies) == Execute(fs.readOnly, old(fs.View()), command)
    {
      match command {
        case WriteFile(path, contents) =>
          var outcome := fs.Write(path, contents);
          replies := [if outcome == Done then Written(path) else WriteFailed(outcome.error)];
        case ShowFile(path) =>
          var contents := fs.Read(path);
          replies := [if contents.Some? then Shown(contents.value) else Missing(path)];
        case RemoveFile(path) =>
          var outcome := fs.Remove(path);
          replies := [if outcome == Done then Removed(path) else RemoveFailed(outcome.error)];
        case ListFiles =>
          var names := fs.ForEachEntry();
          replies := [Listed(names)];
        case Usage(verb) => replies := [UsageOf(verb)];
        case Informational(verb) => replies := [Info(verb)];
        case Unknown(line) => replies := [Unrecognized(line)];
        case Empty => replies := [];
      }
    }

    method ExecuteCurrentLine(fs: Vfs.FileSystem) returns (replies: seq<Reply>)
      requires Valid() && fs.Valid()
      modifies this`len, fs.files, set f | f in fs.files :: f.path, set f | f in fs.files :: f.contents
      ensures Valid() && fs.Valid() && Line() == []
      ensures (fs.View(), replies) == ExecuteLine(fs.readOnly, old(fs.View()), old(Line()))
    {
      var text := Decode(buffer[..len]);
      if text == None {
        len := 0;
        return [InvalidInput];
      }
      var line := Trim(text.value);
      if line == "" {
        len := 0;
        return [];
      }
      replies := ExecuteCommand(fs, Parse(line));
      len := 0;
    }

    /** One key event on an initialized shell; before that, keys are ignored. */
    method OnKey(fs: Vfs.FileSystem, event: KeyEvent, ghost before: seq<Reply>) returns (replies: seq<Reply>)
      requires Valid() && fs.Valid()
      requires forall f :: f in fs.files ==> f.path != buffer && f.contents != buffer
      modifies this`len, buffer, fs.files, set f | f in fs.files :: f.path, set f | f in fs.files :: f.contents
      ensures Valid() && fs.Valid()
      ensures
        if initialized then
          Session(Line(), fs.View(), before + replies)
            == Feed(fs.readOnly, Session(old(Line()), old(fs.View()), before), event)
        else Line() == old(Line()) && fs.View() == old(fs.View()) && replies == []
    {
      if !initialized {
        return [];
      }
      assert before + [] == before;
      match event {
        case Enter =>
          replies := ExecuteCurrentLine(fs);
        case Backspace =>
          if len > 0 {
            len := len - 1;
          }
          replies := [];
        case Char(c) =>
          if len < MAX_LINE_LEN {
            buffer[len] := CharByte(c);
            len := len + 1;
            replies := [];
          } else {
            len := 0;
            replies := [InputTooLong];
          }
      }
    }
  }
}
