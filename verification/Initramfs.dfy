/** The read-only files the kernel carries. */
module Initramfs {
  import opened Words
  import opened Utf8
  import opened Paths
  import opened Overlay
  import opened OverlayLaws

  const README_PATH := "/README.TXT"
  const STATUS_PATH := "/STATUS.TXT"
  const ROADMAP_PATH := "/ROADMAP.TXT"
  const COMMANDS_PATH := "/COMMANDS.TXT"

  /** The table, whatever the four files contain. */
  function Table(readme: string, status: string, roadmap: string, commands: string): seq<File> {
    [File(README_PATH, readme), File(STATUS_PATH, status), File(ROADMAP_PATH, roadmap), File(COMMANDS_PATH, commands)]
  }

  /** A slash and then capital letters and dots, at most 32 in all. */
  predicate Plain(path: string) {
    && 1 <= |path| <= MAX_PATH_LEN && path[0] == '/'
    && forall i :: 0 < i < |path| ==> 'A' <= path[i] <= 'Z' || path[i] == '.'
  }

  lemma PlainIsNormal(path: string)
    requires Plain(path)
    ensures Normal(path)
  {
    assert IsAscii(path);
    AsciiLength(path);
  }

  lemma PlainNames()
    ensures Plain(README_PATH) && Plain(STATUS_PATH) && Plain(ROADMAP_PATH) && Plain(COMMANDS_PATH)
  {
  }

  lemma NamesDiffer()
    ensures README_PATH != STATUS_PATH && README_PATH != ROADMAP_PATH && README_PATH != COMMANDS_PATH
    ensures STATUS_PATH != ROADMAP_PATH && STATUS_PATH != COMMANDS_PATH && ROADMAP_PATH != COMMANDS_PATH
  {
    assert README_PATH[1] == 'R' && STATUS_PATH[1] == 'S' && COMMANDS_PATH[1] == 'C';
    assert README_PATH[2] == 'E' && ROADMAP_PATH[1] == 'R' && ROADMAP_PATH[2] == 'O';
  }

  lemma TableOfPlainNames(ro: seq<File>)
    requires DistinctFiles(ro) && forall i :: 0 <= i < |ro| ==> Plain(ro[i].path)
    ensures TableOk(ro)
  {
    forall i | 0 <= i < |ro| ensures Normal(ro[i].path) {
      PlainIsNormal(ro[i].path);
    }
  }

  /** The four read-only paths are distinct and in normal form. */
  lemma InitramfsIsOk(readme: string, status: string, roadmap: string, commands: string)
    ensures TableOk(Table(readme, status, roadmap, commands))
  {
    PlainNames();
    NamesDiffer();
    TableOfPlainNames(Table(readme, status, roadmap, commands));
  }

  /** Each of the four files is found under its own path. */
  lemma {:induction false} FilesByName(readme: string, status: string, roadmap: string, commands: string)
    ensures
      var ro := Table(readme, status, roadmap, commands);
      && Find(ro, "/README.TXT") == Some(readme) && Find(ro, "/STATUS.TXT") == Some(status)
      && Find(ro, "/ROADMAP.TXT") == Some(roadmap) && Find(ro, "/COMMANDS.TXT") == Some(commands)
  {
    var ro := Table(readme, status, roadmap, commands);
    InitramfsIsOk(readme, status, roadmap, commands);
    FindContents(ro, 0);
    FindContents(ro, 1);
    FindContents(ro, 2);
    FindContents(ro, 3);
  }

  /** With nothing written every file reads as what the kernel carries, with or without its slash. */
  lemma {:induction false} ReadAfterBoot(ro: seq<File>, i: nat, name: string)
    requires TableOk(ro) && i < |ro| && name != "" && name[0] != '/' && ro[i].path == "/" + name
    ensures Read(ro, EMPTY, ro[i].path) == Some(ro[i].contents)
    ensures Trimmed(name) ==> Read(ro, EMPTY, name) == Some(ro[i].contents)
  {
    FindContents(ro, i);
    NormalIsFixed(ro[i].path);
    assert FindPath(EMPTY, ro[i].path, 0) == None;
    if Trimmed(name) { SlashIsOptional(name); }
  }

  /** A path whose slash-led form is normal is an alias of it. */
  lemma {:induction false} SlashIsOptional(name: string)
    requires name != "" && name[0] != '/' && Trimmed(name) && Normal("/" + name)
    ensures Normalize(name) == Ok("/" + name)
  {
    TrimFixed(name);
  }
}
