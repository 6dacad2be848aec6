/**
 The file system object: eight slots of fixed byte buffers, updated in place.
 Each method is proved against the operations on slot values in `Overlay`; the
 bytes left behind in a buffer by an earlier, longer file never show.
 */
module Vfs {
  import opened Words
  import opened Utf8
  import opened Paths
  import opened Overlay
  import opened OverlayLaws

  class OverlayFile {
    var used: bool
    var pathLen: nat
    var contentsLen: nat
    const path: array<Byte>
    const contents: array<Byte>

    /** The used part of each buffer is well-formed text. */
    ghost predicate Valid()
      reads this, path, contents
    {
      && path.Length == MAX_PATH_LEN && contents.Length == MAX_CONTENT_LEN && path != contents
      && pathLen <= MAX_PATH_LEN && contentsLen <= MAX_CONTENT_LEN
      && (used ==> Decode(path[..pathLen]).Some? && Decode(contents[..contentsLen]).Some?)
    }

    ghost function View(): Entry
      requires Valid()
      reads this, path, contents
    {
      if used then Stored(Decode(path[..pathLen]).value, Decode(contents[..contentsLen]).value) else Free
    }

    constructor ()
      ensures Valid() && View() == Free && fresh(path) && fresh(contents)
    {
      used, pathLen, contentsLen := false, 0, 0;
      path := new Byte[MAX_PATH_LEN](_ => 0);
      contents := new Byte[MAX_CONTENT_LEN](_ => 0);
    }

    /** Overwrites the slot; only the leading bytes of each buffer change. */
    method Write(name: string, bytes: seq<Byte>, ghost text: string)
      requires Valid() && |Encode(name)| <= MAX_PATH_LEN
      requires bytes == Encode(text) && |bytes| <= MAX_CONTENT_LEN
      modifies this, path, contents
      ensures Valid() && View() == Stored(name, text)
      ensures forall i :: |Encode(name)| <= i < MAX_PATH_LEN ==> path[i] == old(path[i])
      ensures forall i :: |bytes| <= i < MAX_CONTENT_LEN ==> contents[i] == old(contents[i])
    {
      var nameBytes := Encode(name);
      used := true;
      pathLen := |nameBytes|;
      contentsLen := |bytes|;
      forall i | 0 <= i < |nameBytes| {
        path[i] := nameBytes[i];
      }
      forall i | 0 <= i < |bytes| {
        contents[i] := bytes[i];
      }
      assert path[..pathLen] == nameBytes;
      assert contents[..contentsLen] == bytes;
      DecodeEncode(name);
      DecodeEncode(text);
    }

    /** Back to the empty slot, buffers zeroed. */
    method Clear()
      requires Valid()
      modifies this, path, contents
      ensures Valid() && View() == Free
    {
      used, pathLen, contentsLen := false, 0, 0;
      forall i | 0 <= i < path.Length {
        path[i] := 0;
      }
      forall i | 0 <= i < contents.Length {
        contents[i] := 0;
      }
    }

    predicate Matches(bytes: seq<Byte>)
      requires Valid()
      reads this, path, contents
    {
      used && pathLen == |bytes| && path[..pathLen] == bytes
    }

    /** Comparing bytes is comparing names. */
    lemma MatchesName(name: string)
      requires Valid()
      ensures Matches(Encode(name)) <==> Holds(View(), name)
    {
      DecodeEncode(name);
      if used { EncodeDecode(path[..pathLen]); }
    }
  }

  class FileSystem {
    const files: seq<OverlayFile>
    const readOnly: seq<File>

    /** Eight slots that share no storage. */
    ghost predicate Valid()
      reads this, files, set f | f in files :: f.path, set f | f in files :: f.contents
    {
      && |files| == MAX_OVERLAY_FILES
      && (forall i :: 0 <= i < |files| ==> files[i].Valid())
      && (forall i, j :: 0 <= i < j < |files| ==> Apart(files[i], files[j]))
    }

    static ghost predicate Apart(a: OverlayFile, b: OverlayFile) {
      && a != b && a.path != b.path && a.contents != b.contents
      && a.path != b.contents && a.contents != b.path
    }

    ghost function View(): (v: seq<Entry>)
      requires Valid()
      reads this, files, set f | f in files :: f.path, set f | f in files :: f.contents
      ensures |v| == |files| && forall i :: 0 <= i < |v| ==> v[i] == files[i].View()
    {
      seq(|files|, i requires 0 <= i < |files| requires Valid()
        reads this, files, set f | f in files :: f.path, set f | f in files :: f.contents => files[i].View())
    }

    /** All slots empty. */
    constructor (readOnly: seq<File>)
      ensures Valid() && this.readOnly == readOnly && View() == EMPTY
    {
      var made: seq<OverlayFile> := [];
      while |made| < MAX_OVERLAY_FILES
        invariant |made| <= MAX_OVERLAY_FILES
        invariant forall i :: 0 <= i < |made| ==>
          fresh(made[i]) && fresh(made[i].path) && fresh(made[i].contents) && made[i].Valid() && made[i].View() == Free
        invariant forall i, j :: 0 <= i < j < |made| ==> Apart(made[i], made[j])
      {
        var file := new OverlayFile();
        made := made + [file];
      }
      files := made;
      this.readOnly := readOnly;
    }

    /** First slot holding `name`. */
    method Lookup(name: string) returns (at: Option<nat>)
      requires Valid()
      ensures at == FindPath(View(), name, 0)
    {
      var bytes := Encode(name);
      var i := 0;
      while i < |files|
        invariant i <= |files| && FindPath(View(), name, 0) == FindPath(View(), name, i)
      {
        files[i].MatchesName(name);
        if files[i].Matches(bytes) {
          return Some(i);
        }
        i := i + 1;
      }
      return None;
    }

    method LookupFree() returns (at: Option<nat>)
      requires Valid()
      ensures at == FindFree(View(), 0)
    {
      var i := 0;
      while i < |files|
        invariant i <= |files| && FindFree(View(), 0) == FindFree(View(), i)
      {
        if !files[i].used {
          return Some(i);
        }
        i := i + 1;
      }
      return None;
    }

    /** Writes one slot and leaves the seven others as they are. */
    method StoreAt(i: nat, name: string, bytes: seq<Byte>, ghost text: string)
      requires Valid() && i < |files| && |Encode(name)| <= MAX_PATH_LEN
      requires bytes == Encode(text) && |bytes| <= MAX_CONTENT_LEN
      modifies files[i], files[i].path, files[i].contents
      ensures Valid() && View() == old(View())[i := Stored(name, text)]
    {
      files[i].Write(name, bytes, text);
      forall j | 0 <= j < |files| && j != i ensures files[j].Valid() && files[j].View() == old(files[j].View()) {
        assert Apart(files[if i < j then i else j], files[if i < j then j else i]);
      }
    }

    method ClearAt(i: nat)
      requires Valid() && i < |files|
      modifies files[i], files[i].path, files[i].contents
      ensures Valid() && View() == old(View())[i := Free]
    {
      files[i].Clear();
      forall j | 0 <= j < |files| && j != i ensures files[j].Valid() && files[j].View() == old(files[j].View()) {
        assert Apart(files[if i < j then i else j], files[if i < j then j else i]);
      }
    }

    /** Normalization with a buffer of the caller's own. */
    method Normalized(path: string) returns (r: Result<string>)
      ensures r == Normalize(path)
    {
      var buffer := new Byte[MAX_PATH_LEN];
      r := NormalizePath(path, buffer);
    }

    /** A write once path and size are accepted: the slot that holds the name, else the first free one. */
    method WriteNormal(name: string, contents: string) returns (outcome: Outcome)
      requires Valid() && |Encode(name)| <= MAX_PATH_LEN && |Encode(contents)| <= MAX_CONTENT_LEN
      modifies files, set f | f in files :: f.path, set f | f in files :: f.contents
      ensures Valid()
      ensures (View(), outcome) == WriteSlots(old(View()), name, contents)
    {
      var slot := Lookup(name);
      if slot.None? {
        slot := LookupFree();
      }
      if slot.None? {
        return Failed(NoSpace);
      }
      StoreAt(slot.value, name, Encode(contents), contents);
      return Done;
    }

    method Write(path: string, contents: string) returns (outcome: Outcome)
      requires Valid()
      modifies files, set f | f in files :: f.path, set f | f in files :: f.contents
      ensures Valid()
      ensures (View(), outcome) == Apply(readOnly, old(View()), Overlay.Write(path, contents))
    {
      var normalized := Normalized(path);
      if normalized.Err? {
        return Failed(normalized.error);
      }
      NormalizeSpec(path);
      if |Encode(contents)| > MAX_CONTENT_LEN {
        return Failed(ContentTooLong);
      }
      outcome := WriteNormal(normalized.value, contents);
    }

    method Remove(path: string) returns (outcome: Outcome)
      requires Valid()
      modifies files, set f | f in files :: f.path, set f | f in files :: f.contents
      ensures Valid()
      ensures (View(), outcome) == Apply(readOnly, old(View()), Overlay.Remove(path))
    {
      var normalized := Normalized(path);
      if normalized.Err? {
        return Failed(normalized.error);
      }
      var at := Lookup(normalized.value);
      if at.Some? {
        ClearAt(at.value);
        return Done;
      }
      if Find(readOnly, normalized.value).Some? {
        return Failed(ReadOnly);
      }
      return Failed(NotFound);
    }

    /** Contents stored under a normalized name, decoded from the slot's bytes. */
    method ReadOverlay(name: string) returns (r: Option<string>)
      requires Valid()
      ensures r == var at := FindPath(View(), name, 0); if at.Some? then Some(View()[at.value].contents) else None
    {
      var at := Lookup(name);
      if at == None {
        return None;
      }
      var entry := files[at.value];
      r := Decode(entry.contents[..entry.contentsLen]);
    }

    method Read(path: string) returns (r: Option<string>)
      requires Valid()
      ensures r == Overlay.Read(readOnly, View(), path)
    {
      var normalized := Normalized(path);
      if normalized.Err? {
        return None;
      }
      r := ReadOverlay(normalized.value);
      if r == None {
        r := Find(readOnly, normalized.value);
      }
    }

    method Exists(path: string) returns (found: bool)
      requires Valid()
      ensures found <==> Overlay.Read(readOnly, View(), path).Some?
    {
      var normalized := Normalized(path);
      if normalized.Err? {
        return false;
      }
      var r := ReadOverlay(normalized.value);
      found := r.Some? || Find(readOnly, normalized.value).Some?;
    }

    /** Names of used slots, in slot order; decoding them never fails. */
    method StoredPaths() returns (visited: seq<string>)
      requires Valid()
      ensures visited == StoredNames(View())
    {
      visited := [];
      for i := 0 to |files|
        invariant visited == StoredNames(View()[..i])
      {
        assert View()[..i + 1][..i] == View()[..i];
        var entry := files[i];
        if entry.used {
          var name := Decode(entry.path[..entry.pathLen]);
          if name.Some? {
            visited := visited + [name.value];
          }
        }
      }
      assert View()[..|files|] == View();
    }

    /** The names passed to the visitor, in order. */
    method ForEachEntry() returns (visited: seq<string>)
      requires Valid()
      ensures visited == Listing(readOnly, View())
    {
      visited := StoredPaths();
      ghost var stored := visited;
      for i := 0 to |readOnly|
        invariant visited == stored + BareNames(readOnly[..i], View())
      {
        assert readOnly[..i + 1][..i] == readOnly[..i];
        var shadow := Lookup(readOnly[i].path);
        if shadow.Some? {
          continue;
        }
        visited := visited + [readOnly[i].path];
      }
      assert readOnly[..|readOnly|] == readOnly;
    }
  }
}
