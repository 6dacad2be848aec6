/**
 What callers of the overlay file system can rely on, in every state that a run
 of writes and removes can reach.
 */
module OverlayLaws {
  import opened Words
  import opened Utf8
  import opened Paths
  import opened Overlay

  // ---- runs ----

  /** Final slots and the outcome of each operation, in order. */
  function Run(ro: seq<File>, slots: seq<Entry>, ops: seq<Op>): (seq<Entry>, seq<Outcome>)
    decreases |ops|
  {
    if ops == [] then (slots, [])
    else
      var (next, outcome) := Apply(ro, slots, ops[0]);
      var (end, outcomes) := Run(ro, next, ops[1..]);
      (end, [outcome] + outcomes)
  }

  function RunMap(ro: seq<File>, m: Store, ops: seq<Op>): (Store, seq<Outcome>)
    decreases |ops|
  {
    if ops == [] then (m, [])
    else
      var (next, outcome) := ApplyMap(ro, m, ops[0]);
      var (end, outcomes) := RunMap(ro, next, ops[1..]);
      (end, [outcome] + outcomes)
  }

  lemma {:induction false} RunRefines(ro: seq<File>, slots: seq<Entry>, ops: seq<Op>)
    requires Inv(slots)
    ensures Inv(Run(ro, slots, ops).0)
    ensures RunMap(ro, ToMap(slots), ops) == (ToMap(Run(ro, slots, ops).0), Run(ro, slots, ops).1)
    decreases |ops|
  {
    if ops != [] {
      ApplyRefines(ro, slots, ops[0]);
      RunRefines(ro, Apply(ro, slots, ops[0]).0, ops[1..]);
    }
  }

  lemma {:induction false} NoEntries(n: nat)
    ensures ToMap(seq(n, _ => Free)) == map[]
  {
    if n > 0 {
      assert seq(n, _ => Free)[..n - 1] == seq(n - 1, _ => Free);
      NoEntries(n - 1);
    }
  }

  /** Every run from the empty overlay gives the outcomes, and ends in the
      contents, of the finite map; at most eight paths are ever stored. */
  lemma OverlayIsAMap(ro: seq<File>, ops: seq<Op>)
    ensures
      var (slots, outcomes) := Run(ro, EMPTY, ops);
      && Inv(slots)
      && RunMap(ro, map[], ops) == (ToMap(slots), outcomes)
      && |ToMap(slots)| <= MAX_OVERLAY_FILES
      && (forall path :: Read(ro, slots, path) == ReadMap(ro, ToMap(slots), path))
  {
    NoEntries(MAX_OVERLAY_FILES);
    RunRefines(ro, EMPTY, ops);
    var slots := Run(ro, EMPTY, ops).0;
    MapSize(slots);
    forall path ensures Read(ro, slots, path) == ReadMap(ro, ToMap(slots), path) {
      ReadRefines(ro, slots, path);
    }
  }

  // ---- laws ----

  /** Two spellings name the same file. */
  predicate Alias(p: string, q: string) {
    Normalize(p).Ok? && Normalize(p) == Normalize(q)
  }

  /** A successful write is read back through every spelling of the path, and
      no other path changes. */
  lemma ReadAfterWrite(ro: seq<File>, slots: seq<Entry>, path: string, contents: string, q: string)
    requires Inv(slots) && Apply(ro, slots, Write(path, contents)).1 == Done
    ensures
      var after := Apply(ro, slots, Write(path, contents)).0;
      Read(ro, after, q) == if Alias(path, q) then Some(contents) else Read(ro, slots, q)
  {
    ApplyRefines(ro, slots, Write(path, contents));
    ReadRefines(ro, slots, q);
    ReadRefines(ro, Apply(ro, slots, Write(path, contents)).0, q);
  }

  /** Looking a name up in the read-only table gives the contents of the file with that name, if there is one. */
  lemma {:induction false} FindContents(ro: seq<File>, i: nat)
    requires DistinctFiles(ro) && i < |ro|
    ensures Find(ro, ro[i].path) == Some(ro[i].contents)
  {
    if i > 0 {
      assert ro[0].path != ro[i].path;
      assert ro[1..][i - 1] == ro[i];
      FindContents(ro[1..], i - 1);
    }
  }

  /** `r` is what the read-only table holds under `name`. */
  predicate Holding(ro: seq<File>, name: string, r: Option<string>) {
    if r.Some? then exists i :: 0 <= i < |ro| && ro[i].path == name && ro[i].contents == r.value
    else forall i :: 0 <= i < |ro| ==> ro[i].path != name
  }

  lemma {:induction false} FindHolds(ro: seq<File>, name: string)
    requires DistinctFiles(ro)
    ensures Holding(ro, name, Find(ro, name))
  {
    FindSpec(ro, name);
    if i :| 0 <= i < |ro| && ro[i].path == name { FindContents(ro, i); }
  }

  /** A path that no slot shadows reads as its own file of the read-only table, or not at all. */
  lemma {:induction false} UnshadowedRead(ro: seq<File>, slots: seq<Entry>, path: string)
    requires Inv(slots) && DistinctFiles(ro) && Normalize(path).Ok? && Normalize(path).value !in ToMap(slots)
    ensures Holding(ro, Normalize(path).value, Read(ro, slots, path))
  {
    ReadRefines(ro, slots, path);
    FindHolds(ro, Normalize(path).value);
  }

  /** A path that cannot be normalized reads as nothing. */
  lemma {:induction false} RefusedPathReadsNothing(ro: seq<File>, slots: seq<Entry>, path: string)
    requires Blank(path) || |Encode(Slashed(Trim(path)))| > 32
    ensures Read(ro, slots, path) == None
  {
    NormalizeSpec(path);
  }

  /** A stored path reads as what its slot holds, whatever the table has under that name. */
  lemma {:induction false} ShadowedRead(ro: seq<File>, slots: seq<Entry>, path: string, i: nat)
    requires Inv(slots) && i < |slots| && Normalize(path).Ok? && Holds(slots[i], Normalize(path).value)
    ensures Read(ro, slots, path) == Some(slots[i].contents)
  {
    var at := FindPath(slots, Normalize(path).value, 0);
    assert Holds(slots[at.value], Normalize(path).value);
  }

  /** Removing a shadow brings the file's own read-only contents back, and no other path changes. */
  lemma {:induction false} RemoveRestores(ro: seq<File>, slots: seq<Entry>, path: string, q: string)
    requires Inv(slots) && DistinctFiles(ro) && Apply(ro, slots, Remove(path)).1 == Done
    ensures
      var after := Apply(ro, slots, Remove(path)).0;
      if Alias(path, q) then Holding(ro, Normalize(q).value, Read(ro, after, q))
      else Read(ro, after, q) == Read(ro, slots, q)
  {
    ApplyRefines(ro, slots, Remove(path));
    ReadRefines(ro, slots, q);
    ReadRefines(ro, Apply(ro, slots, Remove(path)).0, q);
    if Alias(path, q) { FindHolds(ro, Normalize(q).value); }
  }

  /** The outcome of every write: the first of the four checks that fails, in the order path, size, space. */
  lemma {:induction false} WriteOutcome(ro: seq<File>, slots: seq<Entry>, path: string, contents: string)
    requires Inv(slots)
    ensures
      var outcome := Apply(ro, slots, Write(path, contents)).1;
      && (outcome == Failed(InvalidPath) <==> Blank(path))
      && (outcome == Failed(PathTooLong) <==> !Blank(path) && |Encode(Slashed(Trim(path)))| > 32)
      && (outcome == Failed(ContentTooLong) <==> Normalize(path).Ok? && |Encode(contents)| > 256)
      && (outcome == Failed(NoSpace) <==>
          && Normalize(path).Ok? && |Encode(contents)| <= 256
          && |ToMap(slots)| == 8 && Normalize(path).value !in ToMap(slots))
      && outcome != Failed(ReadOnly) && outcome != Failed(NotFound)
  {
    NormalizeSpec(path);
    ApplyRefines(ro, slots, Write(path, contents));
    MapSize(slots);
  }

  /** A failed write or remove changes nothing. */
  lemma {:induction false} FailureChangesNothing(ro: seq<File>, slots: seq<Entry>, op: Op)
    requires Apply(ro, slots, op).1 != Done
    ensures Apply(ro, slots, op).0 == slots
  {
  }

  /** A write of acceptable path and size fails exactly when eight other paths are stored. */
  lemma NoSpaceExactly(ro: seq<File>, slots: seq<Entry>, path: string, contents: string)
    requires Inv(slots) && Normalize(path).Ok? && |Encode(contents)| <= MAX_CONTENT_LEN
    ensures Apply(ro, slots, Write(path, contents)).1 == Failed(NoSpace)
      <==> (Normalize(path).value !in ToMap(slots) && |ToMap(slots)| == MAX_OVERLAY_FILES)
    ensures Apply(ro, slots, Write(path, contents)).1 in {Done, Failed(NoSpace)}
  {
    ApplyRefines(ro, slots, Write(path, contents));
    MapSize(slots);
  }

  /** Removing succeeds exactly for stored paths; otherwise the error tells
      read-only files from missing ones. */
  lemma RemoveOutcome(ro: seq<File>, slots: seq<Entry>, path: string)
    requires Inv(slots) && Normalize(path).Ok?
    ensures
      var outcome := Apply(ro, slots, Remove(path)).1;
      && (outcome == Done <==> Normalize(path).value in ToMap(slots))
      && (outcome == Failed(NotFound) <==> Read(ro, slots, path) == None)
      && (outcome == Failed(ReadOnly) <==>
          Normalize(path).value !in ToMap(slots) && Named(ro, Normalize(path).value))
  {
    ApplyRefines(ro, slots, Remove(path));
    ReadRefines(ro, slots, path);
    FindSpec(ro, Normalize(path).value);
  }

  /** A path that cannot be normalized is refused with the reason. */
  lemma {:induction false} RemoveRefusesPath(ro: seq<File>, slots: seq<Entry>, path: string)
    ensures Apply(ro, slots, Remove(path)).1 == Failed(InvalidPath) <==> Blank(path)
    ensures Apply(ro, slots, Remove(path)).1 == Failed(PathTooLong)
      <==> !Blank(path) && |Encode(Slashed(Trim(path)))| > 32
  {
    NormalizeSpec(path);
  }

  lemma WriteThenRemoveMap(ro: seq<File>, m: Store, path: string, contents: string)
    requires ApplyMap(ro, m, Write(path, contents)).1 == Done && Normalize(path).value !in m
    ensures ApplyMap(ro, ApplyMap(ro, m, Write(path, contents)).0, Remove(path)) == (m, Done)
  {
    var n := Normalize(path).value;
    assert m[n := contents] - {n} == m;
  }

  /** Writing a new file and removing it again leaves every path as it was. */
  lemma WriteThenRemove(ro: seq<File>, slots: seq<Entry>, path: string, contents: string, q: string)
    requires Inv(slots) && Apply(ro, slots, Write(path, contents)).1 == Done
    requires Normalize(path).value !in ToMap(slots)
    ensures
      var written := Apply(ro, slots, Write(path, contents)).0;
      var removed := Apply(ro, written, Remove(path));
      removed.1 == Done && ToMap(removed.0) == ToMap(slots) && Read(ro, removed.0, q) == Read(ro, slots, q)
  {
    var written := Apply(ro, slots, Write(path, contents)).0;
    ApplyRefines(ro, slots, Write(path, contents));
    ApplyRefines(ro, written, Remove(path));
    WriteThenRemoveMap(ro, ToMap(slots), path, contents);
    ReadRefines(ro, slots, q);
    ReadRefines(ro, Apply(ro, written, Remove(path)).0, q);
  }

  // ---- listing ----

  /** Stored paths in slot order. */
  function StoredNames(slots: seq<Entry>): seq<string> {
    if slots == [] then []
    else
      var e := slots[|slots| - 1];
      StoredNames(slots[..|slots| - 1]) + (if e.Stored? then [e.path] else [])
  }

  /** Read-only paths that no slot shadows, in table order. */
  function BareNames(files: seq<File>, slots: seq<Entry>): seq<string> {
    if files == [] then []
    else
      var f := files[|files| - 1];
      BareNames(files[..|files| - 1], slots) + (if FindPath(slots, f.path, 0).Some? then [] else [f.path])
  }

  /** What the listing visits, in order. */
  function Listing(ro: seq<File>, slots: seq<Entry>): seq<string> {
    StoredNames(slots) + BareNames(ro, slots)
  }

  predicate NoRepeats(names: seq<string>) {
    forall i, j :: 0 <= i < j < |names| ==> names[i] != names[j]
  }

  lemma {:induction false} StoredNamesSpec(slots: seq<Entry>, name: string)
    requires Distinct(slots)
    ensures name in StoredNames(slots) <==> FindPath(slots, name, 0).Some?
  {
    if slots != [] {
      var n := |slots| - 1;
      var front := slots[..n];
      StoredNamesSpec(front, name);
      if FindPath(front, name, 0).Some? { assert Holds(slots[FindPath(front, name, 0).value], name); }
      if FindPath(slots, name, 0).Some? && FindPath(slots, name, 0).value < n {
        assert Holds(front[FindPath(slots, name, 0).value], name);
      }
    }
  }

  lemma {:induction false} StoredNamesOnce(slots: seq<Entry>)
    requires Distinct(slots)
    ensures NoRepeats(StoredNames(slots))
  {
    if slots != [] {
      var n := |slots| - 1;
      StoredNamesOnce(slots[..n]);
      if slots[n].Stored? { StoredNamesSpec(slots[..n], slots[n].path); }
    }
  }

  predicate DistinctFiles(files: seq<File>) {
    forall i, j :: 0 <= i < j < |files| ==> files[i].path != files[j].path
  }

  predicate Named(files: seq<File>, name: string) {
    exists i :: 0 <= i < |files| && files[i].path == name
  }

  lemma NamedInFront(files: seq<File>, name: string)
    requires files != []
    ensures Named(files, name) <==> Named(files[..|files| - 1], name) || files[|files| - 1].path == name
  {
    var n := |files| - 1;
    if i :| 0 <= i < |files| && files[i].path == name {
      if i < n { assert files[..n][i].path == name; }
    }
    if i :| 0 <= i < n && files[..n][i].path == name {
      assert files[i].path == name;
    }
  }

  lemma {:induction false} BareNamesSpec(files: seq<File>, slots: seq<Entry>, name: string)
    ensures name in BareNames(files, slots) <==> Named(files, name) && FindPath(slots, name, 0) == None
  {
    if files != [] {
      BareNamesSpec(files[..|files| - 1], slots, name);
      NamedInFront(files, name);
    }
  }

  lemma {:induction false} BareNamesOnce(files: seq<File>, slots: seq<Entry>)
    requires DistinctFiles(files)
    ensures NoRepeats(BareNames(files, slots))
  {
    if files != [] {
      var n := |files| - 1;
      BareNamesOnce(files[..n], slots);
      BareNamesSpec(files[..n], slots, files[n].path);
      assert !Named(files[..n], files[n].path);
    }
  }

  lemma {:induction false} FindSpec(files: seq<File>, path: string)
    ensures Find(files, path).Some? <==> Named(files, path)
  {
    if files != [] {
      FindSpec(files[1..], path);
      if i :| 0 <= i < |files| && files[i].path == path {
        if i > 0 { assert files[1..][i - 1].path == path; }
      }
    }
  }

  /** A read-only table the listing can rely on: distinct paths in normal form. */
  predicate TableOk(ro: seq<File>) {
    DistinctFiles(ro) && forall i :: 0 <= i < |ro| ==> Normal(ro[i].path)
  }

  /** The listing shows each visible name once: exactly the normal-form paths that can be read. */
  lemma ListingIsExact(ro: seq<File>, slots: seq<Entry>, name: string)
    requires Inv(slots) && TableOk(ro)
    ensures NoRepeats(Listing(ro, slots))
    ensures name in Listing(ro, slots) <==> Normal(name) && Read(ro, slots, name).Some?
  {
    StoredNamesOnce(slots);
    BareNamesOnce(ro, slots);
    var stored, bare := StoredNames(slots), BareNames(ro, slots);
    forall i, j | 0 <= i < |stored| && 0 <= j < |bare| ensures stored[i] != bare[j] {
      StoredNamesSpec(slots, stored[i]);
      BareNamesSpec(ro, slots, bare[j]);
    }
    StoredNamesSpec(slots, name);
    BareNamesSpec(ro, slots, name);
    FindSpec(ro, name);
    if Normal(name) { NormalIsFixed(name); }
    if FindPath(slots, name, 0).Some? { assert EntryOk(slots[FindPath(slots, name, 0).value]); }
  }

  // ---- the order of the listing ----

  /** `x` is visited, and `y` after it. */
  predicate Before(names: seq<string>, x: string, y: string) {
    exists a, b :: 0 <= a < b < |names| && names[a] == x && names[b] == y
  }

  lemma BeforeGrows(names: seq<string>, more: seq<string>, x: string, y: string)
    requires Before(names, x, y) || (x in names && y in more)
    ensures Before(names + more, x, y)
  {
    var all := names + more;
    if Before(names, x, y) {
      var a, b :| 0 <= a < b < |names| && names[a] == x && names[b] == y;
      assert all[a] == x && all[b] == y;
    } else {
      var a :| 0 <= a < |names| && names[a] == x;
      var b :| 0 <= b < |more| && more[b] == y;
      assert all[a] == x && all[|names| + b] == y;
    }
  }

  lemma BeforeShifts(names: seq<string>, more: seq<string>, x: string, y: string)
    requires Before(more, x, y)
    ensures Before(names + more, x, y)
  {
    var a, b :| 0 <= a < b < |more| && more[a] == x && more[b] == y;
    assert (names + more)[|names| + a] == x && (names + more)[|names| + b] == y;
  }

  lemma {:induction false} StoredIsNamed(slots: seq<Entry>, i: nat)
    requires i < |slots| && slots[i].Stored?
    ensures slots[i].path in StoredNames(slots)
  {
    var n := |slots| - 1;
    if i < n { StoredIsNamed(slots[..n], i); }
  }

  lemma {:induction false} StoredOrder(slots: seq<Entry>, i: nat, j: nat)
    requires i < j < |slots| && slots[i].Stored? && slots[j].Stored?
    ensures Before(StoredNames(slots), slots[i].path, slots[j].path)
  {
    var n := |slots| - 1;
    if j < n {
      StoredOrder(slots[..n], i, j);
      BeforeGrows(StoredNames(slots[..n]), if slots[n].Stored? then [slots[n].path] else [], slots[i].path, slots[j].path);
    } else {
      StoredIsNamed(slots[..n], i);
      BeforeGrows(StoredNames(slots[..n]), [slots[n].path], slots[i].path, slots[j].path);
    }
  }

  lemma {:induction false} BareOrder(files: seq<File>, slots: seq<Entry>, i: nat, j: nat)
    requires i < j < |files| && FindPath(slots, files[i].path, 0) == None && FindPath(slots, files[j].path, 0) == None
    ensures Before(BareNames(files, slots), files[i].path, files[j].path)
  {
    var n := |files| - 1;
    var front := files[..n];
    var last := if FindPath(slots, files[n].path, 0).Some? then [] else [files[n].path];
    if j < n {
      BareOrder(front, slots, i, j);
    } else {
      BareNamesSpec(front, slots, files[i].path);
      assert front[i] == files[i];
      assert files[j].path in last;
    }
    BeforeGrows(BareNames(front, slots), last, files[i].path, files[j].path);
  }

  /** Overlay files come first, in slot order; then the read-only files that none of them shadows, in table order. */
  lemma {:induction false} ListingOrder(ro: seq<File>, slots: seq<Entry>, i: nat, j: nat)
    ensures i < j < |slots| && slots[i].Stored? && slots[j].Stored? ==>
      Before(Listing(ro, slots), slots[i].path, slots[j].path)
    ensures i < |slots| && slots[i].Stored? && j < |ro| && FindPath(slots, ro[j].path, 0) == None ==>
      Before(Listing(ro, slots), slots[i].path, ro[j].path)
    ensures i < j < |ro| && FindPath(slots, ro[i].path, 0) == None && FindPath(slots, ro[j].path, 0) == None ==>
      Before(Listing(ro, slots), ro[i].path, ro[j].path)
  {
    var stored, bare := StoredNames(slots), BareNames(ro, slots);
    if i < j < |slots| && slots[i].Stored? && slots[j].Stored? {
      StoredOrder(slots, i, j);
      BeforeGrows(stored, bare, slots[i].path, slots[j].path);
    }
    if i < |slots| && slots[i].Stored? && j < |ro| && FindPath(slots, ro[j].path, 0) == None {
      StoredIsNamed(slots, i);
      BareNamesSpec(ro, slots, ro[j].path);
      BeforeGrows(stored, bare, slots[i].path, ro[j].path);
    }
    if i < j < |ro| && FindPath(slots, ro[i].path, 0) == None && FindPath(slots, ro[j].path, 0) == None {
      BareOrder(ro, slots, i, j);
      BeforeShifts(stored, bare, ro[i].path, ro[j].path);
    }
  }
}
