/**
 The writable overlay as a value: eight slots over a read-only table `ro`.  Every
 run of writes and removes on the slots is proved to behave as a finite map
 from normalized path to contents.
 */
module Overlay {
  import opened Words
  import opened Utf8
  import opened Paths

  const MAX_OVERLAY_FILES: nat := 8
  const MAX_CONTENT_LEN: nat := 256

  datatype Entry = Free | Stored(path: string, contents: string)

  datatype Outcome = Done | Failed(error: VfsError)

  // ---- the read-only table ----

  datatype File = File(path: string, contents: string)

  /** First file of `files` with this path. */
  function Find(files: seq<File>, path: string): Option<string> {
    if files == [] then None
    else if files[0].path == path then Some(files[0].contents)
    else Find(files[1..], path)
  }

  // ---- slots ----

  predicate Holds(e: Entry, path: string) {
    e.Stored? && e.path == path
  }

  /** First slot at or after `i` that holds `path`. */
  function FindPath(slots: seq<Entry>, path: string, i: nat): (r: Option<nat>)
    requires i <= |slots|
    ensures r.Some? ==> i <= r.value < |slots| && Holds(slots[r.value], path)
    ensures r.Some? ==> forall k :: i <= k < r.value ==> !Holds(slots[k], path)
    ensures r == None ==> forall k :: i <= k < |slots| ==> !Holds(slots[k], path)
    decreases |slots| - i
  {
    if i == |slots| then None
    else if Holds(slots[i], path) then Some(i)
    else FindPath(slots, path, i + 1)
  }

  /** First free slot at or after `i`. */
  function FindFree(slots: seq<Entry>, i: nat): (r: Option<nat>)
    requires i <= |slots|
    ensures r.Some? ==> i <= r.value < |slots| && slots[r.value] == Free
    ensures r.Some? ==> forall k :: i <= k < r.value ==> slots[k].Stored?
    ensures r == None ==> forall k :: i <= k < |slots| ==> slots[k].Stored?
    decreases |slots| - i
  {
    if i == |slots| then None
    else if slots[i] == Free then Some(i)
    else FindFree(slots, i + 1)
  }

  function WriteSlots(slots: seq<Entry>, path: string, contents: string): (seq<Entry>, Outcome) {
    var at := FindPath(slots, path, 0);
    var free := FindFree(slots, 0);
    if at.Some? then (slots[at.value := Stored(path, contents)], Done)
    else if free.Some? then (slots[free.value := Stored(path, contents)], Done)
    else (slots, Failed(NoSpace))
  }

  function RemoveSlots(ro: seq<File>, slots: seq<Entry>, path: string): (seq<Entry>, Outcome) {
    var at := FindPath(slots, path, 0);
    if at.Some? then (slots[at.value := Free], Done)
    else (slots, Failed(if Find(ro, path).Some? then ReadOnly else NotFound))
  }

  /** Contents of a normalized path: the overlay first, the read-only table behind it. */
  function ReadSlots(ro: seq<File>, slots: seq<Entry>, path: string): Option<string> {
    var at := FindPath(slots, path, 0);
    if at.Some? then Some(slots[at.value].contents) else Find(ro, path)
  }

  datatype Op = Write(path: string, contents: string) | Remove(path: string)

  /** The whole operation, errors included, on slots. */
  function Apply(ro: seq<File>, slots: seq<Entry>, op: Op): (seq<Entry>, Outcome) {
    var n := Normalize(op.path);
    if n.Err? then (slots, Failed(n.error))
    else
      match op
      case Write(_, contents) =>
        if |Encode(contents)| > MAX_CONTENT_LEN then (slots, Failed(ContentTooLong))
        else WriteSlots(slots, n.value, contents)
      case Remove(_) => RemoveSlots(ro, slots, n.value)
  }

  function Read(ro: seq<File>, slots: seq<Entry>, path: string): Option<string> {
    var n := Normalize(path);
    if n.Err? then None else ReadSlots(ro, slots, n.value)
  }

  // ---- the finite map ----

  type Store = map<string, string>

  function ApplyMap(ro: seq<File>, m: Store, op: Op): (Store, Outcome) {
    var n := Normalize(op.path);
    if n.Err? then (m, Failed(n.error))
    else
      match op
      case Write(_, contents) =>
        if |Encode(contents)| > MAX_CONTENT_LEN then (m, Failed(ContentTooLong))
        else if n.value in m || |m| < MAX_OVERLAY_FILES then (m[n.value := contents], Done)
        else (m, Failed(NoSpace))
      case Remove(_) =>
        if n.value in m then (m - {n.value}, Done)
        else (m, Failed(if Find(ro, n.value).Some? then ReadOnly else NotFound))
  }

  function ReadMap(ro: seq<File>, m: Store, path: string): Option<string> {
    var n := Normalize(path);
    if n.Err? then None else if n.value in m then Some(m[n.value]) else Find(ro, n.value)
  }

  /** The map a list of slots stands for. */
  function ToMap(slots: seq<Entry>): Store {
    if slots == [] then map[]
    else
      var e := slots[|slots| - 1];
      var m := ToMap(slots[..|slots| - 1]);
      if e.Stored? then m[e.path := e.contents] else m
  }

  // ---- the invariant ----

  /** Used slots hold distinct paths. */
  predicate Distinct(slots: seq<Entry>) {
    forall i, j :: (0 <= i < |slots| && 0 <= j < |slots| && slots[i].Stored? && slots[j].Stored?
      && slots[i].path == slots[j].path) ==> i == j
  }

  predicate EntryOk(e: Entry) {
    e.Stored? ==> Normal(e.path) && |Encode(e.contents)| <= MAX_CONTENT_LEN
  }

  predicate Inv(slots: seq<Entry>) {
    && |slots| == MAX_OVERLAY_FILES
    && Distinct(slots)
    && forall i :: 0 <= i < |slots| ==> EntryOk(slots[i])
  }

  const EMPTY: seq<Entry> := seq(MAX_OVERLAY_FILES, _ => Free)

  // ---- slots and map agree ----

  lemma {:induction false} MapLookup(slots: seq<Entry>, path: string)
    requires Distinct(slots)
    ensures path in ToMap(slots) <==> FindPath(slots, path, 0).Some?
    ensures path in ToMap(slots) ==> ToMap(slots)[path] == slots[FindPath(slots, path, 0).value].contents
  {
    if slots != [] {
      var n := |slots| - 1;
      var front := slots[..n];
      MapLookup(front, path);
      if Holds(slots[n], path) {
        assert FindPath(slots, path, 0).value == n;
      }
      if FindPath(front, path, 0).Some? {
        assert Holds(slots[FindPath(front, path, 0).value], path);
      }
      if FindPath(slots, path, 0).Some? && FindPath(slots, path, 0).value < n {
        assert Holds(front[FindPath(slots, path, 0).value], path);
      }
    }
  }

  function StoredCount(slots: seq<Entry>): (k: nat)
    ensures k <= |slots|
  {
    if slots == [] then 0
    else StoredCount(slots[..|slots| - 1]) + (if slots[|slots| - 1].Stored? then 1 else 0)
  }

  lemma {:induction false} MapSize(slots: seq<Entry>)
    requires Distinct(slots)
    ensures |ToMap(slots)| == StoredCount(slots)
  {
    if slots != [] {
      var n := |slots| - 1;
      var front := slots[..n];
      MapSize(front);
      if slots[n].Stored? {
        MapLookup(front, slots[n].path);
        assert slots[n].path !in ToMap(front);
      }
    }
  }

  lemma {:induction false} FreeSlot(slots: seq<Entry>)
    ensures FindFree(slots, 0) == None <==> StoredCount(slots) == |slots|
  {
    if slots != [] {
      var n := |slots| - 1;
      var front := slots[..n];
      FreeSlot(front);
      if FindFree(front, 0).Some? {
        assert slots[FindFree(front, 0).value] == Free;
      }
      if FindFree(slots, 0).Some? && FindFree(slots, 0).value < n {
        assert front[FindFree(slots, 0).value] == Free;
      }
    }
  }

  /** A free slot exists exactly when fewer than eight paths are stored. */
  lemma RoomInMap(slots: seq<Entry>)
    requires Inv(slots)
    ensures FindFree(slots, 0).Some? <==> |ToMap(slots)| < MAX_OVERLAY_FILES
  {
    MapSize(slots);
    FreeSlot(slots);
  }

  lemma StoreInSlot(slots: seq<Entry>, i: nat, path: string, contents: string)
    requires Inv(slots) && i < |slots| && EntryOk(Stored(path, contents))
    requires Holds(slots[i], path) || (slots[i] == Free && FindPath(slots, path, 0) == None)
    ensures Inv(slots[i := Stored(path, contents)])
    ensures ToMap(slots[i := Stored(path, contents)]) == ToMap(slots)[path := contents]
  {
    var after := slots[i := Stored(path, contents)];
    forall q: string
      ensures q in ToMap(after) <==> q in ToMap(slots)[path := contents]
      ensures q in ToMap(after) ==> ToMap(after)[q] == ToMap(slots)[path := contents][q]
    {
      MapLookup(slots, q);
      MapLookup(after, q);
      if q != path { SameElsewhere(slots, after, i, q); }
      assert Holds(after[i], path);
    }
  }

  lemma FreeTheSlot(slots: seq<Entry>, i: nat, path: string)
    requires Inv(slots) && i < |slots| && Holds(slots[i], path)
    ensures Inv(slots[i := Free])
    ensures ToMap(slots[i := Free]) == ToMap(slots) - {path}
  {
    var after := slots[i := Free];
    forall q: string
      ensures q in ToMap(after) <==> q in ToMap(slots) - {path}
      ensures q in ToMap(after) ==> ToMap(after)[q] == (ToMap(slots) - {path})[q]
    {
      MapLookup(slots, q);
      MapLookup(after, q);
      if q != path { SameElsewhere(slots, after, i, q); }
    }
  }

  /** Changing slot `i` does not move a path that lives in another slot. */
  lemma SameElsewhere(slots: seq<Entry>, after: seq<Entry>, i: nat, q: string)
    requires |after| == |slots| && i < |slots| && after == slots[i := after[i]]
    requires Distinct(slots) && Distinct(after)
    requires !Holds(slots[i], q) && !Holds(after[i], q)
    ensures FindPath(after, q, 0) == FindPath(slots, q, 0)
  {
    var a, b := FindPath(slots, q, 0), FindPath(after, q, 0);
    if a.Some? { assert Holds(after[a.value], q); }
    if b.Some? { assert Holds(slots[b.value], q); }
  }

  /** One operation on the slots is the same operation on the map. */
  lemma ApplyRefines(ro: seq<File>, slots: seq<Entry>, op: Op)
    requires Inv(slots)
    ensures
      var (after, outcome) := Apply(ro, slots, op);
      && Inv(after)
      && ApplyMap(ro, ToMap(slots), op) == (ToMap(after), outcome)
  {
    NormalizeSpec(op.path);
    var n := Normalize(op.path);
    if n.Ok? {
      MapLookup(slots, n.value);
      var at, free := FindPath(slots, n.value, 0), FindFree(slots, 0);
      match op
      case Write(_, contents) =>
        RoomInMap(slots);
        if |Encode(contents)| <= MAX_CONTENT_LEN {
          if at.Some? {
            StoreInSlot(slots, at.value, n.value, contents);
          } else if free.Some? {
            StoreInSlot(slots, free.value, n.value, contents);
          }
        }
      case Remove(_) =>
        if at.Some? { FreeTheSlot(slots, at.value, n.value); }
    }
  }

  lemma ReadRefines(ro: seq<File>, slots: seq<Entry>, path: string)
    requires Inv(slots)
    ensures Read(ro, slots, path) == ReadMap(ro, ToMap(slots), path)
  {
    if Normalize(path).Ok? { MapLookup(slots, Normalize(path).value); }
  }
}
