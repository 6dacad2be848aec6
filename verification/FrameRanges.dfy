/**
 Usable regions of the boot memory map turned into page-aligned frame ranges.

 Machine integers are mathematical integers with the 64-bit bounds written out:
 `End` saturates, and `AlignUp` wraps where the unchecked addition would.
 */
module FrameRanges {
  import opened Words

  const FRAME_SIZE: nat := 4096
  const MAX_USABLE_RANGES: nat := 32
  const MAX_MEMORY_REGIONS: nat := 64

  datatype RegionKind = Usable | Reserved | Reclaimable | Kernel | Framebuffer | Unknown

  datatype Region = Region(base: U64, length: U64, kind: RegionKind) {
    /** Saturating end of the region. */
    function End(): U64 {
      if base + length < TWO_64 then base + length else TWO_64 - 1
    }
  }

  /** A half-open range of physical addresses. */
  datatype Range = Range(start: U64, end: U64) {
    predicate Contains(address: int) {
      start <= address < end
    }
  }

  const EMPTY_RANGE := Range(0, 0)

  /** Non-empty and page aligned at both ends. */
  predicate WellFormed(r: Range) {
    r.start % FRAME_SIZE == 0 && r.end % FRAME_SIZE == 0 && r.start < r.end
  }

  predicate AllWellFormed(ranges: seq<Range>) {
    forall i :: 0 <= i < |ranges| ==> WellFormed(ranges[i])
  }

  /** No two ranges overlap or touch. */
  predicate Separated(ranges: seq<Range>) {
    forall i, j :: 0 <= i < |ranges| && 0 <= j < |ranges| && i != j ==>
      ranges[i].end < ranges[j].start || ranges[j].end < ranges[i].start
  }

  function FrameCount(r: Range): nat
    requires WellFormed(r)
  {
    (r.end - r.start) / FRAME_SIZE
  }

  /** The frames of a range, lowest address first. */
  function Frames(r: Range): seq<int>
    requires WellFormed(r)
  {
    seq(FrameCount(r), i => r.start + i * FRAME_SIZE)
  }

  /** The frames of a list of ranges, in list order. */
  function AllFrames(ranges: seq<Range>): seq<int>
    requires AllWellFormed(ranges)
  {
    if ranges == [] then [] else Frames(ranges[0]) + AllFrames(ranges[1..])
  }

  function TotalFrames(ranges: seq<Range>): nat
    requires AllWellFormed(ranges)
  {
    if ranges == [] then 0 else FrameCount(ranges[0]) + TotalFrames(ranges[1..])
  }

  /** Frame `f` is aligned and lies wholly between `lo` and `hi`. */
  predicate FrameBetween(f: int, lo: int, hi: int) {
    f % FRAME_SIZE == 0 && lo <= f && f + FRAME_SIZE <= hi
  }

  /** Between two frame boundaries there is room for a frame. */
  lemma BoundariesApart(a: int, b: int)
    requires a % FRAME_SIZE == 0 && b % FRAME_SIZE == 0 && a < b
    ensures a + FRAME_SIZE <= b && (a + FRAME_SIZE) % FRAME_SIZE == 0
  {
  }

  lemma FrameOf(r: Range, f: int)
    requires WellFormed(r)
    ensures f in Frames(r) <==> FrameBetween(f, r.start, r.end)
  {
    if FrameBetween(f, r.start, r.end) {
      var i := (f - r.start) / FRAME_SIZE;
      assert Frames(r)[i] == f;
    }
  }

  // ---- region to range ----

  /** The next frame boundary, except that the topmost partial frame wraps to 0. */
  function AlignUp(value: U64): (r: U64)
    ensures r % FRAME_SIZE == 0
    ensures value <= TWO_64 - FRAME_SIZE ==> value <= r < value + FRAME_SIZE
    ensures value > TWO_64 - FRAME_SIZE ==> r == 0
  {
    if value % FRAME_SIZE == 0 then value
    else (value + (FRAME_SIZE - value % FRAME_SIZE)) % TWO_64
  }

  /** The last frame boundary at or below `value`. */
  function AlignDown(value: U64): (r: U64)
    ensures r % FRAME_SIZE == 0 && r <= value < r + FRAME_SIZE
  {
    value - value % FRAME_SIZE
  }

  /** The range one boot region contributes, if it qualifies. */
  function RegionRange(region: Region): (r: Option<Range>)
    ensures r.Some? ==> WellFormed(r.value)
  {
    if region.kind != Usable || region.length < FRAME_SIZE then None
    else
      var start, end := AlignUp(region.base), AlignDown(region.End());
      if end <= start then None else Some(Range(start, end))
  }

  predicate Contributes(region: Region, f: int) {
    var r := RegionRange(region);
    r.Some? && f in Frames(r.value)
  }

  /** Every frame wholly inside the region is contributed, and no other. */
  ghost predicate ContributesExactly(region: Region) {
    forall f: int :: Contributes(region, f) <==> FrameBetween(f, region.base, region.base + region.length)
  }

  lemma BoundaryAfter(lo: U64, f: int)
    requires f % FRAME_SIZE == 0 && lo <= TWO_64 - FRAME_SIZE
    ensures lo <= f <==> AlignUp(lo) <= f
  {
    if f < AlignUp(lo) { BoundariesApart(f, AlignUp(lo)); }
  }

  lemma BoundaryBefore(hi: U64, f: int)
    requires f % FRAME_SIZE == 0
    ensures f <= hi <==> f <= AlignDown(hi)
  {
    if AlignDown(hi) < f { BoundariesApart(AlignDown(hi), f); }
  }

  /** A region that ends within 64 bits contributes exactly its frames. */
  lemma RegionWithin64Bits(region: Region, f: int)
    requires region.kind == Usable && region.base + region.length < TWO_64
    ensures Contributes(region, f) <==> FrameBetween(f, region.base, region.base + region.length)
  {
    var r := RegionRange(region);
    if r.Some? { FrameOf(r.value, f); }
    if region.length >= FRAME_SIZE && f % FRAME_SIZE == 0 {
      BoundaryAfter(region.base, f);
      BoundaryBefore(region.End(), f + FRAME_SIZE);
    }
  }

  /** The saturated end cuts off the topmost frame. */
  lemma TopFrameLost(region: Region)
    requires region.base <= TWO_64 - FRAME_SIZE && region.base + region.length >= TWO_64
    ensures !Contributes(region, TWO_64 - FRAME_SIZE)
  {
    var r := RegionRange(region);
    if r.Some? { FrameOf(r.value, TWO_64 - FRAME_SIZE); }
  }

  /** A start in the topmost frame wraps to 0, where the region has no frame. */
  lemma StartWraps(region: Region)
    requires region.kind == Usable && region.base > TWO_64 - FRAME_SIZE && region.length >= FRAME_SIZE
    ensures Contributes(region, 0)
  {
    FrameOf(Range(0, TWO_64 - FRAME_SIZE), 0);
    assert RegionRange(region) == Some(Range(0, TWO_64 - FRAME_SIZE));
  }

  /** A usable region contributes exactly its frames if and only if it is
      shorter than a frame or its end fits in 64 bits. */
  lemma RegionRangeExact(region: Region)
    requires region.kind == Usable
    ensures ContributesExactly(region) <==> region.length < FRAME_SIZE || region.base + region.length < TWO_64
  {
    if region.base + region.length < TWO_64 {
      forall f: int
        ensures Contributes(region, f) <==> FrameBetween(f, region.base, region.base + region.length)
      {
        RegionWithin64Bits(region, f);
      }
    } else if region.length >= FRAME_SIZE {
      var top := TWO_64 - FRAME_SIZE;
      if region.base <= top {
        TopFrameLost(region);
        assert FrameBetween(top, region.base, region.base + region.length);
      } else {
        StartWraps(region);
        assert !FrameBetween(0, region.base, region.base + region.length);
      }
    }
  }

  // ---- the whole map ----

  /** Ranges contributed by a list of regions, in map order. */
  function Qualifying(regions: seq<Region>): (rs: seq<Range>)
    ensures AllWellFormed(rs)
    ensures |rs| <= |regions|
  {
    if regions == [] then []
    else
      var rest := Qualifying(regions[..|regions| - 1]);
      var r := RegionRange(regions[|regions| - 1]);
      if r.Some? then rest + [r.value] else rest
  }

  /** The ranges the allocator is given: the first 32 that qualify. */
  function Recorded(regions: seq<Region>): (rs: seq<Range>)
    ensures AllWellFormed(rs)
  {
    var all := Qualifying(regions);
    all[..Min(|all|, MAX_USABLE_RANGES)]
  }

  lemma TotalFramesAppend(ranges: seq<Range>, r: Range)
    requires AllWellFormed(ranges) && WellFormed(r)
    ensures TotalFrames(ranges + [r]) == TotalFrames(ranges) + FrameCount(r)
  {
    if ranges == [] {
      assert [r][1..] == [];
    } else {
      assert (ranges + [r])[1..] == ranges[1..] + [r];
      TotalFramesAppend(ranges[1..], r);
    }
  }

  /** Each range holds fewer than 2^52 frames, so 64 of them never overflow a 64-bit count. */
  lemma {:induction false} TotalFramesBound(ranges: seq<Range>)
    requires AllWellFormed(ranges)
    ensures |ranges| <= TotalFrames(ranges) <= |ranges| * 0x10_0000_0000_0000
  {
    if ranges != [] {
      BoundariesApart(ranges[0].start, ranges[0].end);
      TotalFramesBound(ranges[1..]);
    }
  }

  lemma {:induction false} AllFramesLength(ranges: seq<Range>)
    requires AllWellFormed(ranges)
    ensures |AllFrames(ranges)| == TotalFrames(ranges)
  {
    if ranges != [] { AllFramesLength(ranges[1..]); }
  }

  lemma {:induction false} AllFramesMember(ranges: seq<Range>, f: int)
    requires AllWellFormed(ranges)
    ensures f in AllFrames(ranges) <==> exists i :: 0 <= i < |ranges| && f in Frames(ranges[i])
  {
    if ranges != [] {
      var rest := ranges[1..];
      AllFramesMember(rest, f);
      if f in AllFrames(ranges) && f !in Frames(ranges[0]) {
        var i :| 0 <= i < |rest| && f in Frames(rest[i]);
        assert f in Frames(ranges[i + 1]);
      }
      if i :| 0 <= i < |ranges| && f in Frames(ranges[i]) {
        if i > 0 { assert f in Frames(rest[i - 1]); }
      }
    }
  }

  /** Every frame of a list of ranges is at a multiple of 4096, and all of it lies in one range. */
  lemma {:induction false} FramesAreWhole(ranges: seq<Range>, f: int)
    requires AllWellFormed(ranges) && f in AllFrames(ranges)
    ensures f % 4096 == 0
    ensures exists i :: 0 <= i < |ranges| && ranges[i].start <= f && f + 4096 <= ranges[i].end
  {
    AllFramesMember(ranges, f);
    var i :| 0 <= i < |ranges| && f in Frames(ranges[i]);
    FrameOf(ranges[i], f);
    assert ranges[i].start <= f && f + 4096 <= ranges[i].end;
  }

  /** Which regions of the map are looked at: at most `entries`, at most all of them. */
  function Considered(entries: nat, regions: seq<Region>): seq<Region> {
    regions[..Min(entries, |regions|)]
  }

  /** One more region: it either adds its range to the scan or leaves it alone. */
  lemma ScanStep(regions: seq<Region>, index: nat)
    requires index < |regions|
    ensures
      var before, after := Qualifying(regions[..index]), Qualifying(regions[..index + 1]);
      var r := RegionRange(regions[index]);
      if r.Some? then
        && after == before + [r.value]
        && TotalFrames(after) == TotalFrames(before) + FrameCount(r.value)
      else
        after == before
  {
    assert regions[..index + 1][..index] == regions[..index];
    var r := RegionRange(regions[index]);
    if r.Some? { TotalFramesAppend(Qualifying(regions[..index]), r.value); }
  }

  /** The table holds the first ranges found, as many as fit, and is empty after them. */
  predicate Holding(table: seq<Range>, count: nat, found: seq<Range>) {
    && |table| == MAX_USABLE_RANGES && count == Min(|found|, MAX_USABLE_RANGES)
    && table[..count] == found[..count]
    && forall i :: count <= i < MAX_USABLE_RANGES ==> table[i] == EMPTY_RANGE
  }

  /** Table, count and total after the scan has looked at `regions`. */
  ghost predicate Scanned(regions: seq<Region>, table: seq<Range>, count: nat, total: nat) {
    Holding(table, count, Qualifying(regions)) && total == TotalFrames(Qualifying(regions))
  }

  lemma {:induction false} ScanDone(regions: seq<Region>, table: seq<Range>, count: nat, total: nat)
    requires Scanned(regions, table, count, total) && |regions| <= MAX_MEMORY_REGIONS
    ensures table[..count] == Recorded(regions) && total < TWO_64
  {
    TotalFramesBound(Qualifying(regions));
  }

  /** One more range goes into the next entry, or nowhere when the table is full. */
  lemma HoldingOneMore(table: seq<Range>, count: nat, found: seq<Range>, r: Range)
    requires Holding(table, count, found)
    ensures count < MAX_USABLE_RANGES ==> Holding(table[count := r], count + 1, found + [r])
    ensures count == MAX_USABLE_RANGES ==> Holding(table, count, found + [r])
  {
    if count < MAX_USABLE_RANGES {
      assert table[count := r][..count + 1] == table[..count] + [r];
    } else {
      assert (found + [r])[..count] == found[..count];
    }
  }

  /** Puts one more range into the table while there is room. */
  method Record(ranges: array<Range>, rangeCount: nat, range: Range, ghost found: seq<Range>) returns (count: nat)
    requires Holding(ranges[..], rangeCount, found)
    modifies ranges
    ensures Holding(ranges[..], count, found + [range])
  {
    HoldingOneMore(ranges[..], rangeCount, found, range);
    count := rangeCount;
    if rangeCount < MAX_USABLE_RANGES {
      ranges[rangeCount] := range;
      count := rangeCount + 1;
      assert ranges[..] == old(ranges[..])[rangeCount := range];
    }
  }

  /** The scan looks at one region: its tests, in their order, and what they lead to. */
  method ScanRegion(regions: seq<Region>, index: nat, ranges: array<Range>, rangeCount: nat, totalFrames: nat)
      returns (count: nat, total: nat)
    requires index < |regions| && Scanned(regions[..index], ranges[..], rangeCount, totalFrames)
    modifies ranges
    ensures Scanned(regions[..index + 1], ranges[..], count, total)
  {
    var region := regions[index];
    count, total := rangeCount, totalFrames;
    ScanStep(regions, index);
    if region.kind != Usable || region.length < FRAME_SIZE {
      return;
    }
    var alignedStart := AlignUp(region.base);
    var alignedEnd := AlignDown(region.End());
    if alignedEnd <= alignedStart {
      return;
    }
    count := Record(ranges, rangeCount, Range(alignedStart, alignedEnd), Qualifying(regions[..index]));
    total := totalFrames + (alignedEnd - alignedStart) / FRAME_SIZE;
  }

  /**
   Boot-time scan of the memory map.  The three results are what the allocator
   is built from and what the two published counters hold.
   */
  method Initialize(entries: nat, regions: seq<Region>)
      returns (ranges: array<Range>, rangeCount: nat, totalFrames: nat)
    requires |regions| == MAX_MEMORY_REGIONS
    ensures ranges.Length == MAX_USABLE_RANGES
    ensures rangeCount <= MAX_USABLE_RANGES
    ensures ranges[..rangeCount] == Recorded(Considered(entries, regions))
    ensures forall i :: rangeCount <= i < MAX_USABLE_RANGES ==> ranges[i] == EMPTY_RANGE
    ensures totalFrames == TotalFrames(Qualifying(Considered(entries, regions))) < TWO_64
  {
    ranges := new Range[MAX_USABLE_RANGES](_ => EMPTY_RANGE);
    rangeCount := 0;
    totalFrames := 0;
    var limit := Min(entries, |regions|);
    for index := 0 to limit
      invariant Scanned(regions[..index], ranges[..], rangeCount, totalFrames)
    {
      rangeCount, totalFrames := ScanRegion(regions, index, ranges, rangeCount, totalFrames);
    }
    ScanDone(regions[..limit], ranges[..], rangeCount, totalFrames);
    assert ranges[..][..rangeCount] == ranges[..rangeCount];
  }

  // ---- what the scan means ----

  /** Which region each qualifying range comes from. */
  function Origins(regions: seq<Region>): (o: seq<nat>)
    ensures |o| == |Qualifying(regions)|
    ensures forall k :: 0 <= k < |o| ==> o[k] < |regions|
  {
    if regions == [] then []
    else
      var n := |regions| - 1;
      Origins(regions[..n]) + (if RegionRange(regions[n]).Some? then [n] else [])
  }

  /** Each qualifying range is what its region contributes. */
  lemma {:induction false} OriginContributes(regions: seq<Region>, k: nat)
    requires k < |Origins(regions)|
    ensures RegionRange(regions[Origins(regions)[k]]) == Some(Qualifying(regions)[k])
  {
    var n := |regions| - 1;
    var front := regions[..n];
    if k < |Origins(front)| {
      OriginContributes(front, k);
      assert regions[Origins(front)[k]] == front[Origins(front)[k]];
    }
  }

  /** Ranges come from their regions in map order, each from its own. */
  lemma {:induction false} OriginsAscend(regions: seq<Region>, j: nat, k: nat)
    requires j < k < |Origins(regions)|
    ensures Origins(regions)[j] < Origins(regions)[k]
  {
    var n := |regions| - 1;
    if k < |Origins(regions[..n])| { OriginsAscend(regions[..n], j, k); }
  }

  /** No contributing region is missed. */
  lemma {:induction false} OriginFound(regions: seq<Region>, i: nat) returns (k: nat)
    requires i < |regions| && RegionRange(regions[i]).Some?
    ensures k < |Origins(regions)| && Origins(regions)[k] == i
  {
    var n := |regions| - 1;
    if i < n {
      k := OriginFound(regions[..n], i);
    } else {
      k := |Origins(regions[..n])|;
    }
  }

  ghost predicate FitsIn64Bits(regions: seq<Region>) {
    forall i :: 0 <= i < |regions| && regions[i].kind == Usable ==> regions[i].base + regions[i].length < TWO_64
  }

  /** The scanned frames are exactly the aligned frames wholly inside some usable region. */
  lemma ScanFindsExactlyTheFrames(regions: seq<Region>, f: int)
    requires FitsIn64Bits(regions)
    ensures f in AllFrames(Qualifying(regions)) <==>
      exists i :: 0 <= i < |regions| && regions[i].kind == Usable
        && FrameBetween(f, regions[i].base, regions[i].base + regions[i].length)
  {
    var q := Qualifying(regions);
    AllFramesMember(q, f);
    if f in AllFrames(q) {
      var k :| 0 <= k < |q| && f in Frames(q[k]);
      var i := Origins(regions)[k];
      OriginContributes(regions, k);
      RegionRangeExact(regions[i]);
      assert Contributes(regions[i], f);
    }
    if i :| 0 <= i < |regions| && regions[i].kind == Usable
            && FrameBetween(f, regions[i].base, regions[i].base + regions[i].length) {
      RegionRangeExact(regions[i]);
      assert Contributes(regions[i], f);
      var k := OriginFound(regions, i);
      OriginContributes(regions, k);
      assert f in Frames(q[k]);
    }
  }

  /** Only the first `entries` regions count, and only the first 64: a frame is
      counted if and only if it lies wholly inside a usable one of these. */
  lemma {:induction false} EntriesDecide(entries: nat, regions: seq<Region>, f: int)
    requires |regions| == MAX_MEMORY_REGIONS && FitsIn64Bits(regions)
    ensures f in AllFrames(Qualifying(Considered(entries, regions))) <==>
      exists i :: 0 <= i < entries && i < 64 && regions[i].kind == Usable
        && FrameBetween(f, regions[i].base, regions[i].base + regions[i].length)
  {
    var c := Considered(entries, regions);
    ScanFindsExactlyTheFrames(c, f);
    if i :| 0 <= i < |c| && c[i].kind == Usable && FrameBetween(f, c[i].base, c[i].base + c[i].length) {
      assert regions[i] == c[i];
    }
    if i :| 0 <= i < entries && i < 64 && regions[i].kind == Usable
            && FrameBetween(f, regions[i].base, regions[i].base + regions[i].length) {
      assert c[i] == regions[i];
    }
  }

  /** Two regions neither overlap nor touch. */
  predicate Apart(a: Region, b: Region) {
    a.base + a.length < b.base || b.base + b.length < a.base
  }

  /** Any two usable regions keep a gap between them. */
  ghost predicate GapsBetween(regions: seq<Region>) {
    forall i, j ::
      (0 <= i < |regions| && 0 <= j < |regions| && i != j && regions[i].kind == Usable && regions[j].kind == Usable) ==>
      Apart(regions[i], regions[j])
  }

  /** Any two of the regions behind the first 32 ranges keep a gap between them. */
  ghost predicate RecordedGaps(regions: seq<Region>) {
    var o := Origins(regions);
    forall j, k :: 0 <= j < |o| && 0 <= k < |o| && j != k && j < MAX_USABLE_RANGES && k < MAX_USABLE_RANGES ==>
      Apart(regions[o[j]], regions[o[k]])
  }

  lemma GapsGiveSeparatedRanges(regions: seq<Region>)
    requires FitsIn64Bits(regions) && GapsBetween(regions)
    ensures Separated(Qualifying(regions)) && Separated(Recorded(regions))
  {
    var q := Qualifying(regions);
    forall i, j | 0 <= i < |q| && 0 <= j < |q| && i != j
      ensures q[i].end < q[j].start || q[j].end < q[i].start
    {
      GapBetweenRanges(regions, i, j);
    }
  }

  lemma GapBetweenRanges(regions: seq<Region>, i: nat, j: nat)
    requires FitsIn64Bits(regions) && GapsBetween(regions)
    requires i < |Qualifying(regions)| && j < |Qualifying(regions)| && i != j
    ensures var a, b := Qualifying(regions)[i], Qualifying(regions)[j]; a.end < b.start || b.end < a.start
  {
    OriginContributes(regions, i);
    OriginContributes(regions, j);
    if i < j { OriginsAscend(regions, i, j); } else { OriginsAscend(regions, j, i); }
    RegionBounds(regions[Origins(regions)[i]]);
    RegionBounds(regions[Origins(regions)[j]]);
  }

  lemma RegionBounds(region: Region)
    requires region.base + region.length < TWO_64 && RegionRange(region).Some?
    ensures region.base <= RegionRange(region).value.start
    ensures RegionRange(region).value.end <= region.base + region.length
  {
  }

  /** What the boot protocol promises of usable entries: page aligned, non-empty, within 64 bits. */
  ghost predicate PageAligned(regions: seq<Region>) {
    && FitsIn64Bits(regions)
    && forall i :: 0 <= i < |regions| && regions[i].kind == Usable ==>
      regions[i].base % FRAME_SIZE == 0 && regions[i].length % FRAME_SIZE == 0 && regions[i].length > 0
  }

  lemma AlignedRegionRange(region: Region)
    requires region.kind == Usable && region.base + region.length < TWO_64
    requires region.base % FRAME_SIZE == 0 && region.length % FRAME_SIZE == 0 && region.length > 0
    ensures RegionRange(region) == Some(Range(region.base, region.base + region.length))
  {
  }

  /** A page-aligned map gives the usable regions as they stand. */
  lemma AlignedOrigin(regions: seq<Region>, k: nat)
    requires PageAligned(regions) && k < |Qualifying(regions)|
    ensures
      var region := regions[Origins(regions)[k]];
      region.kind == Usable && Qualifying(regions)[k] == Range(region.base, region.base + region.length)
  {
    OriginContributes(regions, k);
    AlignedRegionRange(regions[Origins(regions)[k]]);
  }

  /** For page-aligned maps the ranges are separated exactly when the regions
      behind them keep gaps; with at most 32 usable regions that is all of them. */
  lemma SeparatedExactlyWithGaps(regions: seq<Region>)
    requires PageAligned(regions)
    ensures Separated(Recorded(regions)) <==> RecordedGaps(regions)
    ensures |Qualifying(regions)| <= MAX_USABLE_RANGES ==> (RecordedGaps(regions) <==> GapsBetween(regions))
  {
    var o, r := Origins(regions), Recorded(regions);
    forall k | 0 <= k < |r|
      ensures r[k].start == regions[o[k]].base && r[k].end == regions[o[k]].base + regions[o[k]].length
    {
      AlignedOrigin(regions, k);
    }
    if Separated(r) {
      forall j, k | 0 <= j < |r| && 0 <= k < |r| && j != k ensures Apart(regions[o[j]], regions[o[k]]) {
        assert r[j].end < r[k].start || r[k].end < r[j].start;
      }
    }
    if |Qualifying(regions)| <= MAX_USABLE_RANGES { AllGapsRecorded(regions); }
  }

  lemma AllGapsRecorded(regions: seq<Region>)
    requires PageAligned(regions) && |Qualifying(regions)| <= MAX_USABLE_RANGES
    ensures RecordedGaps(regions) <==> GapsBetween(regions)
  {
    var o := Origins(regions);
    if RecordedGaps(regions) {
      forall i, j | 0 <= i < |regions| && 0 <= j < |regions| && i != j && regions[i].kind == Usable && regions[j].kind == Usable
        ensures Apart(regions[i], regions[j])
      {
        AlignedRegionRange(regions[i]);
        AlignedRegionRange(regions[j]);
        var k := OriginFound(regions, i);
        var l := OriginFound(regions, j);
        assert Apart(regions[o[k]], regions[o[l]]);
      }
    }
    if GapsBetween(regions) {
      forall j, k | 0 <= j < |o| && 0 <= k < |o| && j != k ensures Apart(regions[o[j]], regions[o[k]]) {
        AlignedOrigin(regions, j);
        AlignedOrigin(regions, k);
        if j < k { OriginsAscend(regions, j, k); } else { OriginsAscend(regions, k, j); }
      }
    }
  }

  /** The published frame count is never below what the allocator can hand out,
      and equals it exactly when at most 32 regions qualify. */
  lemma PublishedCount(regions: seq<Region>)
    ensures |AllFrames(Recorded(regions))| <= TotalFrames(Qualifying(regions))
    ensures |AllFrames(Recorded(regions))| == TotalFrames(Qualifying(regions))
      <==> |Qualifying(regions)| <= 32
  {
    var q := Qualifying(regions);
    var n := Min(|q|, MAX_USABLE_RANGES);
    AllFramesLength(q[..n]);
    TotalFramesSplit(q, n);
    TotalFramesBound(q[n..]);
    if n == |q| { assert q[..n] == q; }
  }

  lemma {:induction false} TotalFramesSplit(ranges: seq<Range>, n: nat)
    requires AllWellFormed(ranges) && n <= |ranges|
    ensures TotalFrames(ranges) == TotalFrames(ranges[..n]) + TotalFrames(ranges[n..])
    decreases |ranges| - n
  {
    if n == |ranges| {
      assert ranges[..n] == ranges;
    } else {
      TotalFramesSplit(ranges, n + 1);
      TotalFramesAppend(ranges[..n], ranges[n]);
      assert ranges[..n + 1] == ranges[..n] + [ranges[n]];
      assert ranges[n..][1..] == ranges[n + 1..];
    }
  }
}
