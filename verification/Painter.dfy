/**
 What drawing on the framebuffer means: rectangles painted one over another.
 Memory is bytes; a pixel is four of them, little-endian, rows `pitch` bytes apart.
 */
module Painter {
  import opened Words
  import Bits

  /** Screen geometry; rows do not overlap. */
  datatype RawScreen = Screen(width: U32, height: U32, pitch: U32)
  type Screen = s: RawScreen | 4 * s.width <= s.pitch witness Screen(0, 0, 0)

  datatype Rect = Rect(x: U32, y: U32, width: U32, height: U32, color: U32)

  predicate Covers(r: Rect, px: int, py: int) {
    r.x <= px < r.x + r.width && r.y <= py < r.y + r.height
  }

  /** Byte `lane` of a colour, lowest first. */
  function Lane(color: U32, lane: nat): Byte
    requires lane < 4
  {
    if lane == 0 then color % 256
    else if lane == 1 then color / 0x100 % 256
    else if lane == 2 then color / 0x1_0000 % 256
    else color / 0x100_0000
  }

  /** The four bytes spell the colour. */
  lemma ColorFromLanes(c: U32)
    ensures c == Lane(c, 0) + 0x100 * Lane(c, 1) + 0x1_0000 * Lane(c, 2) + 0x100_0000 * Lane(c, 3)
  {
    assert c / 0x100 == c / 0x1_0000 * 0x100 + c / 0x100 % 0x100;
    assert c / 0x1_0000 == c / 0x100_0000 * 0x100 + c / 0x1_0000 % 0x100;
  }

  function Row(s: Screen, k: nat): nat { if s.pitch == 0 then 0 else k / s.pitch }
  function RowByte(s: Screen, k: nat): nat { if s.pitch == 0 then 0 else k % s.pitch }
  function Column(s: Screen, k: nat): nat { RowByte(s, k) / 4 }
  function LaneOf(s: Screen, k: nat): (l: nat) ensures l < 4 { RowByte(s, k) % 4 }

  /** Byte `k` belongs to a visible pixel and not to row padding. */
  predicate Visible(s: Screen, k: nat) {
    Row(s, k) < s.height && Column(s, k) < s.width
  }

  function Offset(s: Screen, px: nat, py: nat): nat {
    py * s.pitch + px * 4
  }

  /** The four bytes at a pixel's offset are exactly the bytes with its row and
      column, and they lie inside the framebuffer. */
  lemma PixelBytes(s: Screen, px: nat, py: nat, k: nat)
    requires px < s.width && py < s.height
    ensures Offset(s, px, py) + 4 <= s.pitch * s.height
    ensures Offset(s, px, py) <= k < Offset(s, px, py) + 4 <==> Row(s, k) == py && Column(s, k) == px
    ensures Row(s, k) == py && Column(s, k) == px ==> LaneOf(s, k) == k - Offset(s, px, py)
  {
    RowInside(s.pitch, s.height, py);
    if Offset(s, px, py) <= k < Offset(s, px, py) + 4 {
      Bits.ModUnique(k, s.pitch, py, k - py * s.pitch);
      DivUnique(k, s.pitch, py, k - py * s.pitch);
    }
    if Row(s, k) == py && Column(s, k) == px {
      assert k == py * s.pitch + RowByte(s, k);
    }
  }

  /** Byte offsets of visible pixels fit in 64 bits. */
  lemma OffsetFits(s: Screen, px: nat, py: nat)
    requires px < s.width && py < s.height
    ensures Offset(s, px, py) + 4 < TWO_64
  {
    MulMono(py, TWO_32 - 2, s.pitch);
    MulMono(s.pitch, TWO_32 - 1, TWO_32 - 2);
  }

  lemma RowInside(pitch: nat, height: nat, py: nat)
    requires py < height
    ensures py * pitch + pitch <= pitch * height
  {
    assert (py + 1) * pitch <= height * pitch by { MulMono(py + 1, height, pitch); }
  }

  lemma MulMono(a: nat, b: nat, c: nat)
    requires a <= b
    ensures a * c <= b * c
  {
  }

  lemma DivUnique(x: nat, d: nat, q: nat, r: nat)
    requires d > 0 && r < d && x == q * d + r
    ensures x / d == q
  {
    Bits.ModUnique(x, d, q, r);
    assert (x / d - q) * d == 0;
    Bits.MulGap(x / d - q, d);
  }

  // ---- painting ----

  /** Byte `k` after painting `r` over old value `b`. */
  function PaintByte(s: Screen, r: Rect, k: nat, b: Byte): Byte {
    if Visible(s, k) && Covers(r, Column(s, k), Row(s, k)) then Lane(r.color, LaneOf(s, k)) else b
  }

  function Paint(s: Screen, mem: seq<Byte>, r: Rect): (mem': seq<Byte>)
    ensures |mem'| == |mem|
  {
    seq(|mem|, k requires 0 <= k < |mem| => PaintByte(s, r, k, mem[k]))
  }

  function PaintAll(s: Screen, mem: seq<Byte>, rects: seq<Rect>): (mem': seq<Byte>)
    ensures |mem'| == |mem|
    decreases |rects|
  {
    if rects == [] then mem else PaintAll(s, Paint(s, mem, rects[0]), rects[1..])
  }

  /** Colour of the last rectangle covering a pixel. */
  function TopColor(rects: seq<Rect>, px: int, py: int): Option<U32> {
    if rects == [] then None
    else
      var last := rects[|rects| - 1];
      if Covers(last, px, py) then Some(last.color) else TopColor(rects[..|rects| - 1], px, py)
  }

  lemma {:induction false} PaintAllConcat(s: Screen, mem: seq<Byte>, a: seq<Rect>, b: seq<Rect>)
    ensures PaintAll(s, mem, a + b) == PaintAll(s, PaintAll(s, mem, a), b)
    decreases |a|
  {
    if a == [] {
      assert a + b == b;
    } else {
      assert (a + b)[1..] == a[1..] + b;
      PaintAllConcat(s, Paint(s, mem, a[0]), a[1..], b);
    }
  }

  /** Painter's algorithm: a visible byte shows the last rectangle covering its
      pixel; padding and uncovered pixels keep their bytes. */
  lemma {:induction false} LastRectangleWins(s: Screen, mem: seq<Byte>, rects: seq<Rect>, k: nat)
    requires k < |mem|
    ensures
      var top := TopColor(rects, Column(s, k), Row(s, k));
      PaintAll(s, mem, rects)[k] ==
        if Visible(s, k) && top.Some? then Lane(top.value, LaneOf(s, k)) else mem[k]
    decreases |rects|
  {
    if rects != [] {
      var n := |rects| - 1;
      var front := rects[..n];
      LastRectangleWins(s, mem, front, k);
      assert rects == front + [rects[n]];
      PaintAllConcat(s, mem, front, [rects[n]]);
      assert PaintAll(s, PaintAll(s, mem, front), [rects[n]]) == Paint(s, PaintAll(s, mem, front), rects[n]);
    }
  }

  /** A first rectangle over the whole screen hides what was there before. */
  lemma {:induction false} BackgroundCovers(s: Screen, rects: seq<Rect>, px: int, py: int)
    requires rects != [] && Covers(rects[0], px, py)
    ensures TopColor(rects, px, py).Some?
    decreases |rects|
  {
    var n := |rects| - 1;
    if !Covers(rects[n], px, py) { BackgroundCovers(s, rects[..n], px, py); }
  }

  predicate Background(s: Screen, r: Rect) {
    r.x == 0 && r.y == 0 && r.width == s.width && r.height == s.height
  }

  /** Drawing a scene with a background gives a picture that does not depend on
      what the screen showed before, and drawing it again changes nothing. */
  lemma RedrawIsIdempotent(s: Screen, a: seq<Byte>, b: seq<Byte>, rects: seq<Rect>)
    requires |a| == |b| && rects != [] && Background(s, rects[0])
    ensures forall k :: 0 <= k < |a| && Visible(s, k) ==> PaintAll(s, a, rects)[k] == PaintAll(s, b, rects)[k]
    ensures forall k :: 0 <= k < |a| && !Visible(s, k) ==> PaintAll(s, a, rects)[k] == a[k]
    ensures PaintAll(s, PaintAll(s, a, rects), rects) == PaintAll(s, a, rects)
  {
    var once := PaintAll(s, a, rects);
    forall k | 0 <= k < |a|
      ensures Visible(s, k) ==> once[k] == PaintAll(s, b, rects)[k]
      ensures !Visible(s, k) ==> once[k] == a[k]
      ensures PaintAll(s, once, rects)[k] == once[k]
    {
      LastRectangleWins(s, a, rects, k);
      LastRectangleWins(s, b, rects, k);
      LastRectangleWins(s, once, rects, k);
      if Visible(s, k) { BackgroundCovers(s, rects, Column(s, k), Row(s, k)); }
    }
  }
}
