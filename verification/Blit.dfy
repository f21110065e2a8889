/** The run-length scaled blit, against sampling the surface once per destination pixel. */
module Blit {
  import opened Basics
  import opened Machine
  import opened Rect
  import opened Batch

  const SIZE_MAX: int := 16384
  const POS_MAX: int := 32768

  predicate SizeOk(n: int) { 0 < n <= SIZE_MAX }
  predicate PosOk(p: int) { -POS_MAX <= p <= POS_MAX }

  predicate SourceOk(s: Surface) {
    && SizeOk(s.w) && SizeOk(s.h) && s.stride > 0
    && s.stride >= s.w * 4
    && s.h - 1 <= (U32 - 1 - s.w * 4) / s.stride
  }

  predicate DestOk(d: Rect) {
    SizeOk(d.w) && SizeOk(d.h) && PosOk(d.x) && PosOk(d.y)
  }

  predicate Clipping(c: Rect) { c.w > 0 && c.h > 0 }

  predicate Accepted(s: Surface, d: Rect, c: Rect) {
    SourceOk(s) && DestOk(d) && (Clipping(c) ==> DestOk(c))
  }

  /**
   What a caller must bring: source and destination of 1 to 16384 pixels a side, positions within 32768 of the
   origin, rows that do not overlap and a last row that ends below 4 GiB, and the same bounds for a clip.
   */
  predicate Drawable(s: Surface, d: Rect, c: Rect) {
    && 1 <= s.w <= 16384 && 1 <= s.h <= 16384 && 1 <= d.w <= 16384 && 1 <= d.h <= 16384
    && -32768 <= d.x <= 32768 && -32768 <= d.y <= 32768
    && 4 * s.w <= s.stride && (s.h - 1) * s.stride + 4 * s.w < 0x1_0000_0000
    && (c.w > 0 && c.h > 0 ==>
          c.w <= 16384 && c.h <= 16384 && -32768 <= c.x <= 32768 && -32768 <= c.y <= 32768)
  }

  /** The tests of the code decide exactly that. */
  lemma AcceptedIff(s: Surface, d: Rect, c: Rect)
    ensures Accepted(s, d, c) <==> Drawable(s, d, c)
  {
    if 1 <= s.w <= 16384 && 1 <= s.h <= 16384 && 4 * s.w <= s.stride {
      var k := U32 - 1 - s.w * 4;
      assert k == k / s.stride * s.stride + k % s.stride;
      if s.h - 1 <= k / s.stride {
        MulMono(s.h - 1, k / s.stride, s.stride);
      } else {
        MulMono(k / s.stride + 1, s.h - 1, s.stride);
      }
    }
  }

  /** The surface's buffer is as large as its size and stride say. */
  predicate BufferOk(s: Surface) {
    && |s.pixels| >= (s.h - 1) * s.stride + s.w * 4
    && forall i :: 0 <= i < |s.pixels| ==> 0 <= s.pixels[i] < 256
  }

  /** The destination cut down to the clip, as left, top, right, bottom. */
  datatype Area = Area(left: int, top: int, right: int, bottom: int)

  function Clipped(d: Rect, c: Rect): Area {
    if !Clipping(c) then Area(d.x, d.y, d.x + d.w, d.y + d.h)
    else Area(
      if d.x < c.x then c.x else d.x,
      if d.y < c.y then c.y else d.y,
      if d.x + d.w > c.x + c.w then c.x + c.w else d.x + d.w,
      if d.y + d.h > c.y + c.h then c.y + c.h else d.y + d.h)
  }

  predicate InArea(a: Area, px: int, py: int) { a.left <= px < a.right && a.top <= py < a.bottom }

  lemma AreaIsIntersection(d: Rect, c: Rect, px: int, py: int)
    ensures InArea(Clipped(d, c), px, py) <==> Contains(d, px, py) && (Clipping(c) ==> Contains(c, px, py))
  {
  }

  // ----- nearest-neighbour sampling

  function Scale(offset: int, src: int, dst: int): int
    requires dst > 0
  {
    (offset * src) / dst
  }

  function Offset(s: Surface, d: Rect, px: int, py: int): int
    requires d.w > 0 && d.h > 0
  {
    Scale(py - d.y, s.h, d.h) * s.stride + Scale(px - d.x, s.w, d.w) * 4
  }

  /** Scaling stays inside the source, and its product inside a signed 32-bit int. */
  lemma ScaleBounds(offset: int, src: int, dst: int)
    requires SizeOk(src) && SizeOk(dst) && 0 <= offset < dst
    ensures 0 <= Scale(offset, src, dst) < src
    ensures 0 <= offset * src < HALF
  {
    MulMono(0, offset, src);
    MulMono(offset, dst - 1, src);
    MulMono(dst - 1, SIZE_MAX, src);
    Distribute(dst, src);
    QuotientBelow(offset * src, src, dst);
  }

  lemma Distribute(a: int, b: int)
    ensures (a - 1) * b == a * b - b
  {
  }

  lemma QuotientBelow(n: int, src: int, dst: int)
    requires 0 < dst && 0 <= n < dst * src
    ensures 0 <= n / dst < src
  {
    var q := n / dst;
    assert n == q * dst + n % dst;
    if q >= src {
      MulMono(src, q, dst);
    }
  }

  /** Every byte the blit reads lies inside the buffer, at an offset that fits 32 bits unsigned. */
  lemma OffsetInBuffer(s: Surface, d: Rect, px: int, py: int)
    requires SourceOk(s) && DestOk(d) && Contains(d, px, py)
    ensures 0 <= Offset(s, d, px, py)
    ensures Offset(s, d, px, py) + 4 <= (s.h - 1) * s.stride + s.w * 4 < U32
  {
    ScaleBounds(py - d.y, s.h, d.h);
    ScaleBounds(px - d.x, s.w, d.w);
    var sy := Scale(py - d.y, s.h, d.h);
    MulMono(0, sy, s.stride);
    MulMono(sy, s.h - 1, s.stride);
    var k := U32 - 1 - s.w * 4;
    assert (k / s.stride) * s.stride <= k;
    MulMono(s.h - 1, k / s.stride, s.stride);
  }

  function Sample(s: Surface, d: Rect, px: int, py: int): int
    requires SourceOk(s) && BufferOk(s) && DestOk(d) && Contains(d, px, py)
  {
    OffsetInBuffer(s, d, px, py);
    var o := Offset(s, d, px, py);
    s.pixels[o + 2] * 0x1_0000 + s.pixels[o + 1] * 0x100 + s.pixels[o]
  }

  /** The rational point a destination pixel's corner comes from lies in source pixel (sx, sy). */
  predicate NearestSource(s: Surface, d: Rect, px: int, py: int, sx: int, sy: int) {
    && 0 <= sx < s.w && sx * d.w <= (px - d.x) * s.w < (sx + 1) * d.w
    && 0 <= sy < s.h && sy * d.h <= (py - d.y) * s.h < (sy + 1) * d.h
  }

  /** The four bytes of source pixel (sx, sy) are blue, green, red and one that is not used. */
  predicate HasColor(s: Surface, sx: int, sy: int, color: int) {
    var o := sy * s.stride + 4 * sx;
    0 <= o && o + 4 <= |s.pixels| &&
    color == 0x1_0000 * s.pixels[o + 2] + 0x100 * s.pixels[o + 1] + s.pixels[o]
  }

  lemma ScaleIsFloor(offset: int, src: int, dst: int)
    requires dst > 0
    ensures Scale(offset, src, dst) * dst <= offset * src < (Scale(offset, src, dst) + 1) * dst
  {
    var q := offset * src / dst;
    assert offset * src == q * dst + offset * src % dst;
  }

  lemma SampleIsNearest(s: Surface, d: Rect, px: int, py: int) returns (sx: int, sy: int)
    requires SourceOk(s) && BufferOk(s) && DestOk(d) && Contains(d, px, py)
    ensures NearestSource(s, d, px, py, sx, sy) && HasColor(s, sx, sy, Sample(s, d, px, py))
  {
    sx, sy := Scale(px - d.x, s.w, d.w), Scale(py - d.y, s.h, d.h);
    ScaleIsFloor(px - d.x, s.w, d.w);
    ScaleIsFloor(py - d.y, s.h, d.h);
    ScaleBounds(px - d.x, s.w, d.w);
    ScaleBounds(py - d.y, s.h, d.h);
    OffsetInBuffer(s, d, px, py);
  }

  /** There is only one such source pixel. */
  lemma NearestIsUnique(s: Surface, d: Rect, px: int, py: int, sx: int, sy: int, tx: int, ty: int)
    requires d.w > 0 && d.h > 0 && NearestSource(s, d, px, py, sx, sy) && NearestSource(s, d, px, py, tx, ty)
    ensures sx == tx && sy == ty
  {
    SameFloor((px - d.x) * s.w, d.w, sx, tx);
    SameFloor((py - d.y) * s.h, d.h, sy, ty);
  }

  lemma SameFloor(n: int, d: int, a: int, b: int)
    requires d > 0 && a * d <= n < (a + 1) * d && b * d <= n < (b + 1) * d
    ensures a == b
  {
    if a < b {
      MulMono(a + 1, b, d);
    } else if b < a {
      MulMono(b + 1, a, d);
    }
  }

  // ----- runs of equal colour

  predicate RowArgs(s: Surface, d: Rect, y: int, x: int, right: int) {
    SourceOk(s) && BufferOk(s) && DestOk(d) && d.y <= y < d.y + d.h && d.x <= x <= right <= d.x + d.w
  }

  /** Where the run of `color` that has reached x ends. */
  function RunEnd(s: Surface, d: Rect, y: int, x: int, right: int, color: int): (e: int)
    requires RowArgs(s, d, y, x, right)
    ensures x <= e <= right
    ensures forall px :: x <= px < e ==> Sample(s, d, px, y) == color
    ensures e < right ==> Sample(s, d, e, y) != color
    decreases right - x
  {
    if x == right || Sample(s, d, x, y) != color then x else RunEnd(s, d, y, x + 1, right, color)
  }

  function RowRuns(s: Surface, d: Rect, y: int, x: int, right: int): seq<GfxRect>
    requires RowArgs(s, d, y, x, right)
    decreases right - x
  {
    if x == right then []
    else
      var color := Sample(s, d, x, y);
      var e := RunEnd(s, d, y, x + 1, right, color);
      [GfxRect(x, y, e - x, 1, color)] + RowRuns(s, d, y, e, right)
  }

  /** The rows from y down to the bottom of the area. */
  function AllRuns(s: Surface, d: Rect, a: Area, y: int): seq<GfxRect>
    requires RowArgs(s, d, d.y, a.left, a.right) && d.y <= y <= a.bottom <= d.y + d.h
    decreases a.bottom - y
  {
    if y == a.bottom then [] else RowRuns(s, d, y, a.left, a.right) + AllRuns(s, d, a, y + 1)
  }

  // ----- what the runs paint

  /** How often a list of rectangles paints a pixel. */
  function Hits(rs: seq<GfxRect>, px: int, py: int): nat {
    if rs == [] then 0 else (if Paints(rs[0], px, py) then 1 else 0) + Hits(rs[1..], px, py)
  }

  lemma {:induction false} HitsAppend(a: seq<GfxRect>, b: seq<GfxRect>, px: int, py: int)
    ensures Hits(a + b, px, py) == Hits(a, px, py) + Hits(b, px, py)
    decreases |a|
  {
    if a == [] {
      assert a + b == b;
    } else {
      assert (a + b)[1..] == a[1..] + b;
      HitsAppend(a[1..], b, px, py);
    }
  }

  /** A run is one pixel high, not empty, all of the sampled colour, and cannot be extended to the right. */
  ghost predicate MaximalRun(s: Surface, d: Rect, a: Area, r: GfxRect)
    requires SourceOk(s) && BufferOk(s) && DestOk(d)
  {
    && r.h == 1 && r.w >= 1 && d.x <= r.x && r.x + r.w <= a.right <= d.x + d.w && d.y <= r.y < d.y + d.h
    && (forall px :: r.x <= px < r.x + r.w ==> Sample(s, d, px, r.y) == r.color)
    && (r.x + r.w < a.right ==> Sample(s, d, r.x + r.w, r.y) != r.color)
  }

  lemma {:induction false} RowIsExact(s: Surface, d: Rect, a: Area, y: int, x: int, px: int, py: int)
    requires RowArgs(s, d, y, x, a.right)
    ensures var rs := RowRuns(s, d, y, x, a.right);
            && Hits(rs, px, py) == (if py == y && x <= px < a.right then 1 else 0)
            && forall k :: 0 <= k < |rs| ==> MaximalRun(s, d, a, rs[k])
    decreases a.right - x
  {
    if x < a.right {
      var color := Sample(s, d, x, y);
      var e := RunEnd(s, d, y, x + 1, a.right, color);
      RowIsExact(s, d, a, y, e, px, py);
      assert MaximalRun(s, d, a, GfxRect(x, y, e - x, 1, color));
    }
  }

  lemma {:induction false} RowsAreExact(s: Surface, d: Rect, a: Area, y: int, px: int, py: int)
    requires RowArgs(s, d, d.y, a.left, a.right) && d.y <= y <= a.bottom <= d.y + d.h
    ensures var rs := AllRuns(s, d, a, y);
            && Hits(rs, px, py) == (if y <= py < a.bottom && a.left <= px < a.right then 1 else 0)
            && forall k :: 0 <= k < |rs| ==> MaximalRun(s, d, a, rs[k])
    decreases a.bottom - y
  {
    if y < a.bottom {
      RowIsExact(s, d, a, y, a.left, px, py);
      RowsAreExact(s, d, a, y + 1, px, py);
      HitsAppend(RowRuns(s, d, y, a.left, a.right), AllRuns(s, d, a, y + 1), px, py);
    }
  }

  /** The list of rectangles the fallback draws. */
  function Runs(s: Surface, d: Rect, c: Rect): seq<GfxRect>
    requires Accepted(s, d, c) ==> BufferOk(s)
  {
    var a := Clipped(d, c);
    if !Accepted(s, d, c) || a.left >= a.right || a.top >= a.bottom then []
    else AllRuns(s, d, a, a.top)
  }

  /**
   Every pixel of destination and clip is painted exactly once, with the colour of the source pixel it comes
   from, and no other pixel is painted; runs are maximal.
   */
  lemma BlitIsExact(s: Surface, d: Rect, c: Rect, px: int, py: int)
    requires Drawable(s, d, c) && BufferOk(s)
    ensures Accepted(s, d, c)
    ensures var rs := Runs(s, d, c);
            && Hits(rs, px, py) ==
               (if Contains(d, px, py) && (c.w > 0 && c.h > 0 ==> Contains(c, px, py)) then 1 else 0)
            && (forall k :: 0 <= k < |rs| ==> MaximalRun(s, d, Clipped(d, c), rs[k]))
            && (forall k :: 0 <= k < |rs| && Paints(rs[k], px, py) ==>
                  exists sx, sy :: NearestSource(s, d, px, py, sx, sy) && HasColor(s, sx, sy, rs[k].color))
  {
    AcceptedIff(s, d, c);
    var a := Clipped(d, c);
    AreaIsIntersection(d, c, px, py);
    if a.left < a.right && a.top < a.bottom {
      RowsAreExact(s, d, a, a.top, px, py);
    }
    var rs := Runs(s, d, c);
    forall k | 0 <= k < |rs| && Paints(rs[k], px, py)
      ensures exists sx, sy :: NearestSource(s, d, px, py, sx, sy) && HasColor(s, sx, sy, rs[k].color)
    {
      assert MaximalRun(s, d, a, rs[k]);
      var sx, sy := SampleIsNearest(s, d, px, py);
    }
  }

  // ----- the code

  method ColorAt(s: Surface, d: Rect, x: int, srcY: int, ghost y: int) returns (color: int)
    requires SourceOk(s) && BufferOk(s) && DestOk(d) && Contains(d, x, y) && srcY == Scale(y - d.y, s.h, d.h)
    ensures color == Sample(s, d, x, y)
  {
    OffsetInBuffer(s, d, x, y);
    var srcX := ((x - d.x) * s.w) / d.w;
    var o := srcY * s.stride + srcX * 4;
    color := s.pixels[o + 2] * 0x1_0000 + s.pixels[o + 1] * 0x100 + s.pixels[o];
  }

  method FindRunEnd(s: Surface, d: Rect, y: int, srcY: int, from: int, right: int, color: int)
    returns (x: int)
    requires RowArgs(s, d, y, from, right) && srcY == Scale(y - d.y, s.h, d.h)
    ensures x == RunEnd(s, d, y, from, right, color)
  {
    x := from;
    while x < right
      invariant from <= x <= right
      invariant RunEnd(s, d, y, from, right, color) == RunEnd(s, d, y, x, right, color)
    {
      var next := ColorAt(s, d, x, srcY, y);
      if next != color {
        return;
      }
      x := x + 1;
    }
  }

  lemma TaggedAppend(api: int, before: seq<Call>, a: seq<GfxRect>, b: seq<GfxRect>)
    ensures before + Tagged(api, a + b) == (before + Tagged(api, a)) + Tagged(api, b)
  {
    assert Tagged(api, a + b) == Tagged(api, a) + Tagged(api, b);
  }

  /** One run: scan to its end and queue it as a rectangle of height one. */
  method EmitRun(batch: RectBatch, api: int, s: Surface, d: Rect, y: int, srcY: int, start: int, right: int)
    returns (x: int, ok: bool)
    requires batch.Valid() && api != 0 && RowArgs(s, d, y, start, right) && start < right
    requires srcY == Scale(y - d.y, s.h, d.h)
    modifies batch, batch.rects, batch.kernel
    ensures batch.Valid() && x == RunEnd(s, d, y, start + 1, right, Sample(s, d, start, y))
    ensures batch.Drawn() == old(batch.Drawn()) + Tagged(api, [GfxRect(start, y, x - start, 1, Sample(s, d, start, y))])
  {
    var color := ColorAt(s, d, start, srcY, y);
    x := FindRunEnd(s, d, y, srcY, start + 1, right, color);
    var rect := GfxRect(start, y, x - start, 1, color);
    assert Tagged(api, [rect]) == [RectCall(api, rect)];
    ok := batch.Enqueue(api, rect);
  }

  method BlitRow(batch: RectBatch, api: int, s: Surface, d: Rect, y: int, left: int, right: int)
    returns (ok: bool)
    requires batch.Valid() && api != 0 && RowArgs(s, d, y, left, right)
    modifies batch, batch.rects, batch.kernel
    ensures batch.Valid()
    ensures batch.Drawn() == old(batch.Drawn()) + Tagged(api, RowRuns(s, d, y, left, right))
  {
    ok := true;
    var srcY := ((y - d.y) * s.h) / d.h;
    var x := left;
    ghost var all := batch.Drawn() + Tagged(api, RowRuns(s, d, y, left, right));
    while x < right
      invariant left <= x <= right && batch.Valid()
      invariant batch.Drawn() + Tagged(api, RowRuns(s, d, y, x, right)) == all
    {
      RowStep(api, batch.Drawn(), s, d, y, x, right);
      var end, queued := EmitRun(batch, api, s, d, y, srcY, x, right);
      x := end;
      if !queued {
        ok := false;
      }
    }
  }

  lemma RowStep(api: int, before: seq<Call>, s: Surface, d: Rect, y: int, x: int, right: int)
    requires RowArgs(s, d, y, x, right) && x < right
    ensures var color := Sample(s, d, x, y);
            var e := RunEnd(s, d, y, x + 1, right, color);
            before + Tagged(api, RowRuns(s, d, y, x, right)) ==
            (before + Tagged(api, [GfxRect(x, y, e - x, 1, color)])) + Tagged(api, RowRuns(s, d, y, e, right))
  {
    var color := Sample(s, d, x, y);
    var e := RunEnd(s, d, y, x + 1, right, color);
    TaggedAppend(api, before, [GfxRect(x, y, e - x, 1, color)], RowRuns(s, d, y, e, right));
  }

  /** ui_packed_xrgb_blit_scaled_fallback. */
  method BlitScaled(batch: RectBatch, api: int, s: Surface, d: Rect, c: Rect) returns (ok: bool)
    requires batch.Valid() && (Accepted(s, d, c) ==> BufferOk(s))
    modifies batch, batch.rects, batch.kernel
    ensures batch.Valid()
    ensures batch.Drawn() == if api == 0 then old(batch.Drawn()) else old(batch.Drawn()) + Tagged(api, Runs(s, d, c))
    ensures api == 0 || !Drawable(s, d, c) ==> !ok
  {
    AcceptedIff(s, d, c);
    if api == 0 || !Accepted(s, d, c) {
      return false;
    }
    var a := Clipped(d, c);
    ok := true;
    if a.left >= a.right || a.top >= a.bottom {
      return;
    }
    ghost var done: seq<GfxRect> := [];
    for y := a.top to a.bottom
      invariant batch.Valid()
      invariant done + AllRuns(s, d, a, y) == AllRuns(s, d, a, a.top)
      invariant batch.Drawn() == old(batch.Drawn()) + Tagged(api, done)
    {
      ghost var row := RowRuns(s, d, y, a.left, a.right);
      Regroup(done, row, AllRuns(s, d, a, y + 1));
      TaggedAppend(api, old(batch.Drawn()), done, row);
      done := done + row;
      var rowOk := BlitRow(batch, api, s, d, y, a.left, a.right);
      if !rowOk {
        ok := false;
      }
    }
    assert done == AllRuns(s, d, a, a.top);
  }
}
