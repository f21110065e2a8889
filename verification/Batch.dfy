/** The rectangle batcher: requests it holds back, against requests handed over at once. */
module Batch {
  import opened Rect

  const BATCH_MAX: int := 64

  datatype GfxRect = GfxRect(x: int, y: int, w: int, h: int, color: int)

  predicate Paints(r: GfxRect, px: int, py: int) { Contains(Rect(r.x, r.y, r.w, r.h), px, py) }

  /** Packed 32-bit pixels, blue first; rows are `stride` bytes apart. */
  datatype Surface = Surface(pixels: seq<int>, w: int, h: int, stride: int)

  /** One drawing request as the kernel gets it, on behalf of a (non-null) api handle. */
  datatype Call =
    | RectCall(api: int, r: GfxRect)
    | ClearCall(api: int, color: int)
    | TextCall(api: int, x: int, y: int, text: string, fg: int, bg: int)
    | PresentCall(api: int)
    | ClippedTextCall(api: int, x: int, y: int, text: string, fg: int, bg: int, clip: Rect)
    | SurfaceCall(api: int, surface: Surface, dest: Rect, clip: Rect)

  /** The kernel side: it logs what it is asked to draw, and may refuse a batch, drawing none of it. */
  class Kernel {
    ghost var trace: seq<Call>

    constructor ()
      ensures trace == []
    {
      trace := [];
    }

    method RectBatch(api: int, rects: seq<GfxRect>) returns (result: int)
      modifies this
      ensures trace == old(trace) + (if result > 0 then Tagged(api, rects) else [])
    {
      if * {
        trace := trace + Tagged(api, rects);
        result := 1;
      } else {
        result := 0;
      }
    }

    method Request(c: Call) returns (result: int)
      modifies this
      ensures trace == old(trace) + (if c.api == 0 then [] else [c])
    {
      result := -1;
      if c.api != 0 {
        trace := trace + [c];
        if * { result := 1; } else { result := 0; }
      }
    }

    /** A request that the kernel may refuse, drawing nothing. */
    method Offer(c: Call, accepted: bool) returns (done: bool)
      modifies this
      ensures done == (c.api != 0 && accepted)
      ensures trace == old(trace) + (if done then [c] else [])
    {
      done := c.api != 0 && accepted;
      if done {
        trace := trace + [c];
      }
    }
  }

  function Tagged(api: int, rects: seq<GfxRect>): (cs: seq<Call>)
    ensures |cs| == |rects|
  {
    seq(|rects|, i requires 0 <= i < |rects| => RectCall(api, rects[i]))
  }

  class RectBatch {
    const kernel: Kernel
    const rects: array<GfxRect>
    var count: int
    var api: int

    ghost predicate Valid()
      reads this
    {
      rects.Length == BATCH_MAX && 0 <= count <= BATCH_MAX && (count > 0 ==> api != 0)
    }

    /** Requests accepted by the batcher and not yet handed to the kernel. */
    ghost function Pending(): seq<Call>
      requires Valid()
      reads this, rects
    {
      Tagged(api, rects[..count])
    }

    /** Everything drawn so far, seen or not by the kernel. */
    ghost function Drawn(): seq<Call>
      requires Valid()
      reads this, rects, kernel
    {
      kernel.trace + Pending()
    }

    /** Everything drawn so far and `calls` after it make up `all`. */
    ghost predicate Owes(calls: seq<Call>, all: seq<Call>)
      requires Valid()
      reads this, rects, kernel
    {
      Drawn() + calls == all
    }

    constructor ()
      ensures Valid() && fresh(kernel) && fresh(rects) && Drawn() == []
    {
      kernel := new Kernel();
      rects := new GfxRect[BATCH_MAX](_ => GfxRect(0, 0, 0, 0, 0));
      count, api := 0, 0;
    }

    /** ui_gfx_rect_batch_flush: pending rectangles reach the kernel in order, batched or one by one. */
    method Flush(fallbackApi: int) returns (ok: bool)
      requires Valid()
      modifies this, kernel
      ensures Valid() && count == 0 && kernel.trace == old(Drawn())
    {
      if count == 0 {
        return true;
      }
      var target := if api != 0 then api else fallbackApi;
      var n := count;
      count := 0;
      api := 0;
      var result := kernel.RectBatch(target, rects[..n]);
      if result > 0 {
        return true;
      }
      ok := true;
      for i := 0 to n
        invariant count == 0
        invariant kernel.trace == old(kernel.trace) + Tagged(target, rects[..i])
      {
        var one := kernel.Request(RectCall(target, rects[i]));
        if one <= 0 {
          ok := false;
        }
        assert Tagged(target, rects[..i + 1]) == Tagged(target, rects[..i]) + [RectCall(target, rects[i])];
      }
    }

    /** ui_gfx_rect_batch_enqueue. */
    method Enqueue(a: int, r: GfxRect) returns (ok: bool)
      requires Valid()
      modifies this, rects, kernel
      ensures Valid()
      ensures Drawn() == if a == 0 then old(Drawn()) else old(Drawn()) + [RectCall(a, r)]
      ensures a == 0 ==> !ok
    {
      if a == 0 {
        return false;
      }
      if count > 0 && api != a {
        var flushed := Flush(api);
      }
      if count == BATCH_MAX {
        var flushed := Flush(a);
      }
      assert Drawn() == old(Drawn());
      ghost var before := kernel.trace + Tagged(a, rects[..count]);
      assert before == Drawn();
      api := a;
      rects[count] := r;
      count := count + 1;
      assert Tagged(a, rects[..count]) == Tagged(a, rects[..count - 1]) + [RectCall(a, r)];
      ok := true;
      if count == BATCH_MAX {
        ok := Flush(a);
      }
    }

    /** ui_fill_rect: the only drawing primitive that is held back. */
    method FillRect(a: int, r: Rect, color: int)
      requires Valid()
      modifies this, rects, kernel
      ensures Valid()
      ensures Drawn() == if a == 0 || IsEmpty(r) then old(Drawn())
                         else old(Drawn()) + [RectCall(a, GfxRect(r.x, r.y, r.w, r.h, color))]
    {
      if a == 0 || r.w <= 0 || r.h <= 0 {
        return;
      }
      var ok := Enqueue(a, GfxRect(r.x, r.y, r.w, r.h, color));
    }

    /** Any other primitive is a barrier: flush, then the request. */
    method Barrier(c: Call)
      requires Valid()
      modifies this, kernel
      ensures Valid() && count == 0
      ensures kernel.trace == Drawn() == if c.api == 0 then old(Drawn()) else old(Drawn()) + [c]
    {
      var flushed := Flush(c.api);
      var result := kernel.Request(c);
    }

    /** A barrier whose request the kernel may refuse. */
    method OfferBarrier(c: Call, accepted: bool) returns (done: bool)
      requires Valid()
      modifies this, kernel
      ensures Valid() && count == 0 && done == (c.api != 0 && accepted)
      ensures kernel.trace == Drawn() == if done then old(Drawn()) + [c] else old(Drawn())
    {
      var flushed := Flush(c.api);
      done := kernel.Offer(c, accepted);
    }
  }
}
