/** The drawing primitives over the batcher, against drawing without one. */
module Drawing {
  import opened Basics
  import opened Rect
  import opened Batch
  import opened Blit
  import opened Glyphs

  /** A drawing operation; `accepted` says whether the kernel takes the request that it may refuse. */
  datatype DrawOp =
    | Fill(api: int, r: Rect, color: int)
    | Clear(api: int, color: int)
    | Text(api: int, x: int, y: int, text: string, fg: int, bg: int)
    | ClippedText(api: int, x: int, y: int, text: string, fg: int, bg: int, clip: Rect, accepted: bool)
    | Present(api: int)
    | BlitSurface(api: int, surface: Surface, dest: Rect, clip: Rect, accepted: bool)

  /** A surface has the buffer its size and stride promise, if the blit accepts them. */
  predicate OpOk(op: DrawOp) {
    op.BlitSurface? && Accepted(op.surface, op.dest, op.clip) ==> BufferOk(op.surface)
  }

  function ClippedTextCalls(f: Font, a: int, x: int, y: int, text: string, fg: int, bg: int, clip: Rect,
                            accepted: bool): seq<Call>
    requires FontOk(f)
  {
    if a == 0 || IsEmpty(clip) then []
    else if accepted then [ClippedTextCall(a, x, y, text, fg, bg, clip)]
    else TextFallback(f, a, x, y, text, fg, bg, clip)
  }

  /** What an operation asks of the kernel when there is no batcher. */
  function Immediate(f: Font, op: DrawOp): seq<Call>
    requires FontOk(f) && OpOk(op)
  {
    if op.api == 0 then []
    else
      match op
      case Fill(a, r, color) => if IsEmpty(r) then [] else [RectCall(a, GfxRect(r.x, r.y, r.w, r.h, color))]
      case Clear(a, color) => [ClearCall(a, color)]
      case Text(a, x, y, text, fg, bg) => [TextCall(a, x, y, text, fg, bg)]
      case ClippedText(a, x, y, text, fg, bg, clip, accepted) =>
        ClippedTextCalls(f, a, x, y, text, fg, bg, clip, accepted)
      case Present(a) => [PresentCall(a)]
      case BlitSurface(a, surface, dest, clip, accepted) =>
        if accepted then [SurfaceCall(a, surface, dest, clip)] else Tagged(a, Runs(surface, dest, clip))
  }

  function Unbatched(f: Font, ops: seq<DrawOp>): seq<Call>
    requires FontOk(f) && forall i :: 0 <= i < |ops| ==> OpOk(ops[i])
  {
    if ops == [] then [] else Unbatched(f, ops[..|ops| - 1]) + Immediate(f, ops[|ops| - 1])
  }

  lemma UnbatchedStep(f: Font, ops: seq<DrawOp>, i: int)
    requires FontOk(f) && (forall k :: 0 <= k < |ops| ==> OpOk(ops[k])) && 0 <= i < |ops|
    ensures Unbatched(f, ops[..i + 1]) == Unbatched(f, ops[..i]) + Immediate(f, ops[i])
  {
    assert ops[..i + 1][..i] == ops[..i];
  }

  /** ui_draw_text_clipped: a barrier with a request, and character by character if that is refused. */
  method DrawClippedText(batch: RectBatch, f: Font, a: int, x: int, y: int, text: string, fg: int, bg: int, clip: Rect,
                         accepted: bool)
    requires batch.Valid() && FontOk(f)
    modifies batch, batch.rects, batch.kernel
    ensures batch.Valid()
    ensures batch.Drawn() == old(batch.Drawn()) + ClippedTextCalls(f, a, x, y, text, fg, bg, clip, accepted)
  {
    NoMore(batch.Drawn());
    if a == 0 || IsEmpty(clip) {
      return;
    }
    var done := batch.OfferBarrier(ClippedTextCall(a, x, y, text, fg, bg, clip), accepted);
    if done {
      return;
    }
    PaintText(batch, a, f, x, y, text, fg, bg, clip);
  }

  /** A surface blit flushes, tries the surface request, and falls back to the runs of the scaled blit. */
  method DrawSurface(batch: RectBatch, f: Font, a: int, surface: Surface, dest: Rect, clip: Rect, accepted: bool)
    requires batch.Valid() && FontOk(f) && OpOk(BlitSurface(a, surface, dest, clip, accepted))
    modifies batch, batch.rects, batch.kernel
    ensures batch.Valid()
    ensures batch.Drawn() == old(batch.Drawn()) + Immediate(f, BlitSurface(a, surface, dest, clip, accepted))
  {
    NoMore(batch.Drawn());
    var done := batch.OfferBarrier(SurfaceCall(a, surface, dest, clip), accepted);
    if done {
      return;
    }
    var ok := BlitScaled(batch, a, surface, dest, clip);
  }

  method Draw(batch: RectBatch, f: Font, op: DrawOp)
    requires batch.Valid() && FontOk(f) && OpOk(op)
    modifies batch, batch.rects, batch.kernel
    ensures batch.Valid() && batch.Drawn() == old(batch.Drawn()) + Immediate(f, op)
    ensures op.Present? ==> batch.count == 0
  {
    NoMore(batch.Drawn());
    match op
    case Fill(a, r, color) => batch.FillRect(a, r, color);
    case Clear(a, color) => batch.Barrier(ClearCall(a, color));
    case Text(a, x, y, text, fg, bg) =>
      if a != 0 {
        batch.Barrier(TextCall(a, x, y, text, fg, bg));
      }
    case ClippedText(a, x, y, text, fg, bg, clip, accepted) =>
      DrawClippedText(batch, f, a, x, y, text, fg, bg, clip, accepted);
    case Present(a) => batch.Barrier(PresentCall(a));
    case BlitSurface(a, surface, dest, clip, accepted) => DrawSurface(batch, f, a, surface, dest, clip, accepted);
  }

  /** Any program of drawing operations leaves the log that drawing without a batcher would. */
  method DrawAll(batch: RectBatch, f: Font, ops: seq<DrawOp>)
    requires batch.Valid() && FontOk(f) && forall i :: 0 <= i < |ops| ==> OpOk(ops[i])
    modifies batch, batch.rects, batch.kernel
    ensures batch.Valid() && batch.Drawn() == old(batch.Drawn()) + Unbatched(f, ops)
    ensures ops != [] && ops[|ops| - 1].Present? ==>
              batch.kernel.trace == old(batch.Drawn()) + Unbatched(f, ops)
  {
    NoMore(batch.Drawn());
    assert Unbatched(f, ops[..0]) == [];
    for i := 0 to |ops|
      invariant batch.Valid() && batch.Drawn() == old(batch.Drawn()) + Unbatched(f, ops[..i])
      invariant i > 0 && ops[i - 1].Present? ==> batch.count == 0
    {
      UnbatchedStep(f, ops, i);
      Regroup(old(batch.Drawn()), Unbatched(f, ops[..i]), Immediate(f, ops[i]));
      Draw(batch, f, ops[i]);
    }
    assert ops[..|ops|] == ops;
  }
}
