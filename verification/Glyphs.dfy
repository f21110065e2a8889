/** Clipped text: the per-character fallback, against the pixels of the text that lie in the clip. */
module Glyphs {
  import opened Basics
  import opened Machine
  import opened Rect
  import opened Batch

  const CELL: int := 8

  /** For each character from ' ' to '~' eight rows of eight pixels: the bytes of the table, highest bit first. */
  type Font = seq<seq<seq<bool>>>

  predicate FontOk(f: Font) {
    |f| == 95 && forall i :: 0 <= i < 95 ==> |f[i]| == CELL && forall row :: 0 <= row < CELL ==> |f[i][row]| == CELL
  }

  /** A row of a character's glyph; characters outside the table look like blanks. */
  function GlyphRow(f: Font, ch: char, row: int): (bits: seq<bool>)
    requires FontOk(f) && 0 <= row < CELL
    ensures |bits| == CELL
  {
    f[if ' ' <= ch <= '~' then ch as int - 32 else 0][row]
  }

  // ----- the meaning of text: one cell per character, to the right

  /** Where character i of a text at x starts. */
  function Column(x: int, i: int): int { x + i * CELL }

  function CellAt(x: int, y: int): Rect { Rect(x, y, CELL, CELL) }

  function CellShade(f: Font, x: int, y: int, ch: char, fg: int, bg: int, px: int, py: int): Option<int>
    requires FontOk(f)
  {
    if !Contains(Rect(x, y, 8, 8), px, py) then None
    else if f[if ' ' <= ch <= '~' then ch as int - ' ' as int else 0][py - y][px - x] then Some(fg) else Some(bg)
  }

  /** The colour a text gives a pixel, if it covers it: that of the cell the pixel lies in. */
  function TextShade(f: Font, x: int, y: int, text: string, fg: int, bg: int, px: int, py: int): Option<int>
    requires FontOk(f)
  {
    var i := (px - x) / 8;
    if 0 <= i < |text| then CellShade(f, x + 8 * i, y, text[i], fg, bg, px, py) else None
  }

  /** The colour a request gives a pixel; the other requests do not occur in clipped text. */
  function Shade(f: Font, c: Call, px: int, py: int): Option<int>
    requires FontOk(f)
  {
    match c
    case RectCall(_, r) => if Paints(r, px, py) then Some(r.color) else None
    case TextCall(_, x, y, text, fg, bg) => TextShade(f, x, y, text, fg, bg, px, py)
    case _ => None
  }

  /** The last request over a pixel decides. */
  function Shades(f: Font, cs: seq<Call>, px: int, py: int): Option<int>
    requires FontOk(f)
  {
    if cs == [] then None
    else
      var later := Shades(f, cs[1..], px, py);
      if later.Some? then later else Shade(f, cs[0], px, py)
  }

  lemma {:induction false} ShadesAppend(f: Font, a: seq<Call>, b: seq<Call>, px: int, py: int)
    requires FontOk(f)
    ensures Shades(f, a + b, px, py) ==
            if Shades(f, b, px, py).Some? then Shades(f, b, px, py) else Shades(f, a, px, py)
    decreases |a|
  {
    if a == [] {
      assert a + b == b;
    } else {
      assert (a + b)[1..] == a[1..] + b;
      ShadesAppend(f, a[1..], b, px, py);
    }
  }

  // ----- one partly visible cell: a background rectangle, then runs of set bits row by row

  /** Which pixels of a glyph row are set and lie between the sides of the visible part. */
  function LitRow(bits: seq<bool>, x: int, draw: Rect): (lit: seq<bool>)
    ensures |lit| == |bits|
  {
    seq(|bits|, col requires 0 <= col < |bits| => bits[col] && draw.x <= x + col < draw.x + draw.w)
  }

  function SkipDark(lit: seq<bool>, col: int): (c: int)
    requires 0 <= col <= |lit|
    ensures col <= c <= |lit| && (c < |lit| ==> lit[c])
    ensures forall k :: col <= k < c ==> !lit[k]
    decreases |lit| - col
  {
    if col == |lit| || lit[col] then col else SkipDark(lit, col + 1)
  }

  function LitEnd(lit: seq<bool>, col: int): (c: int)
    requires 0 <= col <= |lit|
    ensures col <= c <= |lit| && (c < |lit| ==> !lit[c])
    ensures forall k :: col <= k < c ==> lit[k]
    ensures col < |lit| && lit[col] ==> col < c
    decreases |lit| - col
  {
    if col == |lit| || !lit[col] then col else LitEnd(lit, col + 1)
  }

  function RowFills(lit: seq<bool>, x: int, py: int, fg: int, col: int): seq<GfxRect>
    requires 0 <= col <= |lit|
    decreases |lit| - col
  {
    var start := SkipDark(lit, col);
    if start == |lit| then []
    else
      var end := LitEnd(lit, start);
      [GfxRect(x + start, py, end - start, 1, fg)] + RowFills(lit, x, py, fg, end)
  }

  predicate RowVisible(y: int, row: int, draw: Rect) { draw.y <= y + row < draw.y + draw.h }

  /** What one row of the glyph adds. */
  function VisibleRow(f: Font, x: int, y: int, ch: char, fg: int, draw: Rect, row: int): seq<GfxRect>
    requires FontOk(f) && 0 <= row < CELL
  {
    if RowVisible(y, row, draw) then RowFills(LitRow(GlyphRow(f, ch, row), x, draw), x, y + row, fg, 0) else []
  }

  function RowsFills(f: Font, x: int, y: int, ch: char, fg: int, draw: Rect, row: int): seq<GfxRect>
    requires FontOk(f) && 0 <= row <= CELL
    decreases CELL - row, f
  {
    if row == CELL then []
    else VisibleRow(f, x, y, ch, fg, draw, row) + RowsFills(f, x, y, ch, fg, draw, row + 1)
  }

  function CellFills(f: Font, x: int, y: int, ch: char, fg: int, bg: int, clip: Rect): seq<GfxRect>
    requires FontOk(f)
  {
    var draw := Intersect(CellAt(x, y), clip);
    if IsEmpty(draw) then []
    else [GfxRect(draw.x, draw.y, draw.w, draw.h, bg)] + RowsFills(f, x, y, ch, fg, draw, 0)
  }

  lemma TaggedSplit(api: int, a: seq<GfxRect>, b: seq<GfxRect>)
    ensures Tagged(api, a + b) == Tagged(api, a) + Tagged(api, b)
  {
  }

  lemma ShadeOfOne(f: Font, c: Call, px: int, py: int)
    requires FontOk(f)
    ensures Shades(f, [c], px, py) == Shade(f, c, px, py)
  {
    assert [c][1..] == [];
  }

  /** The runs of a row cover exactly its lit pixels. */
  lemma {:induction false} RowShade(f: Font, api: int, lit: seq<bool>, x: int, y: int, fg: int, col: int,
                                    px: int, py: int)
    requires FontOk(f) && 0 <= col <= |lit|
    ensures Shades(f, Tagged(api, RowFills(lit, x, y, fg, col)), px, py) ==
            if py == y && col <= px - x < |lit| && lit[px - x] then Some(fg) else None
    decreases |lit| - col
  {
    var start := SkipDark(lit, col);
    if start < |lit| {
      var end := LitEnd(lit, start);
      var run := GfxRect(x + start, y, end - start, 1, fg);
      var rest := RowFills(lit, x, y, fg, end);
      RowShade(f, api, lit, x, y, fg, end, px, py);
      TaggedSplit(api, [run], rest);
      assert Tagged(api, [run]) == [RectCall(api, run)];
      ShadesAppend(f, [RectCall(api, run)], Tagged(api, rest), px, py);
      ShadeOfOne(f, RectCall(api, run), px, py);
    }
  }

  /** Whether the rows from `row` on cover a pixel. */
  predicate Inked(f: Font, x: int, y: int, ch: char, draw: Rect, row: int, px: int, py: int)
    requires FontOk(f) && 0 <= row
  {
    && row <= py - y < CELL && RowVisible(y, py - y, draw)
    && 0 <= px - x < CELL && LitRow(GlyphRow(f, ch, py - y), x, draw)[px - x]
  }

  lemma VisibleRowShade(f: Font, api: int, x: int, y: int, ch: char, fg: int, draw: Rect, row: int, px: int, py: int)
    requires FontOk(f) && 0 <= row < CELL
    ensures Shades(f, Tagged(api, VisibleRow(f, x, y, ch, fg, draw, row)), px, py) ==
            if py - y == row && Inked(f, x, y, ch, draw, row, px, py) then Some(fg) else None
  {
    RowShade(f, api, LitRow(GlyphRow(f, ch, row), x, draw), x, y + row, fg, 0, px, py);
  }

  lemma {:induction false} RowsShade(f: Font, api: int, x: int, y: int, ch: char, fg: int, draw: Rect, row: int,
                                     px: int, py: int)
    requires FontOk(f) && 0 <= row <= CELL
    ensures Shades(f, Tagged(api, RowsFills(f, x, y, ch, fg, draw, row)), px, py) ==
            if Inked(f, x, y, ch, draw, row, px, py) then Some(fg) else None
    decreases CELL - row
  {
    if row < CELL {
      var here, rest := VisibleRow(f, x, y, ch, fg, draw, row), RowsFills(f, x, y, ch, fg, draw, row + 1);
      RowsShade(f, api, x, y, ch, fg, draw, row + 1, px, py);
      VisibleRowShade(f, api, x, y, ch, fg, draw, row, px, py);
      TaggedSplit(api, here, rest);
      ShadesAppend(f, Tagged(api, here), Tagged(api, rest), px, py);
    }
  }

  lemma InkIsGlyph(f: Font, x: int, y: int, ch: char, draw: Rect, px: int, py: int)
    requires FontOk(f) && (Contains(draw, px, py) ==> Contains(CellAt(x, y), px, py))
    ensures Inked(f, x, y, ch, draw, 0, px, py) <==>
            Contains(draw, px, py) && CellShade(f, x, y, ch, 1, 0, px, py) == Some(1)
  {
  }

  /** A partly visible cell is painted pixel for pixel as the whole cell, inside the clip and nowhere else. */
  lemma CellIsExact(f: Font, api: int, x: int, y: int, ch: char, fg: int, bg: int, clip: Rect, px: int, py: int)
    requires FontOk(f)
    ensures Shades(f, Tagged(api, CellFills(f, x, y, ch, fg, bg, clip)), px, py) ==
            if Contains(clip, px, py) then CellShade(f, x, y, ch, fg, bg, px, py) else None
  {
    var draw := Intersect(CellAt(x, y), clip);
    if IsEmpty(draw) {
      assert !Contains(draw, px, py);
    } else {
      var back := GfxRect(draw.x, draw.y, draw.w, draw.h, bg);
      var rows := RowsFills(f, x, y, ch, fg, draw, 0);
      RowsShade(f, api, x, y, ch, fg, draw, 0, px, py);
      InkIsGlyph(f, x, y, ch, draw, px, py);
      TaggedSplit(api, [back], rows);
      assert Tagged(api, [back]) == [RectCall(api, back)];
      ShadesAppend(f, [RectCall(api, back)], Tagged(api, rows), px, py);
      ShadeOfOne(f, RectCall(api, back), px, py);
      assert Contains(draw, px, py) <==> Paints(back, px, py);
    }
  }

  // ----- the whole text

  /** What the fallback asks for one character: nothing, its visible part, or the character itself. */
  function CharCalls(f: Font, api: int, x: int, y: int, ch: char, fg: int, bg: int, clip: Rect): seq<Call>
    requires FontOk(f)
  {
    if IsEmpty(Intersect(CellAt(x, y), clip)) then []
    else if !ContainsRect(clip, CellAt(x, y)) then Tagged(api, CellFills(f, x, y, ch, fg, bg, clip))
    else [TextCall(api, x, y, [ch], fg, bg)]
  }

  function AllCharCalls(f: Font, api: int, x: int, y: int, text: string, fg: int, bg: int, clip: Rect)
    : (cs: seq<seq<Call>>)
    requires FontOk(f)
    ensures |cs| == |text|
  {
    seq(|text|, i requires 0 <= i < |text| => CharCalls(f, api, Column(x, i), y, text[i], fg, bg, clip))
  }

  function TextFallback(f: Font, api: int, x: int, y: int, text: string, fg: int, bg: int, clip: Rect): seq<Call>
    requires FontOk(f)
  {
    Joined(AllCharCalls(f, api, x, y, text, fg, bg, clip), 0)
  }

  /** The requests shade the pixel as the character's cell does, or not at all when it is not inside. */
  predicate ShadeAsCell(f: Font, cs: seq<Call>, x: int, y: int, ch: char, fg: int, bg: int, inside: bool,
                        px: int, py: int)
    requires FontOk(f)
  {
    Shades(f, cs, px, py) == if inside then CellShade(f, x, y, ch, fg, bg, px, py) else None
  }

  lemma CharIsExact(f: Font, api: int, x: int, y: int, ch: char, fg: int, bg: int, clip: Rect, px: int, py: int)
    requires FontOk(f)
    ensures ShadeAsCell(f, CharCalls(f, api, x, y, ch, fg, bg, clip), x, y, ch, fg, bg, Contains(clip, px, py), px, py)
  {
    if IsEmpty(Intersect(CellAt(x, y), clip)) {
      assert !Contains(Intersect(CellAt(x, y), clip), px, py);
    } else if !ContainsRect(clip, CellAt(x, y)) {
      CellIsExact(f, api, x, y, ch, fg, bg, clip, px, py);
    } else {
      ContainsRectIsInclusion(clip, CellAt(x, y));
      ShadeOfOne(f, TextCall(api, x, y, [ch], fg, bg), px, py);
      assert Contains(CellAt(x, y), px, py) ==> Contains(clip, px, py);
    }
  }

  /** Character i decides exactly the pixels of its own cell. */
  lemma CellOfText(f: Font, x: int, y: int, text: string, fg: int, bg: int, i: int, px: int, py: int)
    requires FontOk(f) && 0 <= i < |text|
    ensures CellShade(f, Column(x, i), y, text[i], fg, bg, px, py) ==
            if Column(x, i) <= px < Column(x, i + 1) then TextShade(f, x, y, text, fg, bg, px, py) else None
  {
    if Column(x, i) <= px < Column(x, i + 1) {
      assert (px - x) / CELL == i;
    }
  }

  /** Requests cs[k] that shade a pixel as character k's cell, together shade it as the text. */
  lemma {:induction false} CellsMakeText(f: Font, cs: seq<seq<Call>>, x: int, y: int, text: string, fg: int, bg: int,
                                         inside: bool, i: int, px: int, py: int)
    requires FontOk(f) && 0 <= i <= |text| == |cs|
    requires forall k :: 0 <= k < |cs| ==> ShadeAsCell(f, cs[k], Column(x, k), y, text[k], fg, bg, inside, px, py)
    ensures Shades(f, Joined(cs, i), px, py) ==
            if inside && Column(x, i) <= px then TextShade(f, x, y, text, fg, bg, px, py) else None
    decreases |text| - i
  {
    if i < |text| {
      CellsMakeText(f, cs, x, y, text, fg, bg, inside, i + 1, px, py);
      assert ShadeAsCell(f, cs[i], Column(x, i), y, text[i], fg, bg, inside, px, py);
      ShadesAppend(f, cs[i], Joined(cs, i + 1), px, py);
      CellOfText(f, x, y, text, fg, bg, i, px, py);
    }
  }

  lemma CharOfText(f: Font, api: int, x: int, y: int, text: string, fg: int, bg: int, clip: Rect, k: int,
                   calls: seq<Call>, px: int, py: int)
    requires FontOk(f) && 0 <= k < |text| && calls == AllCharCalls(f, api, x, y, text, fg, bg, clip)[k]
    ensures ShadeAsCell(f, calls, Column(x, k), y, text[k], fg, bg, Contains(clip, px, py), px, py)
  {
    assert calls == CharCalls(f, api, Column(x, k), y, text[k], fg, bg, clip);
    CharIsExact(f, api, Column(x, k), y, text[k], fg, bg, clip, px, py);
  }

  /** The fallback paints exactly the pixels of the text that lie in the clip, each with the text's colour. */
  lemma TextFallbackIsExact(f: Font, api: int, x: int, y: int, text: string, fg: int, bg: int, clip: Rect,
                            px: int, py: int)
    requires FontOk(f)
    ensures Shades(f, TextFallback(f, api, x, y, text, fg, bg, clip), px, py) ==
            if Contains(clip, px, py) then TextShade(f, x, y, text, fg, bg, px, py) else None
  {
    var cs := AllCharCalls(f, api, x, y, text, fg, bg, clip);
    forall k | 0 <= k < |cs|
      ensures ShadeAsCell(f, cs[k], Column(x, k), y, text[k], fg, bg, Contains(clip, px, py), px, py)
    {
      CharOfText(f, api, x, y, text, fg, bg, clip, k, cs[k], px, py);
    }
    CellsMakeText(f, cs, x, y, text, fg, bg, Contains(clip, px, py), 0, px, py);
  }

  // ----- the code

  /** The rectangle of the next run from `col` on, if there is one. */
  function NextFill(lit: seq<bool>, x: int, py: int, fg: int, col: int): seq<GfxRect>
    requires 0 <= col <= |lit|
  {
    var start := SkipDark(lit, col);
    if start == |lit| then [] else [GfxRect(x + start, py, LitEnd(lit, start) - start, 1, fg)]
  }

  lemma FillStep(api: int, before: seq<Call>, lit: seq<bool>, x: int, py: int, fg: int, col: int)
    requires 0 <= col <= |lit|
    ensures before + Tagged(api, RowFills(lit, x, py, fg, col)) ==
            (before + Tagged(api, NextFill(lit, x, py, fg, col))) +
            Tagged(api, RowFills(lit, x, py, fg, LitEnd(lit, SkipDark(lit, col))))
  {
    var rest := RowFills(lit, x, py, fg, LitEnd(lit, SkipDark(lit, col)));
    assert RowFills(lit, x, py, fg, col) == NextFill(lit, x, py, fg, col) + rest;
    TaggedSplit(api, NextFill(lit, x, py, fg, col), rest);
  }

  /** The next run of set, visible bits from `from` on: [start, end), empty at the end of the row. */
  method NextRun(bits: seq<bool>, x: int, draw: Rect, from: int) returns (start: int, end: int)
    requires |bits| == CELL && 0 <= from < CELL
    ensures var lit := LitRow(bits, x, draw);
            start == SkipDark(lit, from) && end == LitEnd(lit, start)
  {
    ghost var lit := LitRow(bits, x, draw);
    start := from;
    while start < CELL && (!bits[start] || x + start < draw.x || x + start >= draw.x + draw.w)
      invariant from <= start <= CELL
      invariant SkipDark(lit, from) == SkipDark(lit, start)
    {
      assert !lit[start];
      start := start + 1;
    }
    end := start;
    while end < CELL && bits[end] && x + end >= draw.x && x + end < draw.x + draw.w
      invariant start <= end <= CELL
      invariant LitEnd(lit, start) == LitEnd(lit, end)
    {
      assert lit[end];
      end := end + 1;
    }
    assert end < CELL ==> !lit[end];
  }

  /** One run of a row: find it and queue it as a rectangle of height one. */
  method PaintRun(batch: RectBatch, api: int, bits: seq<bool>, x: int, py: int, draw: Rect, fg: int, col: int)
    returns (end: int)
    requires batch.Valid() && api != 0 && |bits| == CELL && 0 <= col < CELL
    modifies batch, batch.rects, batch.kernel
    ensures batch.Valid() && end == LitEnd(LitRow(bits, x, draw), SkipDark(LitRow(bits, x, draw), col)) > col
    ensures batch.Drawn() == old(batch.Drawn()) + Tagged(api, NextFill(LitRow(bits, x, draw), x, py, fg, col))
  {
    var start;
    start, end := NextRun(bits, x, draw, col);
    ghost var fill := NextFill(LitRow(bits, x, draw), x, py, fg, col);
    if start < CELL {
      assert Tagged(api, fill) == [RectCall(api, fill[0])];
      batch.FillRect(api, Rect(x + start, py, end - start, 1), fg);
    }
  }

  method PaintRow(batch: RectBatch, api: int, bits: seq<bool>, x: int, py: int, draw: Rect, fg: int)
    requires batch.Valid() && api != 0 && |bits| == CELL
    modifies batch, batch.rects, batch.kernel
    ensures batch.Valid()
    ensures batch.Drawn() == old(batch.Drawn()) + Tagged(api, RowFills(LitRow(bits, x, draw), x, py, fg, 0))
  {
    var col := 0;
    ghost var all := batch.Drawn() + Tagged(api, RowFills(LitRow(bits, x, draw), x, py, fg, 0));
    while col < CELL
      invariant 0 <= col <= CELL && batch.Valid()
      invariant batch.Drawn() + Tagged(api, RowFills(LitRow(bits, x, draw), x, py, fg, col)) == all
      decreases CELL - col
    {
      FillStep(api, batch.Drawn(), LitRow(bits, x, draw), x, py, fg, col);
      col := PaintRun(batch, api, bits, x, py, draw, fg, col);
    }
  }

  method PaintVisibleRow(batch: RectBatch, api: int, f: Font, x: int, y: int, ch: char, fg: int, draw: Rect, row: int)
    requires batch.Valid() && FontOk(f) && api != 0 && 0 <= row < CELL
    modifies batch, batch.rects, batch.kernel
    ensures batch.Valid()
    ensures batch.Drawn() == old(batch.Drawn()) + Tagged(api, VisibleRow(f, x, y, ch, fg, draw, row))
  {
    if RowVisible(y, row, draw) {
      PaintRow(batch, api, GlyphRow(f, ch, row), x, y + row, draw, fg);
    }
  }

  lemma RowsStep(f: Font, api: int, before: seq<Call>, x: int, y: int, ch: char, fg: int, draw: Rect, row: int)
    requires FontOk(f) && 0 <= row < CELL
    ensures before + Tagged(api, RowsFills(f, x, y, ch, fg, draw, row)) ==
            (before + Tagged(api, VisibleRow(f, x, y, ch, fg, draw, row))) +
            Tagged(api, RowsFills(f, x, y, ch, fg, draw, row + 1))
  {
    TaggedSplit(api, VisibleRow(f, x, y, ch, fg, draw, row), RowsFills(f, x, y, ch, fg, draw, row + 1));
  }

  method PaintRows(batch: RectBatch, api: int, f: Font, x: int, y: int, ch: char, fg: int, draw: Rect)
    requires batch.Valid() && FontOk(f) && api != 0
    modifies batch, batch.rects, batch.kernel
    ensures batch.Valid()
    ensures batch.Drawn() == old(batch.Drawn()) + Tagged(api, RowsFills(f, x, y, ch, fg, draw, 0))
  {
    ghost var all := batch.Drawn() + Tagged(api, RowsFills(f, x, y, ch, fg, draw, 0));
    for row := 0 to CELL
      invariant batch.Valid()
      invariant batch.Drawn() + Tagged(api, RowsFills(f, x, y, ch, fg, draw, row)) == all
    {
      RowsStep(f, api, batch.Drawn(), x, y, ch, fg, draw, row);
      PaintVisibleRow(batch, api, f, x, y, ch, fg, draw, row);
    }
  }

  /** ui_draw_char_cell_partially_clipped. */
  method PaintCell(batch: RectBatch, api: int, f: Font, x: int, y: int, ch: char, fg: int, bg: int, clip: Rect)
    requires batch.Valid() && FontOk(f)
    modifies batch, batch.rects, batch.kernel
    ensures batch.Valid()
    ensures batch.Drawn() == if api == 0 then old(batch.Drawn())
                             else old(batch.Drawn()) + Tagged(api, CellFills(f, x, y, ch, fg, bg, clip))
  {
    if api == 0 {
      return;
    }
    var draw := Intersect(CellAt(x, y), clip);
    if IsEmpty(draw) {
      return;
    }
    ghost var back := [GfxRect(draw.x, draw.y, draw.w, draw.h, bg)];
    ghost var rows := RowsFills(f, x, y, ch, fg, draw, 0);
    assert Tagged(api, back) == [RectCall(api, back[0])];
    TaggedSplit(api, back, rows);
    Regroup(batch.Drawn(), Tagged(api, back), Tagged(api, rows));
    batch.FillRect(api, draw, bg);
    PaintRows(batch, api, f, x, y, ch, fg, draw);
  }

  /** One character of a refused text; `rest` is what is left to draw after it. */
  method PaintChar(batch: RectBatch, api: int, f: Font, x: int, y: int, ch: char, fg: int, bg: int, clip: Rect,
                   ghost rest: seq<Call>, ghost all: seq<Call>)
    requires batch.Valid() && FontOk(f) && api != 0
    requires batch.Owes(CharCalls(f, api, x, y, ch, fg, bg, clip) + rest, all)
    modifies batch, batch.rects, batch.kernel
    ensures batch.Valid() && batch.Owes(rest, all)
  {
    var cell := CellAt(x, y);
    Regroup(batch.Drawn(), CharCalls(f, api, x, y, ch, fg, bg, clip), rest);
    NoMore(batch.Drawn());
    if IsEmpty(Intersect(cell, clip)) {
      return;
    }
    if !ContainsRect(clip, cell) {
      PaintCell(batch, api, f, cell.x, cell.y, ch, fg, bg, clip);
      return;
    }
    batch.Barrier(TextCall(api, cell.x, cell.y, [ch], fg, bg));
  }

  /** The loop of ui_draw_text_clipped over the characters, when the request was refused. */
  method PaintText(batch: RectBatch, api: int, f: Font, x: int, y: int, text: string, fg: int, bg: int, clip: Rect)
    requires batch.Valid() && FontOk(f) && api != 0
    modifies batch, batch.rects, batch.kernel
    ensures batch.Valid()
    ensures batch.Drawn() == old(batch.Drawn()) + TextFallback(f, api, x, y, text, fg, bg, clip)
  {
    ghost var cs := AllCharCalls(f, api, x, y, text, fg, bg, clip);
    ghost var all := batch.Drawn() + Joined(cs, 0);
    assert batch.Owes(Joined(cs, 0), all);
    for i := 0 to |text|
      invariant batch.Valid() && batch.Owes(Joined(cs, i), all)
    {
      PaintChar(batch, api, f, Column(x, i), y, text[i], fg, bg, clip, Joined(cs, i + 1), all);
    }
    NoMore(batch.Drawn());
  }
}
