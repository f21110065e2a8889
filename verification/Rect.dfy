/** The rectangle algebra of the UI runtime, stated on the sets of points the rectangles cover. */
module Rect {
  import opened Basics

  datatype Rect = Rect(x: int, y: int, w: int, h: int)

  predicate IsEmpty(r: Rect) { r.w <= 0 || r.h <= 0 }

  predicate Contains(r: Rect, px: int, py: int) {
    px >= r.x && py >= r.y && px < r.x + r.w && py < r.y + r.h
  }

  predicate ContainsRect(outer: Rect, inner: Rect) {
    && !IsEmpty(inner)
    && inner.x >= outer.x && inner.y >= outer.y
    && inner.x + inner.w <= outer.x + outer.w
    && inner.y + inner.h <= outer.y + outer.h
  }

  /** Intersection is intersection of point sets, for empty and negative sizes too. */
  function Intersect(a: Rect, b: Rect): (r: Rect)
    ensures forall px, py :: Contains(r, px, py) <==> Contains(a, px, py) && Contains(b, px, py)
    ensures r.w >= 0 && r.h >= 0
  {
    var x, y := Max(a.x, b.x), Max(a.y, b.y);
    var x2, y2 := Min(a.x + a.w, b.x + b.w), Min(a.y + a.h, b.y + b.h);
    if x2 <= x || y2 <= y then Rect(0, 0, 0, 0) else Rect(x, y, x2 - x, y2 - y)
  }

  /** The union is the least rectangle around both. */
  function Union(a: Rect, b: Rect): (r: Rect)
    ensures forall px, py :: Contains(a, px, py) || Contains(b, px, py) ==> Contains(r, px, py)
    ensures !IsEmpty(a) ==> ContainsRect(r, a)
    ensures !IsEmpty(b) ==> ContainsRect(r, b)
    ensures forall box :: ContainsRect(box, a) && ContainsRect(box, b) ==> ContainsRect(box, r)
  {
    if IsEmpty(a) then b
    else if IsEmpty(b) then a
    else
      var x, y := Min(a.x, b.x), Min(a.y, b.y);
      Rect(x, y, Max(a.x + a.w, b.x + b.w) - x, Max(a.y + a.h, b.y + b.h) - y)
  }

  /** ui_rect_contains_rect decides inclusion of point sets (for a non-empty inner rectangle). */
  lemma ContainsRectIsInclusion(outer: Rect, inner: Rect)
    requires !IsEmpty(inner)
    ensures ContainsRect(outer, inner) <==>
            forall px, py :: Contains(inner, px, py) ==> Contains(outer, px, py)
  {
    if forall px, py :: Contains(inner, px, py) ==> Contains(outer, px, py) {
      assert Contains(inner, inner.x, inner.y);
      assert Contains(inner, inner.x + inner.w - 1, inner.y + inner.h - 1);
    }
  }

  // ----- subtraction

  /** The strips of `rect` around its overlap with `cutout`: above, below, left, right. */
  function Strips(rect: Rect, o: Rect): seq<Rect> {
    (if o.y > rect.y then [Rect(rect.x, rect.y, rect.w, o.y - rect.y)] else [])
    + (if o.y + o.h < rect.y + rect.h then [Rect(rect.x, o.y + o.h, rect.w, rect.y + rect.h - (o.y + o.h))] else [])
    + (if o.x > rect.x then [Rect(rect.x, o.y, o.x - rect.x, o.h)] else [])
    + (if o.x + o.w < rect.x + rect.w then [Rect(o.x + o.w, o.y, rect.x + rect.w - (o.x + o.w), o.h)] else [])
  }

  function Pieces(rect: Rect, cutout: Rect): seq<Rect> {
    if IsEmpty(rect) then []
    else if IsEmpty(Intersect(rect, cutout)) then [rect]
    else Strips(rect, Intersect(rect, cutout))
  }

  predicate Covers(rs: seq<Rect>, px: int, py: int) {
    exists i :: 0 <= i < |rs| && Contains(rs[i], px, py)
  }

  predicate Disjoint(a: Rect, b: Rect) { IsEmpty(Intersect(a, b)) }

  lemma CoversAppend(a: seq<Rect>, b: seq<Rect>, px: int, py: int)
    ensures Covers(a + b, px, py) <==> Covers(a, px, py) || Covers(b, px, py)
  {
    if Covers(a, px, py) {
      var i :| 0 <= i < |a| && Contains(a[i], px, py);
      assert (a + b)[i] == a[i];
    }
    if Covers(b, px, py) {
      var i :| 0 <= i < |b| && Contains(b[i], px, py);
      assert (a + b)[|a| + i] == b[i];
    }
  }

  lemma CoversOne(r: Rect, px: int, py: int)
    ensures Covers([r], px, py) <==> Contains(r, px, py)
    ensures !Covers([], px, py)
  {
    assert [r][0] == r;
  }

  /** Subtraction is exact: the pieces cover the points of rect outside cutout and nothing else. */
  lemma PiecesCover(rect: Rect, cutout: Rect, px: int, py: int)
    ensures Covers(Pieces(rect, cutout), px, py) <==> Contains(rect, px, py) && !Contains(cutout, px, py)
  {
    var o := Intersect(rect, cutout);
    assert Contains(o, px, py) <==> Contains(rect, px, py) && Contains(cutout, px, py);
    CoversOne(rect, px, py);
    if !IsEmpty(rect) && !IsEmpty(o) {
      StripsCover(rect, o, px, py);
    }
  }

  lemma StripsCover(rect: Rect, o: Rect, px: int, py: int)
    requires ContainsRect(rect, o)
    ensures Covers(Strips(rect, o), px, py) <==> Contains(rect, px, py) && !Contains(o, px, py)
  {
    var above, below := Rect(rect.x, rect.y, rect.w, o.y - rect.y),
                        Rect(rect.x, o.y + o.h, rect.w, rect.y + rect.h - (o.y + o.h));
    var left, right := Rect(rect.x, o.y, o.x - rect.x, o.h),
                       Rect(o.x + o.w, o.y, rect.x + rect.w - (o.x + o.w), o.h);
    var a := if o.y > rect.y then [above] else [];
    var b := if o.y + o.h < rect.y + rect.h then [below] else [];
    var c := if o.x > rect.x then [left] else [];
    var d := if o.x + o.w < rect.x + rect.w then [right] else [];
    CoversOne(above, px, py);
    CoversOne(below, px, py);
    CoversOne(left, px, py);
    CoversOne(right, px, py);
    CoversAppend(a, b, px, py);
    CoversAppend(a + b, c, px, py);
    CoversAppend(a + b + c, d, px, py);
  }

  /** The pieces are at most four, none is empty, and no two overlap. */
  lemma PiecesDisjoint(rect: Rect, cutout: Rect)
    ensures var ps := Pieces(rect, cutout);
            && |ps| <= 4
            && (forall i :: 0 <= i < |ps| ==> !IsEmpty(ps[i]))
            && (forall i, j :: 0 <= i < j < |ps| ==> Disjoint(ps[i], ps[j]))
  {
  }

  /** ui_rect_subtract writes the pieces in order until the output array is full. */
  method Subtract(rect: Rect, cutout: Rect, out: array<Rect>, maxRects: int) returns (count: int)
    requires maxRects <= out.Length
    modifies out
    ensures count == Min(|Pieces(rect, cutout)|, Max(maxRects, 0))
    ensures out[..count] == Pieces(rect, cutout)[..count]
    ensures forall i :: count <= i < out.Length ==> out[i] == old(out[i])
  {
    count := 0;
    if maxRects <= 0 || IsEmpty(rect) {
      return;
    }
    var o := Intersect(rect, cutout);
    if IsEmpty(o) {
      out[0] := rect;
      return 1;
    }
    var right, bottom := rect.x + rect.w, rect.y + rect.h;
    var oRight, oBottom := o.x + o.w, o.y + o.h;
    if o.y > rect.y && count < maxRects {
      out[count] := Rect(rect.x, rect.y, rect.w, o.y - rect.y);
      count := count + 1;
    }
    if oBottom < bottom && count < maxRects {
      out[count] := Rect(rect.x, oBottom, rect.w, bottom - oBottom);
      count := count + 1;
    }
    if o.x > rect.x && count < maxRects {
      out[count] := Rect(rect.x, o.y, o.x - rect.x, o.h);
      count := count + 1;
    }
    if oRight < right && count < maxRects {
      out[count] := Rect(oRight, o.y, right - oRight, o.h);
      count := count + 1;
    }
  }

  /** A truncated subtraction is exact exactly when nothing was dropped. */
  lemma TruncationLosesPoints(rect: Rect, cutout: Rect, n: int)
    requires 0 <= n <= |Pieces(rect, cutout)|
    ensures (forall px, py :: Contains(rect, px, py) && !Contains(cutout, px, py) ==>
               Covers(Pieces(rect, cutout)[..n], px, py))
            <==> n == |Pieces(rect, cutout)|
  {
    var ps := Pieces(rect, cutout);
    PiecesDisjoint(rect, cutout);
    if n == |ps| {
      assert ps[..n] == ps;
      forall px, py | Contains(rect, px, py) && !Contains(cutout, px, py)
        ensures Covers(ps[..n], px, py)
      {
        PiecesCover(rect, cutout, px, py);
      }
    } else {
      var lost := ps[n];
      assert Contains(lost, lost.x, lost.y);
      assert Covers(ps, lost.x, lost.y);
      PiecesCover(rect, cutout, lost.x, lost.y);
      forall i | 0 <= i < n
        ensures !Contains(ps[..n][i], lost.x, lost.y)
      {
        SharedPoint(ps[i], lost, lost.x, lost.y);
      }
    }
  }

  lemma SharedPoint(a: Rect, b: Rect, px: int, py: int)
    ensures Contains(a, px, py) && Contains(b, px, py) ==> !Disjoint(a, b)
  {
    assert Contains(Intersect(a, b), px, py) <==> Contains(a, px, py) && Contains(b, px, py);
  }

  // ----- the dirty list

  const DIRTY_MAX: int := 8

  /** The list never forgets: each rectangle ever added lies inside one entry. */
  ghost predicate Remembers(list: seq<Rect>, r: Rect) {
    exists i :: 0 <= i < |list| && ContainsRect(list[i], r)
  }

  ghost predicate ListOk(list: seq<Rect>) {
    |list| <= 8 && forall i :: 0 <= i < |list| ==> !IsEmpty(list[i])
  }

  ghost predicate Inside(list: seq<Rect>, box: Rect) {
    forall i :: 0 <= i < |list| ==> ContainsRect(box, list[i])
  }

  /** What an add may do to the list: extend it, keep every old entry covered, cover the new rectangle. */
  ghost predicate Absorbs(before: seq<Rect>, after: seq<Rect>, r: Rect) {
    && ListOk(after)
    && Remembers(after, r)
    && (forall i :: 0 <= i < |before| ==> Remembers(after, before[i]))
    && (forall box :: Inside(before, box) && ContainsRect(box, r) ==> Inside(after, box))
  }

  lemma ContainsRectTransitive(a: Rect, b: Rect, c: Rect)
    requires ContainsRect(a, b) && ContainsRect(b, c)
    ensures ContainsRect(a, c)
  {
  }

  lemma Replaced(before: seq<Rect>, i: int, r: Rect)
    requires ListOk(before) && 0 <= i < |before| && ContainsRect(r, before[i]) && !IsEmpty(r)
    ensures Absorbs(before, before[i := r], r)
  {
    var after := before[i := r];
    assert ContainsRect(after[i], r);
    forall j | 0 <= j < |before|
      ensures Remembers(after, before[j])
    {
      assert ContainsRect(after[j], before[j]);
    }
  }

  lemma Appended(before: seq<Rect>, r: Rect)
    requires ListOk(before) && |before| < DIRTY_MAX && !IsEmpty(r)
    ensures Absorbs(before, before + [r], r)
  {
    var after := before + [r];
    assert ContainsRect(after[|before|], r);
    forall j | 0 <= j < |before|
      ensures Remembers(after, before[j])
    {
      assert ContainsRect(after[j], before[j]);
    }
  }

  lemma Merged(before: seq<Rect>, r: Rect)
    requires ListOk(before) && before != [] && !IsEmpty(r)
    ensures Absorbs(before, before[|before| - 1 := Union(before[|before| - 1], r)], r)
  {
    var last := |before| - 1;
    var after := before[last := Union(before[last], r)];
    assert ContainsRect(after[last], r);
    forall j | 0 <= j < |before|
      ensures Remembers(after, before[j])
    {
      assert ContainsRect(after[j], before[j]);
    }
  }

  /** The scan of ui_dirty_list_add from entry i on. */
  function AddFrom(list: seq<Rect>, r: Rect, i: int): seq<Rect>
    requires 0 <= i <= |list|
    decreases |list| - i
  {
    if i == |list| then
      if |list| < DIRTY_MAX then list + [r] else list[|list| - 1 := Union(list[|list| - 1], r)]
    else if ContainsRect(list[i], r) then list
    else if ContainsRect(r, list[i]) then list[i := r]
    else AddFrom(list, r, i + 1)
  }

  function AddRect(list: seq<Rect>, r: Rect): seq<Rect> {
    if IsEmpty(r) then list else AddFrom(list, r, 0)
  }

  function AddAll(list: seq<Rect>, rs: seq<Rect>): seq<Rect>
    decreases |rs|
  {
    if rs == [] then list else AddAll(AddRect(list, rs[0]), rs[1..])
  }

  lemma {:induction false} AddFromAbsorbs(list: seq<Rect>, r: Rect, i: int)
    requires ListOk(list) && !IsEmpty(r) && 0 <= i <= |list|
    ensures Absorbs(list, AddFrom(list, r, i), r)
    decreases |list| - i
  {
    if i == |list| {
      if |list| < DIRTY_MAX { Appended(list, r); } else { Merged(list, r); }
    } else if ContainsRect(list[i], r) {
      forall j | 0 <= j < |list| ensures Remembers(list, list[j]) { assert ContainsRect(list[j], list[j]); }
    } else if ContainsRect(r, list[i]) {
      Replaced(list, i, r);
    } else {
      AddFromAbsorbs(list, r, i + 1);
    }
  }

  /** One of the two rectangles lies inside the other. */
  predicate Nested(a: Rect, b: Rect) { ContainsRect(a, b) || ContainsRect(b, a) }

  /**
   The first entry nested with the new rectangle decides: it stays if it is the outer one and is replaced if it is
   the inner one.  Without such an entry the rectangle is appended, or, in a full list, merged into the last entry.
   */
  lemma {:induction false} AddIs(list: seq<Rect>, r: Rect, i: int, k: int)
    requires ListOk(list) && !IsEmpty(r) && 0 <= i <= k <= |list|
    requires (forall j :: i <= j < k ==> !Nested(list[j], r)) && (k < |list| ==> Nested(list[k], r))
    ensures AddFrom(list, r, i) ==
            if k < |list| then (if ContainsRect(list[k], r) then list else list[k := r])
            else if |list| < 8 then list + [r]
            else list[7 := Union(list[7], r)]
    decreases |list| - i
  {
    if i < k {
      AddIs(list, r, i + 1, k);
    }
  }

  lemma AddAbsorbs(list: seq<Rect>, r: Rect)
    requires ListOk(list)
    ensures ListOk(AddRect(list, r))
    ensures !IsEmpty(r) ==> Absorbs(list, AddRect(list, r), r)
  {
    if !IsEmpty(r) {
      AddFromAbsorbs(list, r, 0);
    }
  }

  class DirtyList {
    const rects: array<Rect>
    var count: int

    ghost predicate Valid()
      reads this, rects
    {
      rects.Length == DIRTY_MAX && 0 <= count <= DIRTY_MAX && ListOk(rects[..count])
    }

    ghost function Entries(): seq<Rect>
      requires Valid()
      reads this, rects
    {
      rects[..count]
    }

    constructor ()
      ensures Valid() && fresh(rects) && Entries() == []
    {
      rects := new Rect[DIRTY_MAX](_ => Rect(0, 0, 0, 0));
      count := 0;
    }

    method Add(r: Rect) returns (added: bool)
      requires Valid()
      modifies this, rects
      ensures Valid() && added == !IsEmpty(r) && Entries() == AddRect(old(Entries()), r)
    {
      if IsEmpty(r) {
        return false;
      }
      ghost var before := Entries();
      AddAbsorbs(before, r);
      for i := 0 to count
        invariant rects[..count] == before && count == |before|
        invariant AddFrom(before, r, i) == AddFrom(before, r, 0)
      {
        assert before[i] == rects[i];
        if ContainsRect(rects[i], r) {
          return true;
        }
        if ContainsRect(r, rects[i]) {
          rects[i] := r;
          assert rects[..count] == before[i := r];
          return true;
        }
      }
      if count < DIRTY_MAX {
        rects[count] := r;
        count := count + 1;
        assert rects[..count] == before + [r];
        return true;
      }
      rects[count - 1] := Union(rects[count - 1], r);
      assert rects[..count] == before[count - 1 := Union(before[count - 1], r)];
      return true;
    }
  }

  lemma RememberedStaysRemembered(before: seq<Rect>, after: seq<Rect>, r: Rect, s: Rect)
    requires Absorbs(before, after, r) && Remembers(before, s)
    ensures Remembers(after, s)
  {
    var i :| 0 <= i < |before| && ContainsRect(before[i], s);
    assert Remembers(after, before[i]);
    var j :| 0 <= j < |after| && ContainsRect(after[j], before[i]);
    ContainsRectTransitive(after[j], before[i], s);
  }

  /** What is remembered now is still remembered after any further adds. */
  lemma {:induction false} AddsKeepRemembered(list: seq<Rect>, rs: seq<Rect>, s: Rect)
    requires ListOk(list) && Remembers(list, s)
    ensures Remembers(AddAll(list, rs), s)
    decreases |rs|
  {
    if rs != [] {
      AddAbsorbs(list, rs[0]);
      if !IsEmpty(rs[0]) {
        RememberedStaysRemembered(list, AddRect(list, rs[0]), rs[0], s);
      }
      AddsKeepRemembered(AddRect(list, rs[0]), rs[1..], s);
    }
  }

  /**
   After any sequence of adds the list has at most eight entries, none empty, every non-empty rectangle
   added lies inside a single entry, and no entry leaves a box that holds everything added.
   */
  lemma {:induction false} DirtyListCovers(list: seq<Rect>, rs: seq<Rect>, box: Rect)
    requires ListOk(list) && Inside(list, box)
    requires forall r :: r in rs && !IsEmpty(r) ==> ContainsRect(box, r)
    ensures ListOk(AddAll(list, rs)) && Inside(AddAll(list, rs), box)
    ensures forall r :: r in rs && !IsEmpty(r) ==> Remembers(AddAll(list, rs), r)
    decreases |rs|
  {
    if rs != [] {
      AddAbsorbs(list, rs[0]);
      var next := AddRect(list, rs[0]);
      DirtyListCovers(next, rs[1..], box);
      if !IsEmpty(rs[0]) {
        AddsKeepRemembered(next, rs[1..], rs[0]);
      }
      forall r | r in rs && !IsEmpty(r)
        ensures Remembers(AddAll(list, rs), r)
      {
        assert r == rs[0] || r in rs[1..];
      }
    }
  }
}
