/** Scrollbar arithmetic: from value to thumb position and back. */
module Scrollbar {
  import opened Basics
  import opened Rect

  const BUTTON_H: int := 16
  const MIN_THUMB_H: int := 12

  datatype Control = Control(min: int, max: int, page: int, value: int, dragOffset: int)

  /** C division rounds toward zero. */
  function CDiv(a: int, b: int): int
    requires b != 0
  {
    if a >= 0 then a / b else -((-a) / b)
  }

  function Track(r: Rect): Rect { Rect(r.x, r.y + BUTTON_H, r.w, r.h - 2 * BUTTON_H) }

  /** The thumb height is a quotient by range + page, so that sum must not be zero. */
  predicate Divisible(c: Control) { c.page > 0 ==> c.max - c.min + c.page != 0 }

  /** ui_wm_add_scrollbar: the range is made non-empty, the page at least 1, the value clamped. */
  function Add(min: int, max: int, page: int, value: int): (c: Control)
    ensures Divisible(c) && c.min <= c.value <= c.max && c.page >= 1
    ensures min <= value <= max && page >= 1 ==> c == Control(min, max, page, value, 0)
    ensures c.min == min && (max >= min ==> c.max == max) && (max < min ==> c.max == min)
    ensures (page < 1 ==> c.page == 1) && (page >= 1 ==> c.page == page)
    ensures (value < min ==> c.value == min) && (value > c.max ==> c.value == c.max)
  {
    var hi := Max(min, max);
    Control(min, hi, Max(page, 1), Min(Max(value, min), hi), 0)
  }

  function ThumbHeight(trackH: int, c: Control): (h: int)
    requires trackH > 0 && Divisible(c)
    ensures 0 < h <= trackH && (h >= MIN_THUMB_H || h == trackH)
  {
    var raw := if c.page > 0 then CDiv(trackH * c.page, c.max - c.min + c.page) else MIN_THUMB_H;
    Min(Max(raw, MIN_THUMB_H), trackH)
  }

  /** Pixels the thumb can travel, and values it can stand for. */
  function Usable(r: Rect, c: Control): int
    requires Track(r).h > 0 && Divisible(c)
  {
    Track(r).h - ThumbHeight(Track(r).h, c)
  }

  function Range(c: Control): int { c.max - c.min }

  function Position(r: Rect, c: Control): int
    requires Track(r).h > 0 && Divisible(c)
  {
    var usable := Usable(r, c);
    if usable > 0 && Range(c) > 0
    then CDiv((Min(Max(c.value, c.min), c.max) - c.min) * usable, Range(c))
    else 0
  }

  /** ui_scrollbar_thumb_rect. */
  function Thumb(r: Rect, c: Control): Rect
    requires Divisible(c)
  {
    var t := Track(r);
    if t.h <= 0 then Rect(t.x, t.y, t.w, 0)
    else Rect(t.x, t.y + Position(r, c), t.w, ThumbHeight(t.h, c))
  }

  /** ui_wm_scrollbar_value_from_thumb. */
  function ValueFromThumb(r: Rect, c: Control, mouseY: int): int
    requires Divisible(c)
  {
    var t := Track(r);
    var usable := t.h - Thumb(r, c).h;
    if Range(c) <= 0 || usable <= 0 then c.min
    else
      var top := Min(Max(mouseY - c.dragOffset, t.y), t.y + usable);
      c.min + CDiv((top - t.y) * Range(c), usable)
  }

  // ----- quotients

  lemma DivMono(a: int, b: int, d: int)
    requires a <= b && d > 0
    ensures a / d <= b / d
  {
    if a / d > b / d {
      MulMono(b / d + 1, a / d, d);
    }
  }

  lemma DivExact(k: int, d: int)
    requires d > 0
    ensures (k * d) / d == k
  {
    var q := (k * d) / d;
    var m := (k * d) % d;
    assert k * d == q * d + m;
    if q < k {
      MulMono(q + 1, k, d);
    } else if q > k {
      MulMono(k + 1, q, d);
    }
  }

  /** Scaling a (0 <= a <= R) onto U steps lands in 0..U. */
  lemma ScaleRange(a: int, u: int, r: int)
    requires 0 <= a <= r && 0 < r && 0 < u
    ensures 0 <= a * u && 0 <= (a * u) / r <= u
  {
    MulMono(0, a, u);
    MulMono(a, r, u);
    DivMono(0, a * u, r);
    DivMono(a * u, r * u, r);
    assert r * u == u * r;
    DivExact(u, r);
  }

  /** Scaling down and back loses less than one step, rounded up, and nothing exactly when R divides a * U. */
  lemma ScaleThereAndBack(a: int, u: int, r: int)
    requires 0 <= a <= r && 0 < r && 0 < u
    ensures var back := (((a * u) / r) * r) / u;
            && a - (r + u - 1) / u <= back <= a
            && (back == a <==> (a * u) % r == 0)
  {
    ScaleRange(a, u, r);
    var pos := (a * u) / r;
    var rem := (a * u) % r;
    assert a * u == pos * r + rem;
    var back := (pos * r) / u;
    DivMono(pos * r, a * u, u);
    DivExact(a, u);
    var k := (r + u - 1) / u;
    CeilCovers(r, u);
    // (a - k) * u <= a * u - r < pos * r
    assert (a - k) * u == a * u - k * u;
    DivMono((a - k) * u, pos * r, u);
    DivExact(a - k, u);
    assert pos * r == back * u + (pos * r) % u;
  }

  lemma CeilCovers(r: int, u: int)
    requires 0 < r && 0 < u
    ensures r <= ((r + u - 1) / u) * u
  {
    var k := (r + u - 1) / u;
    assert r + u - 1 == k * u + (r + u - 1) % u;
  }

  // ----- the claims

  lemma ThumbLiesInTrack(r: Rect, c: Control)
    requires Divisible(c) && Track(r).h > 0
    ensures Thumb(r, c).h > 0 && r.y + 16 <= Thumb(r, c).y && Thumb(r, c).y + Thumb(r, c).h <= r.y + r.h - 16
    ensures Thumb(r, c).x == r.x && Thumb(r, c).w == r.w
  {
    var usable := Usable(r, c);
    if usable > 0 && Range(c) > 0 {
      ScaleRange(Min(Max(c.value, c.min), c.max) - c.min, usable, Range(c));
    }
  }

  lemma FloorBounds(n: int, d: int)
    requires 0 <= n && 0 < d
    ensures CDiv(n, d) * d <= n < (CDiv(n, d) + 1) * d
  {
    assert n == n / d * d + n % d;
  }

  /**
   The thumb's share of the track is the page's share of range plus page, rounded down, but at least 12 pixels
   and at most the track.
   */
  lemma ThumbShare(r: Rect, c: Control)
    requires c.min <= c.max && c.page >= 1 && r.h > 32
    ensures var t, h, all := r.h - 32, Thumb(r, c).h, c.max - c.min + c.page;
            && Min(12, t) <= h <= t
            && (h > 12 ==> h * all <= t * c.page)
            && (h < t ==> t * c.page < (h + 1) * all)
  {
    var t, all := r.h - 32, c.max - c.min + c.page;
    MulMono(0, t, c.page);
    FloorBounds(t * c.page, all);
    var q, h := CDiv(t * c.page, all), Thumb(r, c).h;
    if h > 12 {
      MulMono(h, q, all);
    }
    if h < t {
      MulMono(q + 1, h + 1, all);
    }
  }

  /** The thumb stands at the value's share of the way down, rounded down to a pixel. */
  lemma ThumbStandsAtValue(r: Rect, c: Control)
    requires Divisible(c) && c.min <= c.value <= c.max && Track(r).h > 0 && Usable(r, c) > 0 && Range(c) > 0
    ensures var u, down := r.h - 32 - Thumb(r, c).h, Thumb(r, c).y - (r.y + 16);
            down * (c.max - c.min) <= (c.value - c.min) * u < (down + 1) * (c.max - c.min)
  {
    var u := Usable(r, c);
    MulMono(0, c.value - c.min, u);
    FloorBounds((c.value - c.min) * u, Range(c));
  }

  /** A drag gives the value at the thumb top's share of the way down, rounded down. */
  lemma DragIsProportional(r: Rect, c: Control, mouseY: int)
    requires Divisible(c) && Track(r).h > 0 && Usable(r, c) > 0 && Range(c) > 0
    ensures var u := r.h - 32 - Thumb(r, c).h;
            var down := Min(Max(mouseY - c.dragOffset - (r.y + 16), 0), u);
            var v := ValueFromThumb(r, c, mouseY) - c.min;
            v * u <= down * (c.max - c.min) < (v + 1) * u
  {
    var u := Usable(r, c);
    var down := Min(Max(mouseY - c.dragOffset - (r.y + 16), 0), u);
    MulMono(0, down, Range(c));
    FloorBounds(down * Range(c), u);
    assert ValueFromThumb(r, c, mouseY) == c.min + CDiv(down * Range(c), u);
  }

  lemma ThumbMovesWithValue(r: Rect, c: Control, v: int)
    requires Divisible(c) && c.value <= v
    ensures Thumb(r, c).y <= Thumb(r, c.(value := v)).y && Thumb(r, c).h == Thumb(r, c.(value := v)).h
  {
    if Track(r).h > 0 && Usable(r, c) > 0 && Range(c) > 0 {
      var a := Min(Max(c.value, c.min), c.max) - c.min;
      var b := Min(Max(v, c.min), c.max) - c.min;
      var u := Usable(r, c);
      assert Usable(r, c.(value := v)) == u;
      ScaleRange(a, u, Range(c));
      ScaleRange(b, u, Range(c));
      MulMono(a, b, u);
      DivMono(a * u, b * u, Range(c));
    }
  }

  lemma DragStaysInRange(r: Rect, c: Control, mouseY: int)
    requires Divisible(c) && c.min <= c.max
    ensures c.min <= ValueFromThumb(r, c, mouseY) <= c.max
  {
    var t := Track(r);
    var usable := t.h - Thumb(r, c).h;
    if Range(c) > 0 && usable > 0 {
      var top := Min(Max(mouseY - c.dragOffset, t.y), t.y + usable);
      ScaleRange(top - t.y, Range(c), usable);
    }
  }

  /** Both ends can be reached: dragging past the track gives the extreme values. */
  lemma DragReachesEnds(r: Rect, c: Control, mouseY: int)
    requires Divisible(c) && Track(r).h > 0 && Usable(r, c) > 0 && Range(c) > 0
    ensures mouseY - c.dragOffset <= Track(r).y ==> ValueFromThumb(r, c, mouseY) == c.min
    ensures mouseY - c.dragOffset >= Track(r).y + Usable(r, c) ==> ValueFromThumb(r, c, mouseY) == c.max
  {
    var u := Usable(r, c);
    EndsOfScale(Range(c), u);
    if mouseY - c.dragOffset <= Track(r).y {
      assert ValueFromThumb(r, c, mouseY) == c.min + CDiv(0 * Range(c), u);
    }
    if mouseY - c.dragOffset >= Track(r).y + u {
      assert ValueFromThumb(r, c, mouseY) == c.min + CDiv(u * Range(c), u);
    }
  }

  lemma EndsOfScale(r: int, u: int)
    requires 0 < r && 0 < u
    ensures CDiv(0 * r, u) == 0 && CDiv(u * r, u) == r
  {
    MulMono(0, u, r);
    DivExact(r, u);
    DivExact(0, u);
  }

  /**
   Grabbing the thumb and not moving it lowers the value by at most ceil(R / U), and leaves it alone
   exactly when R divides (v - min) * U.
   */
  lemma GrabWithoutMoving(r: Rect, c: Control, mouseY: int)
    requires Divisible(c) && c.min <= c.value <= c.max
    requires Track(r).h > 0 && Usable(r, c) > 0 && Range(c) > 0
    requires c.dragOffset == mouseY - Thumb(r, c).y
    ensures var v := ValueFromThumb(r, c, mouseY);
            var u := Usable(r, c);
            && c.value - (Range(c) + u - 1) / u <= v <= c.value
            && (v == c.value <==> ((c.value - c.min) * u) % Range(c) == 0)
  {
    var u := Usable(r, c);
    var a := c.value - c.min;
    ScaleRange(a, u, Range(c));
    ScaleThereAndBack(a, u, Range(c));
    var pos := (a * u) / Range(c);
    MulMono(0, pos, Range(c));
  }

  /** The drift is real: one grab of a new scrollbar at value 1 of 0..3 over 20 usable pixels gives 0. */
  lemma GrabDrifts()
    ensures var c := Add(0, 3, 1, 1);
            var r := Rect(0, 0, 16, 64);
            && c.value == 1 && Usable(r, c) == 20 && Thumb(r, c).y == 22
            && ValueFromThumb(r, c.(dragOffset := 100 - Thumb(r, c).y), 100) == 0
  {
    var c, r := Add(0, 3, 1, 1), Rect(0, 0, 16, 64);
    assert c == Control(0, 3, 1, 1, 0);
    assert Track(r) == Rect(0, 16, 16, 32);
    assert CDiv(32 * 1, 3 - 0 + 1) == 8;
    assert ThumbHeight(32, c) == 12;
    assert CDiv(1 * 20, 3) == 6;
    assert Position(r, c) == 6;
    var g := c.(dragOffset := 100 - Thumb(r, c).y);
    assert ThumbHeight(32, g) == 12;
    assert Thumb(r, g) == Thumb(r, c) == Rect(0, 22, 16, 12);
    assert CDiv(6 * 3, 20) == 0;
  }
}
