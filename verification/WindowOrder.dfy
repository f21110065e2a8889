/** Painter's order of windows: what the draw loop paints last is what a click hits. */
module WindowOrder {
  import opened Rect

  datatype Win = Win(
    id: int,
    bounds: Rect,
    restoreBounds: Rect,
    hasMinimize: bool,
    hasMaximize: bool,
    minimized: bool,
    maximized: bool,
    visible: bool,
    z: int)

  /** Windows the draw loop paints, and windows that take part in z-order normalization. */
  predicate Shown(w: Win) { w.visible && !w.minimized }
  predicate Live(w: Win) { w.id != 0 && w.visible }
  predicate Chosen(w: Win, all: bool) { if all then Live(w) else Shown(w) }

  /** i is painted before j: lower z, or the same z and earlier in the table. */
  predicate Below(ws: seq<Win>, i: int, j: int)
    requires 0 <= i < |ws| && 0 <= j < |ws|
  {
    ws[i].z < ws[j].z || (ws[i].z == ws[j].z && i < j)
  }

  predicate Indices(ws: seq<Win>, order: seq<int>) {
    forall k :: 0 <= k < |order| ==> 0 <= order[k] < |ws|
  }

  /** `order` lists exactly the chosen windows, bottom first. */
  ghost predicate IsOrder(ws: seq<Win>, order: seq<int>, all: bool) {
    && Indices(ws, order)
    && (forall k :: 0 <= k < |order| ==> Chosen(ws[order[k]], all))
    && (forall i :: 0 <= i < |ws| && Chosen(ws[i], all) ==> i in order)
    && (forall a, b :: 0 <= a < b < |order| ==> Below(ws, order[a], order[b]))
  }

  /** There is only one such list. */
  lemma {:induction false} OrderIsUnique(ws: seq<Win>, p: seq<int>, q: seq<int>, all: bool)
    requires IsOrder(ws, p, all) && IsOrder(ws, q, all)
    ensures p == q
  {
    SamePrefix(ws, p, q, all, |p|);
    SamePrefix(ws, q, p, all, |q|);
  }

  lemma {:induction false} SamePrefix(ws: seq<Win>, p: seq<int>, q: seq<int>, all: bool, n: int)
    requires IsOrder(ws, p, all) && IsOrder(ws, q, all) && 0 <= n <= |p|
    ensures n <= |q| && p[..n] == q[..n]
    decreases n
  {
    if n > 0 {
      SamePrefix(ws, p, q, all, n - 1);
      var m := n - 1;
      assert forall k :: 0 <= k < m ==> p[k] == p[..m][k] == q[..m][k] == q[k];
      assert p[m] in q;
      var b :| 0 <= b < |q| && q[b] == p[m];
      assert b >= m;
      assert q[m] in p;
      var a :| 0 <= a < |p| && p[a] == q[m];
      assert a >= m;
      assert a == m && b == m;
    }
  }

  // ----- painting and hitting

  /** The id of the last window in the order whose rectangle has the point; 0 for the bare desktop. */
  function LastPainted(ws: seq<Win>, order: seq<int>, x: int, y: int): int
    requires Indices(ws, order)
  {
    if order == [] then 0
    else
      var i := order[|order| - 1];
      if Contains(ws[i].bounds, x, y) then ws[i].id else LastPainted(ws, order[..|order| - 1], x, y)
  }

  predicate Hit(w: Win, x: int, y: int) { w.id != 0 && Shown(w) && Contains(w.bounds, x, y) }

  /** `best` is the topmost window at the point, or -1 when there is none. */
  ghost predicate IsTopAt(ws: seq<Win>, x: int, y: int, best: int) {
    && -1 <= best < |ws|
    && (best == -1 ==> forall i :: 0 <= i < |ws| ==> !Hit(ws[i], x, y))
    && (best >= 0 ==> Hit(ws[best], x, y) &&
                      forall i :: 0 <= i < |ws| && Hit(ws[i], x, y) && i != best ==> Below(ws, i, best))
  }

  /** The topmost window at a point is the one the draw loop paints last over it. */
  lemma {:induction false} HitIsLastPainted(ws: seq<Win>, order: seq<int>, x: int, y: int, best: int)
    requires IsOrder(ws, order, false) && IsTopAt(ws, x, y, best)
    requires forall i :: 0 <= i < |ws| && ws[i].visible ==> ws[i].id != 0
    ensures LastPainted(ws, order, x, y) == if best < 0 then 0 else ws[best].id
  {
    if best < 0 {
      NothingPainted(ws, order, x, y);
    } else {
      assert best in order;
      var k :| 0 <= k < |order| && order[k] == best;
      LastPaintedAt(ws, order, x, y, k);
    }
  }

  lemma {:induction false} NothingPainted(ws: seq<Win>, order: seq<int>, x: int, y: int)
    requires Indices(ws, order)
    requires forall k :: 0 <= k < |order| ==> !Contains(ws[order[k]].bounds, x, y)
    ensures LastPainted(ws, order, x, y) == 0
  {
    if order != [] {
      NothingPainted(ws, order[..|order| - 1], x, y);
    }
  }

  lemma {:induction false} LastPaintedAt(ws: seq<Win>, order: seq<int>, x: int, y: int, k: int)
    requires Indices(ws, order) && 0 <= k < |order| && Contains(ws[order[k]].bounds, x, y)
    requires forall m :: k < m < |order| ==> !Contains(ws[order[m]].bounds, x, y)
    ensures LastPainted(ws, order, x, y) == ws[order[k]].id
    decreases |order|
  {
    if k < |order| - 1 {
      LastPaintedAt(ws, order[..|order| - 1], x, y, k);
    }
  }

  // ----- normalization

  /** `ns` is `ws` with the z-orders of live windows replaced by their positions in `order`. */
  ghost predicate Renumbered(ws: seq<Win>, ns: seq<Win>, order: seq<int>) {
    && |ns| == |ws| && IsOrder(ws, order, true)
    && (forall i :: 0 <= i < |ws| ==> ns[i] == ws[i].(z := ns[i].z))
    && (forall i :: 0 <= i < |ws| && !Live(ws[i]) ==> ns[i] == ws[i])
    && (forall k :: 0 <= k < |order| ==> ns[order[k]].z == k)
  }

  /** Renumbering keeps the relative order of every two live windows and makes their z-orders distinct. */
  lemma RenumberingKeepsOrder(ws: seq<Win>, ns: seq<Win>, order: seq<int>, i: int, j: int)
    requires Renumbered(ws, ns, order)
    requires 0 <= i < |ws| && 0 <= j < |ws| && Live(ws[i]) && Live(ws[j]) && i != j
    ensures Below(ns, i, j) <==> Below(ws, i, j)
    ensures ns[i].z != ns[j].z && 0 <= ns[i].z < |order|
  {
    assert i in order && j in order;
    var a :| 0 <= a < |order| && order[a] == i;
    var b :| 0 <= b < |order| && order[b] == j;
    assert a != b;
    if a < b { assert Below(ws, order[a], order[b]); } else { assert Below(ws, order[b], order[a]); }
  }

  /** So the screen looks the same after a renumbering. */
  lemma RenumberingKeepsPainting(ws: seq<Win>, ns: seq<Win>, order: seq<int>, painted: seq<int>)
    requires Renumbered(ws, ns, order) && IsOrder(ws, painted, false)
    requires forall i :: 0 <= i < |ws| && ws[i].visible ==> ws[i].id != 0
    ensures IsOrder(ns, painted, false)
  {
    forall a, b | 0 <= a < b < |painted|
      ensures Below(ns, painted[a], painted[b])
    {
      assert Below(ws, painted[a], painted[b]);
      RenumberingKeepsOrder(ws, ns, order, painted[a], painted[b]);
    }
  }

  // ----- counting what a selection loop has left

  function Open(drawn: seq<bool>): nat {
    if drawn == [] then 0 else (if drawn[0] then 0 else 1) + Open(drawn[1..])
  }

  lemma {:induction false} OpenClose(drawn: seq<bool>, i: int)
    requires 0 <= i < |drawn| && !drawn[i]
    ensures Open(drawn[i := true]) == Open(drawn) - 1
    decreases |drawn|
  {
    if i > 0 {
      assert drawn[i := true][1..] == drawn[1..][i - 1 := true];
      OpenClose(drawn[1..], i - 1);
    } else {
      assert drawn[0 := true][1..] == drawn[1..];
    }
  }

  lemma {:induction false} OpenZero(drawn: seq<bool>, i: int)
    requires 0 <= i < |drawn| && !drawn[i]
    ensures Open(drawn) > 0
    decreases |drawn|
  {
    if i > 0 {
      assert drawn[1..][i - 1] == drawn[i];
      OpenZero(drawn[1..], i - 1);
    }
  }

  lemma {:induction false} OpenBound(drawn: seq<bool>)
    ensures Open(drawn) <= |drawn|
  {
    if drawn != [] {
      OpenBound(drawn[1..]);
    }
  }
}
