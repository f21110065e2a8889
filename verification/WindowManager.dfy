/** The window table, mutated in place by create, close, minimize, maximize, restore and bring-to-front. */
module WindowManager {
  import opened Rect
  import opened WindowOrder

  const MAX_WINDOWS: int := 16

  const NO_WINDOW: Win := Win(0, Rect(0, 0, 0, 0), Rect(0, 0, 0, 0), false, false, false, false, false, 0)

  /** A slot is visible exactly while it has an id; ids and the z-orders of visible windows are distinct. */
  ghost predicate TableOk(ws: seq<Win>, nextId: int) {
    && nextId >= 1
    && (forall i :: 0 <= i < |ws| ==> 0 <= ws[i].id < nextId && (ws[i].visible <==> ws[i].id != 0))
    && (forall i :: 0 <= i < |ws| && ws[i].visible ==> ws[i].z >= 0)
    && (forall i, j :: 0 <= i < j < |ws| && ws[i].visible && ws[j].visible ==>
          ws[i].id != ws[j].id && ws[i].z != ws[j].z)
  }

  /** Same windows in the same slots up to z-order. */
  predicate OnlyZ(ws: seq<Win>, ns: seq<Win>) {
    |ns| == |ws| && forall i :: 0 <= i < |ws| ==> ns[i] == ws[i].(z := ns[i].z)
  }

  predicate At(ws: seq<Win>, id: int, t: int) { id != 0 && 0 <= t < |ws| && ws[t].id == id }

  predicate Missing(ws: seq<Win>, id: int) { id == 0 || forall i :: 0 <= i < |ws| ==> ws[i].id != id }

  function MaximizedWin(w: Win, desktop: Rect): Win {
    if w.maximized then w.(minimized := false)
    else w.(minimized := false, restoreBounds := w.bounds, bounds := desktop, maximized := true)
  }

  function RestoredWin(w: Win): Win {
    if w.maximized then w.(minimized := false, bounds := w.restoreBounds, maximized := false)
    else w.(minimized := false)
  }

  /** Maximizing fills the desktop; restoring afterwards gives back the bounds from before, whatever the desktop. */
  lemma MaximizeThenRestore(w: Win, desktop: Rect)
    ensures !w.maximized ==> MaximizedWin(w, desktop).bounds == desktop && MaximizedWin(w, desktop).maximized
    ensures w.maximized ==> MaximizedWin(w, desktop).bounds == w.bounds && MaximizedWin(w, desktop).maximized
    ensures !w.maximized ==> RestoredWin(MaximizedWin(w, desktop)) == w.(minimized := false, restoreBounds := w.bounds)
    ensures w.maximized ==> RestoredWin(MaximizedWin(w, desktop)).bounds == w.restoreBounds
    ensures !MaximizedWin(w, desktop).minimized && !RestoredWin(w).minimized && !RestoredWin(w).maximized
  {
  }

  /** A window that is on the screen at a point. */
  predicate OnScreenAt(w: Win, x: int, y: int) {
    w.visible && !w.minimized && w.bounds.x <= x < w.bounds.x + w.bounds.w && w.bounds.y <= y < w.bounds.y + w.bounds.h
  }

  /** `id` names the window of greatest z-order on the screen at a point; 0 when there is none. */
  ghost predicate TopAt(ws: seq<Win>, x: int, y: int, id: int) {
    if id == 0 then forall i :: 0 <= i < |ws| ==> !OnScreenAt(ws[i], x, y)
    else exists t :: 0 <= t < |ws| && ws[t].id == id && OnScreenAt(ws[t], x, y) &&
                     forall i :: 0 <= i < |ws| && OnScreenAt(ws[i], x, y) && i != t ==> ws[i].z < ws[t].z
  }

  /** `id` names the window of greatest z-order among those neither closed nor minimized; 0 when there is none. */
  ghost predicate TopShown(ws: seq<Win>, id: int) {
    if id == 0 then forall i :: 0 <= i < |ws| ==> !ws[i].visible || ws[i].minimized
    else exists t :: 0 <= t < |ws| && ws[t].id == id && ws[t].visible && !ws[t].minimized &&
                     forall i :: 0 <= i < |ws| && ws[i].visible && !ws[i].minimized ==> ws[i].z <= ws[t].z
  }

  /** Slot t became w and was raised; nothing else changed but z-orders. */
  ghost predicate ChangedAndRaised(ws: seq<Win>, ns: seq<Win>, t: int, w: Win)
    requires 0 <= t < |ws|
  {
    OnlyZ(ws[t := w], ns) && Raised(ws[t := w], ns, t)
  }

  /** Window t is above all others, whose mutual order is unchanged. */
  ghost predicate Raised(ws: seq<Win>, ns: seq<Win>, t: int)
    requires 0 <= t < |ws| && |ns| == |ws|
  {
    && (forall i :: 0 <= i < |ws| && Live(ws[i]) && i != t ==> ns[i].z < ns[t].z)
    && (forall i, j :: 0 <= i < |ws| && 0 <= j < |ws| && Live(ws[i]) && Live(ws[j]) && i != t && j != t && i != j ==>
          (Below(ns, i, j) <==> Below(ws, i, j)))
  }

  datatype Op =
    | Create(bounds: Rect, hasMinimize: bool, hasMaximize: bool)
    | Close(id: int)
    | Minimize(id: int)
    | Unminimize(id: int)
    | Restore(id: int)
    | Maximize(id: int, desktop: Rect)
    | Toggle(id: int, desktop: Rect)
    | Raise(id: int)

  class WindowManager {
    const windows: array<Win>
    var count: int
    var nextId: int
    var activeId: int

    ghost predicate Valid()
      reads this, windows
    {
      windows.Length == MAX_WINDOWS && 0 <= count <= MAX_WINDOWS && TableOk(windows[..count], nextId)
    }

    ghost function Table(): seq<Win>
      requires Valid()
      reads this, windows
    {
      windows[..count]
    }

    constructor ()
      ensures Valid() && fresh(windows) && Table() == []
    {
      windows := new Win[MAX_WINDOWS](_ => NO_WINDOW);
      count, nextId, activeId := 0, 1, 0;
    }

    // ----- reading the table

    method FindWindow(id: int) returns (idx: int)
      requires Valid()
      ensures idx == -1 ==> Missing(windows[..count], id)
      ensures idx != -1 ==> At(windows[..count], id, idx)
    {
      if id == 0 {
        return -1;
      }
      for i := 0 to count
        invariant forall j :: 0 <= j < i ==> windows[j].id != id
      {
        if windows[i].id == id {
          return i;
        }
      }
      idx := -1;
    }

    /** The inner scan of the selection loops: the lowest window not drawn yet. */
    method Lowest(ws: seq<Win>, drawn: seq<bool>, all: bool) returns (best: int)
      requires |drawn| == |ws|
      ensures -1 <= best < |ws|
      ensures best == -1 ==> forall i :: 0 <= i < |ws| && Chosen(ws[i], all) ==> drawn[i]
      ensures best >= 0 ==> Chosen(ws[best], all) && !drawn[best] &&
                            forall i :: 0 <= i < |ws| && Chosen(ws[i], all) && !drawn[i] && i != best ==>
                              Below(ws, best, i)
    {
      best := -1;
      for i := 0 to |ws|
        invariant -1 <= best < i
        invariant best == -1 ==> forall j :: 0 <= j < i && Chosen(ws[j], all) ==> drawn[j]
        invariant best >= 0 ==> Chosen(ws[best], all) && !drawn[best] &&
                                forall j :: 0 <= j < i && Chosen(ws[j], all) && !drawn[j] && j != best ==>
                                  Below(ws, best, j)
      {
        if drawn[i] || !Chosen(ws[i], all) {
          continue;
        }
        if best >= 0 && ws[i].z >= ws[best].z {
          continue;
        }
        best := i;
      }
    }

    /** The order in which ui_wm_draw paints the windows. */
    method DrawOrder() returns (order: seq<int>)
      requires Valid()
      ensures IsOrder(windows[..count], order, false)
      ensures forall i :: 0 <= i < count ==> (i in order <==> windows[i].visible && !windows[i].minimized)
    {
      order := SelectAll(windows[..count], false);
    }

    /** Repeated selection of the lowest remaining window, at most once per table slot. */
    method SelectAll(ws: seq<Win>, all: bool) returns (order: seq<int>)
      ensures IsOrder(ws, order, all)
    {
      order := [];
      var drawn := seq(|ws|, _ => false);
      OpenBound(drawn);
      for n := 0 to |ws|
        invariant Selecting(ws, drawn, order, all, n)
      {
        var best := Lowest(ws, drawn, all);
        if best < 0 {
          return;
        }
        SelectStep(ws, drawn, order, all, n, best);
        drawn := drawn[best := true];
        order := order + [best];
      }
      SelectDone(ws, drawn, order, all);
    }

    /** ui_wm_top_window_at: the id of whatever the draw loop paints last over the point. */
    method TopWindowAt(x: int, y: int) returns (id: int)
      requires Valid()
      ensures TopAt(windows[..count], x, y, id)
      ensures forall order :: IsOrder(windows[..count], order, false) ==>
                id == LastPainted(windows[..count], order, x, y)
    {
      id := 0;
      ghost var best := -1;
      var bestZ := -2147483647;
      ghost var ws := windows[..count];
      for i := 0 to count
        invariant IsTopAt(ws[..i], x, y, best)
        invariant best < 0 ==> id == 0 && bestZ == -2147483647
        invariant best >= 0 ==> id == ws[best].id && bestZ == ws[best].z
      {
        assert ws[..i + 1] == ws[..i] + [ws[i]];
        if windows[i].id == 0 || !windows[i].visible || windows[i].minimized {
          continue;
        }
        if Contains(windows[i].bounds, x, y) && windows[i].z >= bestZ {
          bestZ := windows[i].z;
          id := windows[i].id;
          best := i;
        }
      }
      assert ws[..count] == ws;
      TopIsTopAt(ws, x, y, best, nextId);
      forall order | IsOrder(ws, order, false)
        ensures id == LastPainted(ws, order, x, y)
      {
        HitIsLastPainted(ws, order, x, y, best);
      }
    }

    // ----- z-order

    /** ui_wm_normalize_z_order, with the order of the live windows it found. */
    method Normalize() returns (ghost order: seq<int>)
      requires Valid()
      modifies windows
      ensures Valid() && Renumbered(old(Table()), Table(), order)
    {
      ghost var ws := windows[..count];
      order := [];
      var drawn := seq(count, _ => false);
      OpenBound(drawn);
      for n := 0 to count
        invariant Selecting(ws, drawn, order, true, n) && Renumbering(ws, windows[..count], drawn, order)
      {
        var best := Lowest(windows[..count], drawn, true);
        if best < 0 {
          NormalizeDone(ws, windows[..count], order, nextId);
          return;
        }
        SelectStep(ws, drawn, order, true, n, best);
        RenumberStep(ws, windows[..count], drawn, order, best);
        drawn := drawn[best := true];
        order := order + [best];
        ghost var before := windows[..count];
        windows[best] := windows[best].(z := n);
        assert windows[..count] == before[best := before[best].(z := n)];
      }
      SelectDone(ws, drawn, order, true);
      NormalizeDone(ws, windows[..count], order, nextId);
    }

    /** The highest z-order of a live window, or -1. */
    method MaxZ() returns (m: int)
      requires Valid()
      ensures m >= -1
      ensures forall i :: 0 <= i < count && Live(windows[i]) ==> windows[i].z <= m
    {
      m := -1;
      for i := 0 to count
        invariant m >= -1
        invariant forall j :: 0 <= j < i && Live(windows[j]) ==> windows[j].z <= m
      {
        if Live(windows[i]) && windows[i].z > m {
          m := windows[i].z;
        }
      }
    }

    method RaiseSlot(t: int)
      requires Valid() && 0 <= t < count && Live(windows[t])
      modifies windows
      ensures Valid() && OnlyZ(old(Table()), Table()) && Raised(old(Table()), Table(), t)
    {
      ghost var ws := windows[..count];
      ghost var order := Normalize();
      ghost var ns := windows[..count];
      var top := MaxZ();
      assert forall i :: 0 <= i < count ==> ns[i] == windows[i];
      windows[t] := windows[t].(z := top + 1);
      assert windows[..count] == ns[t := ns[t].(z := top + 1)];
      RaiseOk(ws, ns, order, t, top + 1, nextId);
    }

    /** ui_wm_bring_to_front; t is the slot of the window, or -1 when there is none. */
    method BringToFront(id: int) returns (ghost t: int)
      requires Valid()
      modifies this`activeId, windows
      ensures Valid() && OnlyZ(old(Table()), Table())
      ensures t == -1 ==> Missing(old(Table()), id) && Table() == old(Table()) && activeId == old(activeId)
      ensures t != -1 ==> At(old(Table()), id, t) && Raised(old(Table()), Table(), t) && activeId == id
    {
      var slot := FindWindow(id);
      t := slot;
      if slot < 0 {
        return;
      }
      assert windows[..count][slot] == windows[slot];
      RaiseSlot(slot);
      activeId := id;
    }

    method ActivateTop()
      requires Valid()
      modifies this`activeId
      ensures Valid() && TopShown(windows[..count], activeId)
    {
      var bestZ, best, bestId := -2147483647, -1, 0;
      for i := 0 to count
        invariant -1 <= best < i
        invariant best < 0 ==> bestId == 0 && bestZ == -2147483647 && forall j :: 0 <= j < i ==> !Shown(windows[j])
        invariant best >= 0 ==> Shown(windows[best]) && bestId == windows[best].id && bestZ == windows[best].z &&
                                forall j :: 0 <= j < i && Shown(windows[j]) ==> windows[j].z <= bestZ
      {
        assert windows[..count][i] == windows[i];
        if windows[i].id == 0 || !windows[i].visible || windows[i].minimized {
          continue;
        }
        if windows[i].z >= bestZ {
          bestZ, best, bestId := windows[i].z, i, windows[i].id;
        }
      }
      activeId := bestId;
      if best >= 0 {
        assert windows[..count][best] == windows[best];
      }
    }

    // ----- creating and closing

    method FreeSlot() returns (slot: int)
      requires Valid()
      ensures -1 <= slot < count
      ensures slot == -1 ==> forall i :: 0 <= i < count ==> windows[i].id != 0
      ensures slot >= 0 ==> windows[slot].id == 0
    {
      for i := 0 to count
        invariant forall j :: 0 <= j < i ==> windows[j].id != 0
      {
        if windows[i].id == 0 {
          return i;
        }
      }
      slot := -1;
    }

    /**
     ui_wm_create_window_ex: refused only when all slots are taken; otherwise the new window takes slot t
     with a new id, above every visible window, and becomes active.
     */
    method CreateWindow(bounds: Rect, hasMinimize: bool, hasMaximize: bool) returns (id: int, ghost t: int)
      requires Valid()
      modifies this, windows
      ensures Valid()
      ensures id == 0 <==> t == -1
      ensures t == -1 ==> old(count) == 16 && (forall w :: w in old(Table()) ==> w.id != 0)
                          && Table() == old(Table())
      ensures t != -1 ==>
                && id == old(nextId) && activeId == id
                && 0 <= t < count && Added(old(Table()), Table(), t)
                && Table()[t] == Win(id, bounds, bounds, hasMinimize, hasMaximize, false, false, true, Table()[t].z)
    {
      ghost var ws := windows[..count];
      var slot := FreeSlot();
      if slot < 0 {
        if count >= MAX_WINDOWS {
          return 0, -1;
        }
        slot := count;
      }
      var top := MaxZ();
      assert forall i :: 0 <= i < |ws| ==> ws[i] == windows[i];
      id, t := nextId, slot;
      windows[slot] := Win(id, bounds, bounds, hasMinimize, hasMaximize, false, false, true, top + 1);
      if slot == count {
        count := count + 1;
      }
      nextId := nextId + 1;
      activeId := id;
      CreateOk(ws, windows[..count], slot, id, top + 1);
    }

    /** ui_wm_close_window; closing the active window activates the topmost one left. */
    method CloseWindow(id: int)
      requires Valid()
      modifies this`activeId, windows
      ensures Valid()
      ensures forall i :: 0 <= i < count && old(windows[i].id) != id ==> windows[i] == old(windows[i])
      ensures id != 0 ==> forall i :: 0 <= i < count ==> windows[i].id != id
      ensures if old(activeId) == id then TopShown(windows[..count], activeId) else activeId == old(activeId)
    {
      var wasActive := activeId == id;
      ghost var ws := windows[..count];
      for i := 0 to count
        invariant Valid() && windows[..count] == ws
        invariant forall j :: 0 <= j < i ==> windows[j].id != id
      {
        assert ws[i] == windows[i];
        if windows[i].id == id {
          windows[i] := windows[i].(id := 0, visible := false, z := 0, hasMinimize := false, hasMaximize := false,
                                    minimized := false, maximized := false);
          CloseOk(ws, windows[..count], i, nextId);
          assert forall j :: 0 <= j < |ws| ==> ws[j] == old(windows[j]);
          assert forall j :: 0 <= j < |ws| && j != i ==> windows[j] == ws[j];
          break;
        }
      }
      if wasActive {
        ActivateTop();
      }
    }

    // ----- minimizing, maximizing, restoring

    /** Change a window's attributes, keeping its identity and its place in the order. */
    method Change(t: int, w: Win)
      requires Valid() && 0 <= t < count
      requires w.id == windows[t].id && w.visible == windows[t].visible && w.z == windows[t].z
      modifies windows
      ensures Valid() && Table() == old(Table())[t := w]
    {
      ghost var ws := windows[..count];
      windows[t] := w;
      assert windows[..count] == ws[t := w];
    }

    method MinimizeWindow(id: int) returns (ghost t: int)
      requires Valid()
      modifies this`activeId, windows
      ensures Valid()
      ensures t == -1 ==> Table() == old(Table())
                          && forall i :: At(old(Table()), id, i) ==> !old(Table())[i].hasMinimize
      ensures t != -1 ==> At(old(Table()), id, t) && old(Table())[t].hasMinimize
                          && Table() == old(Table())[t := old(Table())[t].(minimized := true)]
      ensures if t != -1 && old(activeId) == id then TopShown(Table(), activeId) else activeId == old(activeId)
    {
      var slot := FindWindow(id);
      t := slot;
      if slot < 0 {
        return;
      }
      assert windows[..count][slot] == windows[slot];
      if !windows[slot].visible || !windows[slot].hasMinimize {
        return -1;
      }
      Change(slot, windows[slot].(minimized := true));
      if activeId == id {
        ActivateTop();
      }
    }

    /** Give slot t new attributes and bring it to the front. */
    method ChangeAndRaise(t: int, w: Win)
      requires Valid() && 0 <= t < count && Live(windows[t])
      requires w.id == windows[t].id && w.visible && w.z == windows[t].z
      modifies this`activeId, windows
      ensures Valid() && ChangedAndRaised(old(Table()), Table(), t, w)
      ensures activeId == w.id
    {
      Change(t, w);
      assert windows[t] == windows[..count][t];
      RaiseSlot(t);
      activeId := w.id;
    }

    method UnminimizeWindow(id: int) returns (ghost t: int)
      requires Valid()
      modifies this`activeId, windows
      ensures Valid()
      ensures t == -1 ==> Table() == old(Table()) && forall i :: At(old(Table()), id, i) ==>
                            !old(Table())[i].hasMinimize && !old(Table())[i].hasMaximize
      ensures t != -1 ==> At(old(Table()), id, t) && (old(Table())[t].hasMinimize || old(Table())[t].hasMaximize) &&
                          ChangedAndRaised(old(Table()), Table(), t, old(Table())[t].(minimized := false))
      ensures activeId == if t == -1 then old(activeId) else id
    {
      var slot := FindWindow(id);
      t := slot;
      if slot < 0 {
        return;
      }
      assert windows[..count][slot] == windows[slot];
      if !windows[slot].visible || (!windows[slot].hasMinimize && !windows[slot].hasMaximize) {
        return -1;
      }
      ChangeAndRaise(slot, windows[slot].(minimized := false));
    }

    method RestoreWindow(id: int) returns (ghost t: int)
      requires Valid()
      modifies this`activeId, windows
      ensures Valid()
      ensures t == -1 ==> Table() == old(Table())
                          && forall i :: At(old(Table()), id, i) ==> !old(Table())[i].hasMaximize
      ensures t != -1 ==> At(old(Table()), id, t) && old(Table())[t].hasMaximize &&
                          ChangedAndRaised(old(Table()), Table(), t, RestoredWin(old(Table())[t]))
      ensures activeId == if t == -1 then old(activeId) else id
    {
      var slot := FindWindow(id);
      t := slot;
      if slot < 0 {
        return;
      }
      assert windows[..count][slot] == windows[slot];
      if !windows[slot].visible || !windows[slot].hasMaximize {
        return -1;
      }
      ChangeAndRaise(slot, RestoredWin(windows[slot]));
    }

    method MaximizeWindow(id: int, desktop: Rect) returns (ghost t: int)
      requires Valid()
      modifies this`activeId, windows
      ensures Valid()
      ensures t == -1 ==> Table() == old(Table()) && (IsEmpty(desktop) ||
                            forall i :: At(old(Table()), id, i) ==> !old(Table())[i].hasMaximize)
      ensures t != -1 ==> At(old(Table()), id, t) && !IsEmpty(desktop) && old(Table())[t].hasMaximize &&
                          ChangedAndRaised(old(Table()), Table(), t, MaximizedWin(old(Table())[t], desktop))
      ensures activeId == if t == -1 then old(activeId) else id
    {
      if IsEmpty(desktop) {
        return -1;
      }
      var slot := FindWindow(id);
      t := slot;
      if slot < 0 {
        return;
      }
      assert windows[..count][slot] == windows[slot];
      if !windows[slot].visible || !windows[slot].hasMaximize {
        return -1;
      }
      ChangeAndRaise(slot, MaximizedWin(windows[slot], desktop));
    }

    method ToggleMaximize(id: int, desktop: Rect) returns (ghost t: int)
      requires Valid()
      modifies this`activeId, windows
      ensures Valid()
      ensures t == -1 ==> Table() == old(Table()) && forall i :: At(old(Table()), id, i) ==>
                            !old(Table())[i].hasMaximize || (IsEmpty(desktop) && !old(Table())[i].maximized)
      ensures t != -1 ==> At(old(Table()), id, t) &&
                          var w := old(Table())[t];
                          && w.hasMaximize && (w.maximized || !IsEmpty(desktop))
                          && ChangedAndRaised(old(Table()), Table(), t,
                                              if w.maximized then RestoredWin(w) else MaximizedWin(w, desktop))
      ensures activeId == if t == -1 then old(activeId) else id
    {
      var slot := FindWindow(id);
      t := -1;
      if slot < 0 {
        return;
      }
      assert windows[..count][slot] == windows[slot];
      if windows[slot].maximized {
        t := RestoreWindow(id);
      } else {
        t := MaximizeWindow(id, desktop);
      }
    }

    /** Whatever the sequence of operations, every click then hits what was painted last. */
    method PerformThenClick(ops: seq<Op>, x: int, y: int) returns (id: int)
      requires Valid()
      modifies this, windows
      ensures Valid() && TopAt(windows[..count], x, y, id)
      ensures forall order :: IsOrder(windows[..count], order, false) ==>
                id == LastPainted(windows[..count], order, x, y)
    {
      for n := 0 to |ops|
        invariant Valid()
      {
        match ops[n]
        case Create(b, mi, ma) => var made, slot := CreateWindow(b, mi, ma);
        case Close(w) => CloseWindow(w);
        case Minimize(w) => ghost var slot := MinimizeWindow(w);
        case Unminimize(w) => ghost var slot := UnminimizeWindow(w);
        case Restore(w) => ghost var slot := RestoreWindow(w);
        case Maximize(w, desk) => ghost var slot := MaximizeWindow(w, desk);
        case Toggle(w, desk) => ghost var slot := ToggleMaximize(w, desk);
        case Raise(w) => ghost var slot := BringToFront(w);
      }
      id := TopWindowAt(x, y);
    }
  }

  lemma TopIsTopAt(ws: seq<Win>, x: int, y: int, best: int, nextId: int)
    requires TableOk(ws, nextId) && IsTopAt(ws, x, y, best)
    ensures TopAt(ws, x, y, if best < 0 then 0 else ws[best].id)
  {
    assert forall i :: 0 <= i < |ws| ==> (Hit(ws[i], x, y) <==> OnScreenAt(ws[i], x, y));
  }

  // ----- the selection loops

  /** After n rounds: n windows drawn in painter's order, all below the ones not drawn. */
  ghost predicate Selecting(ws: seq<Win>, drawn: seq<bool>, order: seq<int>, all: bool, n: int) {
    && |drawn| == |ws| && Open(drawn) <= |ws| - n && |order| == n
    && Indices(ws, order)
    && (forall k :: 0 <= k < |order| ==> Chosen(ws[order[k]], all))
    && (forall i :: 0 <= i < |ws| ==> (drawn[i] <==> i in order))
    && (forall a, b :: 0 <= a < b < |order| ==> Below(ws, order[a], order[b]))
    && (forall k, i :: 0 <= k < |order| && 0 <= i < |ws| && Chosen(ws[i], all) && !drawn[i] ==> Below(ws, order[k], i))
  }

  lemma SelectStep(ws: seq<Win>, drawn: seq<bool>, order: seq<int>, all: bool, n: int, best: int)
    requires Selecting(ws, drawn, order, all, n)
    requires 0 <= best < |ws| && Chosen(ws[best], all) && !drawn[best]
    requires forall i :: 0 <= i < |ws| && Chosen(ws[i], all) && !drawn[i] && i != best ==> Below(ws, best, i)
    ensures Selecting(ws, drawn[best := true], order + [best], all, n + 1)
  {
    OpenClose(drawn, best);
  }

  /** As many rounds as slots are always enough. */
  lemma SelectDone(ws: seq<Win>, drawn: seq<bool>, order: seq<int>, all: bool)
    requires Selecting(ws, drawn, order, all, |ws|)
    ensures IsOrder(ws, order, all)
  {
    forall i | 0 <= i < |ws|
      ensures drawn[i]
    {
      if !drawn[i] {
        OpenZero(drawn, i);
      }
    }
  }

  /** Windows already drawn carry their position as z-order, the others are untouched. */
  ghost predicate Renumbering(ws: seq<Win>, ns: seq<Win>, drawn: seq<bool>, order: seq<int>) {
    && |ns| == |ws| == |drawn| && Indices(ws, order)
    && OnlyZ(ws, ns)
    && (forall i :: 0 <= i < |ws| && !drawn[i] ==> ns[i] == ws[i])
    && (forall k :: 0 <= k < |order| ==> ns[order[k]].z == k)
  }

  lemma RenumberStep(ws: seq<Win>, ns: seq<Win>, drawn: seq<bool>, order: seq<int>, best: int)
    requires Renumbering(ws, ns, drawn, order)
    requires 0 <= best < |ws| && !drawn[best]
    requires forall i :: 0 <= i < |ws| ==> (drawn[i] <==> i in order)
    ensures Renumbering(ws, ns[best := ns[best].(z := |order|)], drawn[best := true], order + [best])
  {
  }

  lemma NormalizeDone(ws: seq<Win>, ns: seq<Win>, order: seq<int>, nextId: int)
    requires TableOk(ws, nextId) && IsOrder(ws, order, true) && |ns| == |ws| && OnlyZ(ws, ns)
    requires forall i :: 0 <= i < |ws| && i !in order ==> ns[i] == ws[i]
    requires forall k :: 0 <= k < |order| ==> ns[order[k]].z == k
    ensures Renumbered(ws, ns, order) && TableOk(ns, nextId)
  {
    forall i | 0 <= i < |ws| && !Live(ws[i])
      ensures ns[i] == ws[i]
    {
      assert i !in order;
    }
    forall i | 0 <= i < |ns| && ns[i].visible
      ensures ns[i].z >= 0
    {
      assert i in order;
    }
    forall i, j | 0 <= i < j < |ns| && ns[i].visible && ns[j].visible
      ensures ns[i].z != ns[j].z
    {
      RenumberingKeepsOrder(ws, ns, order, i, j);
    }
  }

  lemma RaiseOk(ws: seq<Win>, ns: seq<Win>, order: seq<int>, t: int, z: int, nextId: int)
    requires Renumbered(ws, ns, order) && TableOk(ns, nextId) && 0 <= t < |ws| && Live(ws[t]) && z >= 0
    requires forall i :: 0 <= i < |ns| && Live(ns[i]) ==> ns[i].z < z
    ensures var zs := ns[t := ns[t].(z := z)];
            TableOk(zs, nextId) && OnlyZ(ws, zs) && Raised(ws, zs, t)
  {
    var zs := ns[t := ns[t].(z := z)];
    forall i, j | 0 <= i < |ws| && 0 <= j < |ws| && Live(ws[i]) && Live(ws[j]) && i != t && j != t && i != j
      ensures Below(zs, i, j) <==> Below(ws, i, j)
    {
      RenumberingKeepsOrder(ws, ns, order, i, j);
    }
  }

  /** Slot t is new or was free, the other slots are as before, and t is above all that are visible. */
  ghost predicate Added(ws: seq<Win>, ns: seq<Win>, t: int) {
    && 0 <= t <= |ws| && |ns| == (if t == |ws| then |ws| + 1 else |ws|)
    && (t < |ws| ==> ws[t].id == 0)
    && (forall i :: 0 <= i < |ns| && i != t ==> ns[i] == ws[i])
    && (forall i :: 0 <= i < |ns| && i != t && ns[i].visible ==> ns[i].z < ns[t].z)
  }

  lemma CreateOk(ws: seq<Win>, ns: seq<Win>, slot: int, id: int, z: int)
    requires TableOk(ws, id) && 0 <= slot <= |ws| && slot < |ns| && z >= 0
    requires |ns| == (if slot == |ws| then |ws| + 1 else |ws|)
    requires forall i :: 0 <= i < |ns| && i != slot ==> i < |ws| && ns[i] == ws[i]
    requires forall i :: 0 <= i < |ws| && Live(ws[i]) ==> ws[i].z < z
    requires ns[slot].id == id && ns[slot].visible && ns[slot].z == z
    requires slot < |ws| ==> ws[slot].id == 0
    ensures TableOk(ns, id + 1) && Added(ws, ns, slot)
  {
  }

  lemma CloseOk(ws: seq<Win>, ns: seq<Win>, i: int, nextId: int)
    requires TableOk(ws, nextId) && 0 <= i < |ws| == |ns|
    requires forall j :: 0 <= j < |ws| && j != i ==> ns[j] == ws[j]
    requires ns[i].id == 0 && !ns[i].visible
    ensures TableOk(ns, nextId)
  {
  }
}
