/** The file explorer's bounded Back/Forward history. */
module ExplorerHistory {
  const HISTORY_MAX: int := 12
  const MAX_DEPTH: int := 12
  const NAME_MAX: int := 12      // 13-byte buffers

  /** Where an explorer window is: the list of drives, or a folder of one drive. */
  datatype Place = Drives | Folder(drive: int, path: seq<string>)

  /** The abstract history: places visited, and which of them is shown. */
  datatype Trail = Trail(places: seq<Place>, at: int)

  predicate TrailOk(t: Trail) { 1 <= |t.places| <= HISTORY_MAX && 0 <= t.at < |t.places| }

  function Here(t: Trail): Place
    requires TrailOk(t)
  {
    t.places[t.at]
  }

  /** The last n elements. */
  function Newest<T>(s: seq<T>, n: int): seq<T>
    requires 0 <= n
  {
    if |s| <= n then s else s[|s| - n..]
  }

  /** Visiting a place: forward entries go, the oldest goes when the list is full. */
  function Visit(t: Trail, p: Place): (r: Trail)
    requires TrailOk(t)
    ensures TrailOk(r) && Here(r) == p
    ensures Here(t) == p ==> r == t
    ensures Here(t) != p ==> r == Trail(Newest(t.places[..t.at + 1], 11) + [p], |r.places| - 1)
  {
    if Here(t) == p then t
    else
      var kept := t.places[..t.at + 1];
      var room := if |kept| >= HISTORY_MAX then kept[1..] else kept;
      Trail(room + [p], |room|)
  }

  predicate CanBack(t: Trail) { |t.places| > 1 && t.at > 0 }
  predicate CanForward(t: Trail) { |t.places| > 1 && t.at < |t.places| - 1 }

  function Back(t: Trail): Trail { if CanBack(t) then t.(at := t.at - 1) else t }
  function Forward(t: Trail): Trail { if CanForward(t) then t.(at := t.at + 1) else t }

  // ----- the browser model: what is behind, where we are, what is ahead

  datatype Zipper = Zipper(behind: seq<Place>, here: Place, ahead: seq<Place>)

  function Zip(t: Trail): Zipper
    requires TrailOk(t)
  {
    Zipper(t.places[..t.at], t.places[t.at], t.places[t.at + 1..])
  }

  function ZVisit(z: Zipper, p: Place): Zipper {
    if z.here == p then z else Zipper(Newest(z.behind + [z.here], 11), p, [])
  }

  function ZBack(z: Zipper): Zipper {
    if z.behind == [] then z
    else Zipper(z.behind[..|z.behind| - 1], z.behind[|z.behind| - 1], [z.here] + z.ahead)
  }

  function ZForward(z: Zipper): Zipper {
    if z.ahead == [] then z else Zipper(z.behind + [z.here], z.ahead[0], z.ahead[1..])
  }

  datatype Nav = VisitPlace(p: Place) | GoBack | GoForward

  function Step(t: Trail, n: Nav): (r: Trail)
    requires TrailOk(t)
    ensures TrailOk(r)
  {
    match n
    case VisitPlace(p) => Visit(t, p)
    case GoBack => Back(t)
    case GoForward => Forward(t)
  }

  function ZStep(z: Zipper, n: Nav): Zipper {
    match n
    case VisitPlace(p) => ZVisit(z, p)
    case GoBack => ZBack(z)
    case GoForward => ZForward(z)
  }

  lemma StepRefines(t: Trail, n: Nav)
    requires TrailOk(t)
    ensures Zip(Step(t, n)) == ZStep(Zip(t), n)
  {
    match n
    case VisitPlace(p) =>
      if Here(t) != p {
        assert t.places[..t.at] + [t.places[t.at]] == t.places[..t.at + 1];
        var r := Visit(t, p);
        assert r.places[..r.at] == Newest(t.places[..t.at + 1], HISTORY_MAX - 1);
      }
    case GoBack =>
      if CanBack(t) {
        assert t.places[t.at..] == [t.places[t.at]] + t.places[t.at + 1..];
        assert t.places[..t.at][..t.at - 1] == t.places[..t.at - 1];
      }
    case GoForward =>
      if CanForward(t) {
        assert t.places[..t.at + 1] == t.places[..t.at] + [t.places[t.at]];
        assert t.places[t.at + 1..][1..] == t.places[t.at + 2..];
      }
  }

  function Navigate(t: Trail, ns: seq<Nav>): (r: Trail)
    requires TrailOk(t)
    ensures TrailOk(r)
    decreases |ns|
  {
    if ns == [] then t else Navigate(Step(t, ns[0]), ns[1..])
  }

  function ZNavigate(z: Zipper, ns: seq<Nav>): Zipper
    decreases |ns|
  {
    if ns == [] then z else ZNavigate(ZStep(z, ns[0]), ns[1..])
  }

  /** Over any navigation the history behaves as a browser's, remembering eleven places behind. */
  lemma {:induction false} NavigationRefines(t: Trail, ns: seq<Nav>)
    requires TrailOk(t)
    ensures Zip(Navigate(t, ns)) == ZNavigate(Zip(t), ns)
    decreases |ns|
  {
    if ns != [] {
      StepRefines(t, ns[0]);
      NavigationRefines(Step(t, ns[0]), ns[1..]);
    }
  }

  function Times(n: Nav, k: nat): seq<Nav> { seq(k, _ => n) }

  /** k steps back then k steps forward, or the reverse, restore the very same history. */
  lemma {:induction false} BackThenForward(t: Trail, k: nat)
    requires TrailOk(t)
    ensures k <= t.at ==> Navigate(Navigate(t, Times(GoBack, k)), Times(GoForward, k)) == t
    ensures k < |t.places| - t.at ==> Navigate(Navigate(t, Times(GoForward, k)), Times(GoBack, k)) == t
  {
    if k <= t.at {
      MovesBack(t, k);
      MovesForward(t.(at := t.at - k), k);
    }
    if k < |t.places| - t.at {
      MovesForward(t, k);
      MovesBack(t.(at := t.at + k), k);
    }
  }

  lemma {:induction false} MovesBack(t: Trail, k: nat)
    requires TrailOk(t) && k <= t.at
    ensures Navigate(t, Times(GoBack, k)) == t.(at := t.at - k)
    decreases k
  {
    if k > 0 {
      assert Times(GoBack, k)[1..] == Times(GoBack, k - 1);
      MovesBack(Back(t), k - 1);
    }
  }

  lemma {:induction false} MovesForward(t: Trail, k: nat)
    requires TrailOk(t) && k < |t.places| - t.at
    ensures Navigate(t, Times(GoForward, k)) == t.(at := t.at + k)
    decreases k
  {
    if k > 0 {
      assert Times(GoForward, k)[1..] == Times(GoForward, k - 1);
      MovesForward(Forward(t), k - 1);
    }
  }

  // ----- the explorer's own fields

  /** One saved location, with all its directory buffers, also those beyond the depth. */
  datatype Slot = Slot(showing: bool, drive: int, depth: int, dirs: seq<string>)

  predicate SlotOk(s: Slot) { 0 <= s.depth <= MAX_DEPTH && |s.dirs| == MAX_DEPTH }

  function PlaceOf(s: Slot): Place
    requires SlotOk(s)
  {
    if s.showing then Drives else Folder(s.drive, s.dirs[..s.depth])
  }

  function Places(h: seq<Slot>): seq<Place>
    requires forall i :: 0 <= i < |h| ==> SlotOk(h[i])
  {
    seq(|h|, i requires 0 <= i < |h| => PlaceOf(h[i]))
  }

  /** str_copy into a 13-byte buffer. */
  function Cut(name: string): (c: string)
    ensures c <= name && (|c| == |name| <= 12 || (|c| == 12 && |name| > 12))
  {
    if |name| > NAME_MAX then name[..NAME_MAX] else name
  }

  class Explorer {
    var showing: bool
    var drive: int
    var depth: int
    var dirs: seq<string>
    const history: array<Slot>
    var count: int
    var index: int

    /** Buffers have their sizes; the history may still be empty and the index anything. */
    ghost predicate Shape()
      reads this, history
    {
      && history.Length == HISTORY_MAX && count <= HISTORY_MAX
      && SlotOk(Current())
      && forall i :: 0 <= i < count ==> SlotOk(history[i])
    }

    function Current(): Slot
      reads this
    {
      Slot(showing, drive, depth, dirs)
    }

    /** The history is in use and shows the place the window is at. */
    ghost predicate Valid()
      reads this, history
    {
      Shape() && 1 <= count && 0 <= index < count && PlaceOf(history[index]) == PlaceOf(Current())
    }

    ghost function View(): Trail
      requires Shape() && 0 <= count
      reads this, history
    {
      Trail(Places(history[..count]), index)
    }

    /** explorer_init and the first explorer_history_reset. */
    constructor (drive: int, path: seq<string>)
      requires |path| <= MAX_DEPTH
      ensures Valid() && fresh(history) && View() == Trail([Folder(drive, path)], 0)
    {
      this.showing, this.drive, this.depth := false, drive, |path|;
      this.dirs := path + seq(MAX_DEPTH - |path|, _ => "");
      history := new Slot[HISTORY_MAX](_ => Slot(false, 0, 0, seq(MAX_DEPTH, _ => "")));
      count, index := 0, -1;
      new;
      Reset();
      assert dirs[..depth] == path;
    }

    method Reset()
      requires Shape()
      modifies this`count, this`index, history
      ensures Valid() && View() == Trail([PlaceOf(Current())], 0)
    {
      count, index := 1, 0;
      history[0] := Current();
    }

    /** explorer_history_matches_index: entry i is the place shown now. */
    method Matches(i: int) returns (same: bool)
      requires Shape()
      ensures same <==> 0 <= i < count && PlaceOf(history[i]) == PlaceOf(Current())
    {
      if i < 0 || i >= count || history[i].showing != showing {
        return false;
      }
      if showing {
        return true;
      }
      if history[i].drive != drive || history[i].depth != depth {
        assert |history[i].dirs[..history[i].depth]| == history[i].depth && |dirs[..depth]| == depth;
        return false;
      }
      for j := 0 to depth
        invariant forall k :: 0 <= k < j ==> history[i].dirs[k] == dirs[k]
      {
        if history[i].dirs[j] != dirs[j] {
          assert history[i].dirs[..depth][j] != dirs[..depth][j];
          return false;
        }
      }
      assert history[i].dirs[..depth] == dirs[..depth];
      same := true;
    }

    method DropOldest()
      requires Shape() && count == HISTORY_MAX
      modifies history
      ensures Shape() && forall i :: 0 <= i < HISTORY_MAX - 1 ==> history[i] == old(history[i + 1])
    {
      for i := 1 to count
        invariant forall j :: 0 <= j < i - 1 ==> history[j] == old(history[j + 1])
        invariant forall j :: i - 1 <= j < HISTORY_MAX ==> history[j] == old(history[j])
      {
        history[i - 1] := history[i];
      }
    }

    /** explorer_history_commit_current; an index out of range is first pulled back into it. */
    method Commit()
      requires Shape()
      modifies this`count, this`index, history
      ensures Valid()
      ensures old(count) <= 0 ==> View() == Trail([PlaceOf(Current())], 0)
      ensures old(count) > 0 ==>
                View() == Visit(old(View()).(at := if old(index) < 0 then 0
                                                   else if old(index) >= old(count) then old(count) - 1
                                                   else old(index)), PlaceOf(Current()))
    {
      if count <= 0 {
        Reset();
        return;
      }
      if index < 0 {
        index := 0;
      }
      if index >= count {
        index := count - 1;
      }
      Record();
    }

    /** With the index in range: nothing to do at the same place, else drop what is ahead and push. */
    method Record()
      requires Shape() && 0 <= index < count
      modifies this`count, this`index, history
      ensures Valid() && View() == Visit(old(View()), PlaceOf(Current()))
    {
      var same := Matches(index);
      if same {
        return;
      }
      ghost var all := Places(history[..count]);
      count := index + 1;
      assert Places(history[..count]) == all[..index + 1];
      Push();
    }

    /** Make room when the list is full, then record the current place as its newest entry. */
    method Push()
      requires Shape() && 1 <= count
      modifies this`count, this`index, history
      ensures Valid()
      ensures var kept := old(Places(history[..count]));
              var room := if |kept| >= HISTORY_MAX then kept[1..] else kept;
              View() == Trail(room + [PlaceOf(Current())], |room|)
    {
      ghost var kept := Places(history[..count]);
      if count >= HISTORY_MAX {
        DropOldest();
        count := HISTORY_MAX - 1;
        assert Places(history[..count]) == kept[1..];
      }
      ghost var room := Places(history[..count]);
      history[count] := Current();
      index := count;
      count := count + 1;
      assert Places(history[..count]) == room + [PlaceOf(Current())];
    }

    method RestoreEntry(i: int)
      requires Shape()
      modifies this`showing, this`drive, this`depth, this`dirs
      ensures Shape()
      ensures if 0 <= i < count then PlaceOf(Current()) == PlaceOf(history[i]) else Current() == old(Current())
    {
      if i < 0 || i >= count {
        return;
      }
      var e := history[i];
      showing, drive := e.showing, e.drive;
      depth := if e.depth < 0 then 0 else if e.depth > MAX_DEPTH then MAX_DEPTH else e.depth;
      dirs := e.dirs[..depth] + seq(MAX_DEPTH - depth, _ => "");
      assert dirs[..depth] == e.dirs[..depth];
    }

    method GoBack() returns (moved: bool)
      requires Valid()
      modifies this
      ensures Valid() && View() == Back(old(View())) && moved == CanBack(old(View()))
      ensures PlaceOf(Current()) == Here(View())
    {
      if !(count > 1 && index > 0) {
        return false;
      }
      index := index - 1;
      RestoreEntry(index);
      moved := true;
    }

    method GoForward() returns (moved: bool)
      requires Valid()
      modifies this
      ensures Valid() && View() == Forward(old(View())) && moved == CanForward(old(View()))
      ensures PlaceOf(Current()) == Here(View())
    {
      if !(count > 1 && index < count - 1) {
        return false;
      }
      index := index + 1;
      RestoreEntry(index);
      moved := true;
    }

    /** Opening the selected item: a drive, a folder, or (no change of place) a file. */
    method OpenSelected(name: string, isDir: bool) returns (entered: bool)
      requires Valid()
      modifies this, history
      ensures Valid()
      ensures !entered ==> View() == old(View())
      ensures entered && old(showing) ==>
                |name| >= 2 && View() == Visit(old(View()), Folder(name[0] as int - 'A' as int, []))
      ensures entered && !old(showing) ==>
                isDir && View() == Visit(old(View()), Folder(old(drive), old(dirs)[..old(depth)] + [Cut(name)]))
      ensures entered <==> if old(showing) then |name| >= 2 && 'A' <= name[0] <= 'Z' && name[1] == ':'
                          else isDir && old(depth) < 12
    {
      if showing {
        if |name| < 2 || name[0] < 'A' || name[0] > 'Z' || name[1] != ':' {
          return false;
        }
        drive, showing, depth := name[0] as int - 'A' as int, false, 0;
        Commit();
        return true;
      }
      if !isDir || depth >= MAX_DEPTH {
        return false;
      }
      ghost var path := dirs[..depth];
      dirs := dirs[depth := Cut(name)];
      depth := depth + 1;
      assert dirs[..depth] == path + [Cut(name)];
      Commit();
      entered := true;
    }

    /** Up: the parent folder, then the list of drives. */
    method GoUp() returns (moved: bool)
      requires Valid()
      modifies this, history
      ensures Valid() && moved == !old(showing)
      ensures !moved ==> View() == old(View())
      ensures moved ==>
                View() == Visit(old(View()), if old(depth) == 0 then Drives
                                             else Folder(old(drive), old(dirs)[..old(depth) - 1]))
    {
      if showing {
        return false;
      }
      if depth <= 0 {
        showing, depth := true, 0;
        Commit();
        return true;
      }
      ghost var path := dirs[..depth - 1];
      depth := depth - 1;
      dirs := dirs[depth := ""];
      assert dirs[..depth] == path;
      Commit();
      moved := true;
    }
  }
}
