/** The editor's key handling as a state machine; dialogs and files are answers given with each key. */
module EditorModel {
  import opened Machine
  import opened EditorText
  import opened EditorSearch
  import opened EditorReplace
  import C = CyclicSearch

  const ESC: int := 27
  const ALT: int := 0x14
  const UP: int := 0x11
  const DOWN: int := 0x12
  const LEFT: int := 0x15
  const RIGHT: int := 0x16
  const MENUS: int := 4
  const ITEMS: int := 5
  const NEW_FILE: string := "UNTITLED.TXT"

  /** Single-level undo: two saved copies, at most one of them usable. */
  datatype Past = Past(undo: seq<string>, redo: seq<string>, canUndo: bool, canRedo: bool)

  datatype Menu = Menu(open: bool, index: int, item: int)

  datatype Editor = Editor(
    lines: seq<string>,
    past: Past,
    row: int,
    col: int,
    menu: Menu,
    file: string,
    isNew: bool,
    dirty: bool,
    clip: Option<string>,
    search: string)

  /** What the user answers to "save before leaving?". */
  datatype Choice = Cancel | SaveFirst | Discard

  /** The answers of dialogs and file calls while one key is handled; None is a cancelled dialog or failed read. */
  datatype Answers = Answers(
    name: Option<string>,
    bytes: Option<string>,
    writeOk: bool,
    text: Option<string>,
    second: Option<string>,
    choice: Choice)

  /** The dialog accepts printable characters only. */
  predicate AnswersOk(a: Answers) {
    (a.text.Some? ==> TextOk(a.text.value)) && (a.second.Some? ==> TextOk(a.second.value))
  }

  /** The editor, the text last made new, opened or saved, the bytes last written, and whether it has quit. */
  datatype Session = Session(ed: Editor, base: seq<string>, written: Option<string>, over: bool)

  function Start(): Session {
    Session(
      Editor(BlankGrid(), Past(BlankGrid(), BlankGrid(), false, false), 0, 0, Menu(false, 0, 0), NEW_FILE, true,
             false, None, ""),
      BlankGrid(), None, false)
  }

  predicate PastOk(p: Past) {
    && (p.canUndo ==> GridOk(p.undo))
    && (p.canRedo ==> GridOk(p.redo))
    && !(p.canUndo && p.canRedo)
  }

  predicate InGrid(row: int, col: int) { 0 <= row < ROWS && 0 <= col < COLS }

  predicate MenuPosOk(m: Menu) { 0 <= m.index < MENUS && 0 <= m.item < ITEMS }

  predicate ClipOk(c: Option<string>) { c.Some? ==> TextOk(c.value) && 0 < |c.value| <= COLS }

  predicate EditorOk(e: Editor) {
    GridOk(e.lines) && PastOk(e.past) && InGrid(e.row, e.col) && MenuPosOk(e.menu) && ClipOk(e.clip) && TextOk(e.search)
  }

  /** The invariant of every run: an editor not marked dirty shows exactly the text last new, opened or saved. */
  predicate SessionOk(s: Session) {
    EditorOk(s.ed) && (!s.ed.dirty ==> s.ed.lines == s.base)
  }

  // ----- editing

  /** Change the document, keeping the old one for Undo. */
  function Edit(e: Editor, lines: seq<string>, row: int, col: int): Editor {
    e.(past := Past(e.lines, e.past.redo, true, false), lines := lines, row := row, col := col, dirty := true)
  }

  /** A copy for Undo although nothing is going to change. */
  function Snapshot(e: Editor): Editor { e.(past := Past(e.lines, e.past.redo, true, false)) }

  function Undo(e: Editor): Editor {
    if !e.past.canUndo then e
    else e.(past := Past(e.past.undo, e.lines, false, true), lines := e.past.undo, dirty := true)
  }

  function Redo(e: Editor): Editor {
    if !e.past.canRedo then e
    else e.(past := Past(e.lines, e.past.redo, true, false), lines := e.past.redo, dirty := true)
  }

  function TypeChar(e: Editor, c: char): Editor
    requires EditorOk(e)
  {
    var g := Put(e.lines, e.row, e.col, c);
    if e.col < COLS - 1 then Edit(e, g, e.row, e.col + 1)
    else if e.row < ROWS - 1 then Edit(e, g, e.row + 1, 0)
    else Edit(e, g, e.row, e.col)
  }

  function Backspace(e: Editor): Editor
    requires EditorOk(e)
  {
    if e.col > 0 then
      Edit(e, Put(e.lines, e.row, e.col - 1, ' '), e.row, e.col - 1)
    else if e.row > 0 then
      var n := Used(e.lines[e.row - 1]);
      if n > 0 then Edit(e, Put(e.lines, e.row - 1, n - 1, ' '), e.row - 1, n - 1)
      else Snapshot(e).(row := e.row - 1, col := 0)
    else e
  }

  function CopyLine(e: Editor): Editor
    requires EditorOk(e)
  {
    var n := Used(e.lines[e.row]);
    if n == 0 then e else e.(clip := Some(e.lines[e.row][..n]))
  }

  function PasteLine(e: Editor): Editor
    requires EditorOk(e)
  {
    if e.clip == None then e
    else
      var fits := Take(e.clip.value, COLS - e.col);
      var end := e.col + |fits|;
      Edit(e, PutText(e.lines, e.row, e.col, fits), e.row, if end < COLS then end else COLS - 1)
  }

  function Substitute(e: Editor, a: Answers): Editor
    requires EditorOk(e)
  {
    if a.text == None || a.text.value == "" || a.second == None then e
    else if AnyRowHas(e.lines, a.text.value) then
      Edit(e, ReplaceRows(e.lines, a.text.value, a.second.value), e.row, e.col).(search := a.text.value)
    else Snapshot(e)
  }

  // ----- searching

  function MoveTo(e: Editor, i: int): Editor {
    if i < 0 then e else e.(row := i / COLS, col := i % COLS)
  }

  function Find(e: Editor, a: Answers): Editor
    requires EditorOk(e)
  {
    if a.text == None || a.text.value == "" then e
    else
      var i := C.FirstFrom(Matches(e.lines, a.text.value), 0);
      if i < 0 then e else MoveTo(e, i).(search := a.text.value)
  }

  function FindNext(e: Editor): Editor
    requires EditorOk(e)
  {
    if e.search == "" then e else MoveTo(e, C.Next(Matches(e.lines, e.search), Cell(e.row, e.col)))
  }

  function FindPrevious(e: Editor): Editor
    requires EditorOk(e)
  {
    if e.search == "" then e else MoveTo(e, C.Previous(Matches(e.lines, e.search), Cell(e.row, e.col)))
  }

  /** parse_positive_int: -1 unless all characters are digits. */
  function ParseDigits(s: string, value: int): int
    decreases |s|
  {
    if s == [] then value
    else if !('0' <= s[0] <= '9') then -1
    else ParseDigits(s[1..], value * 10 + (s[0] as int - '0' as int))
  }

  function ParseNumber(s: string): int { if s == [] then -1 else ParseDigits(s, 0) }

  function GoTo(e: Editor, a: Answers): Editor {
    if a.text == None then e
    else
      var target := ParseNumber(a.text.value);
      if 1 <= target <= ROWS then e.(row := target - 1) else e
  }

  // ----- files

  function NewFile(s: Session): Session {
    Session(Edit(s.ed, BlankGrid(), 0, 0).(file := NEW_FILE, isNew := true, dirty := false),
            BlankGrid(), s.written, s.over)
  }

  function OpenFile(s: Session, a: Answers): Session {
    if a.name == None || a.bytes == None then s
    else
      var d := Import(a.bytes.value);
      Session(Edit(s.ed, d.grid, d.row, d.col).(file := a.name.value, isNew := false, dirty := false),
              d.grid, s.written, s.over)
  }

  /** The document is written under `name`; on success it is the saved text. */
  function WriteFile(s: Session, name: string, ok: bool): Session {
    if !ok then s
    else Session(s.ed.(file := name, isNew := false, dirty := false), s.ed.lines, Some(Export(s.ed.lines)), s.over)
  }

  function SaveAs(s: Session, a: Answers): Session {
    if a.name == None then s else WriteFile(s, a.name.value, a.writeOk)
  }

  /** handle_exit_request: an unsaved document is asked about; a failed or cancelled save stays in the editor. */
  function RequestExit(s: Session, a: Answers): Session {
    if !s.ed.dirty then s.(over := true)
    else
      match a.choice
      case Cancel => s
      case Discard => s.(over := true)
      case SaveFirst =>
        if s.ed.isNew then
          if a.name.Some? && a.writeOk then WriteFile(s, a.name.value, true).(over := true) else s
        else if a.writeOk then
          WriteFile(s, s.ed.file, true).(over := true)
        else s
  }

  // ----- keys

  function FileMenu(s: Session, item: int, a: Answers): Session {
    if item == 0 then NewFile(s)
    else if item == 1 then OpenFile(s, a)
    else if item == 2 then WriteFile(s, s.ed.file, a.writeOk)
    else if item == 3 then SaveAs(s, a)
    else RequestExit(s, a)
  }

  function EditMenu(e: Editor, item: int): Editor
    requires EditorOk(e)
  {
    if item == 0 then CopyLine(e)
    else if item == 1 then PasteLine(e)
    else if item == 2 then e
    else if item == 3 then Undo(e)
    else Redo(e)
  }

  function SearchMenu(e: Editor, item: int, a: Answers): Editor
    requires EditorOk(e)
  {
    if item == 0 then Find(e, a)
    else if item == 1 then FindNext(e)
    else if item == 2 then FindPrevious(e)
    else if item == 3 then GoTo(e, a)
    else Substitute(e, a)
  }

  /** Enter in the menu: the menu closes and the item runs; the help menu only shows a message. */
  function RunMenu(s: Session, a: Answers): Session
    requires EditorOk(s.ed)
  {
    var m := s.ed.menu;
    var e := s.ed.(menu := m.(open := false));
    if m.index == 0 then FileMenu(s.(ed := e), m.item, a)
    else if m.index == 1 then s.(ed := EditMenu(e, m.item))
    else if m.index == 2 then s.(ed := SearchMenu(e, m.item, a))
    else s.(ed := e)
  }

  function MoveInMenu(m: Menu, key: int): Menu {
    if key == LEFT then Menu(m.open, (m.index + MENUS - 1) % MENUS, 0)
    else if key == RIGHT then Menu(m.open, (m.index + 1) % MENUS, 0)
    else if key == UP then m.(item := (m.item + ITEMS - 1) % ITEMS)
    else if key == DOWN then m.(item := (m.item + 1) % ITEMS)
    else m
  }

  function MenuKey(s: Session, key: int, a: Answers): Session
    requires EditorOk(s.ed)
  {
    if key == 13 || key == 10 then RunMenu(s, a)
    else s.(ed := s.ed.(menu := MoveInMenu(s.ed.menu, key)))
  }

  function TextKey(e: Editor, key: int): Editor
    requires EditorOk(e)
  {
    if key == UP then (if e.row > 0 then e.(row := e.row - 1) else e)
    else if key == DOWN then (if e.row < ROWS - 1 then e.(row := e.row + 1) else e)
    else if key == 13 || key == 10 then (if e.row < ROWS - 1 then e.(row := e.row + 1, col := 0) else e)
    else if key == 8 || key == 127 then Backspace(e)
    else if 32 <= key <= 126 then TypeChar(e, key as char)
    else e
  }

  function Step(s: Session, key: int, a: Answers): Session
    requires EditorOk(s.ed)
  {
    if s.over then s
    else if key == ESC then RequestExit(s, a)
    else if key == ALT then
      s.(ed := s.ed.(menu := if s.ed.menu.open then s.ed.menu.(open := false) else Menu(true, 0, 0)))
    else if s.ed.menu.open then MenuKey(s, key, a)
    else s.(ed := TextKey(s.ed, key))
  }

  // ----- what every key keeps

  lemma PutKeepsGrid(g: seq<string>, row: int, col: int, c: char)
    requires GridOk(g) && 0 <= row < ROWS && 0 <= col < COLS && Printable(c)
    ensures GridOk(Put(g, row, col, c))
  {
  }

  lemma PutTextKeepsGrid(g: seq<string>, row: int, col: int, s: string)
    requires GridOk(g) && 0 <= row < ROWS && 0 <= col && col + |s| <= COLS && TextOk(s)
    ensures GridOk(PutText(g, row, col, s))
  {
  }

  /** A step inside the document: well-formed, and dirty unless it left the text alone. */
  predicate Follows(e: Editor, n: Editor) {
    EditorOk(n) && (!n.dirty ==> !e.dirty && n.lines == e.lines)
  }

  lemma FollowsOk(s: Session, n: Editor)
    requires SessionOk(s) && Follows(s.ed, n)
    ensures SessionOk(s.(ed := n))
  {
  }

  lemma EditOk(e: Editor, g: seq<string>, row: int, col: int)
    requires EditorOk(e) && GridOk(g) && InGrid(row, col)
    ensures Follows(e, Edit(e, g, row, col))
  {
  }

  lemma TypeCharOk(e: Editor, c: char)
    requires EditorOk(e) && Printable(c)
    ensures Follows(e, TypeChar(e, c)) && TypeChar(e, c).dirty
  {
    var g := Put(e.lines, e.row, e.col, c);
    PutKeepsGrid(e.lines, e.row, e.col, c);
    EditOk(e, g, TypeChar(e, c).row, TypeChar(e, c).col);
  }

  lemma BackspaceOk(e: Editor)
    requires EditorOk(e)
    ensures Follows(e, Backspace(e))
    ensures Backspace(e).dirty <==> e.dirty || e.col > 0 || (e.row > 0 && Used(e.lines[e.row - 1]) > 0)
  {
    if e.col > 0 {
      PutKeepsGrid(e.lines, e.row, e.col - 1, ' ');
    } else if e.row > 0 {
      var n := Used(e.lines[e.row - 1]);
      if n > 0 {
        PutKeepsGrid(e.lines, e.row - 1, n - 1, ' ');
      }
    }
  }

  lemma TextKeyOk(e: Editor, key: int)
    requires EditorOk(e)
    ensures Follows(e, TextKey(e, key))
  {
    if 32 <= key <= 126 {
      TypeCharOk(e, key as char);
    } else if key == 8 || key == 127 {
      BackspaceOk(e);
    }
  }

  lemma PasteOk(e: Editor)
    requires EditorOk(e)
    ensures Follows(e, PasteLine(e)) && (PasteLine(e).dirty <==> e.dirty || e.clip.Some?)
  {
    if e.clip.Some? {
      PutTextKeepsGrid(e.lines, e.row, e.col, Take(e.clip.value, COLS - e.col));
    }
  }

  lemma EditMenuOk(e: Editor, item: int)
    requires EditorOk(e)
    ensures Follows(e, EditMenu(e, item))
  {
    PasteOk(e);
  }

  /** Both dialogs were answered, the first with some text. */
  predicate ReplaceAsked(a: Answers) { a.text.Some? && a.text.value != "" && a.second.Some? }

  lemma SubstituteOk(e: Editor, a: Answers)
    requires EditorOk(e) && AnswersOk(a)
    ensures Follows(e, Substitute(e, a))
    ensures Substitute(e, a).dirty <==> e.dirty || (ReplaceAsked(a) && AnyRowHas(e.lines, a.text.value))
  {
    if ReplaceAsked(a) {
      forall i | 0 <= i < ROWS
        ensures LineOk(ReplaceRow(e.lines[i], a.text.value, a.second.value))
      {
        RowIsPrintable(e.lines[i], a.text.value, a.second.value);
      }
    }
  }

  lemma MoveToOk(e: Editor, i: int)
    requires EditorOk(e) && i < CELLS
    ensures Follows(e, MoveTo(e, i))
  {
  }

  lemma SearchMenuOk(e: Editor, item: int, a: Answers)
    requires EditorOk(e) && AnswersOk(a)
    ensures Follows(e, SearchMenu(e, item, a))
  {
    if item == 0 {
      if a.text.Some? && a.text.value != "" {
        MoveToOk(e, C.FirstFrom(Matches(e.lines, a.text.value), 0));
      }
    } else if item == 1 {
      MoveToOk(e, C.Next(Matches(e.lines, e.search), Cell(e.row, e.col)));
    } else if item == 2 {
      MoveToOk(e, C.Previous(Matches(e.lines, e.search), Cell(e.row, e.col)));
    } else if item != 3 {
      SubstituteOk(e, a);
    }
  }

  lemma ImportOk(data: string)
    ensures GridOk(Import(data).grid)
  {
    ImportIsPrintable(Doc(BlankGrid(), 0, 0), data);
  }

  lemma OpenOk(s: Session, a: Answers)
    requires SessionOk(s)
    ensures SessionOk(OpenFile(s, a))
  {
    if a.bytes.Some? {
      ImportOk(a.bytes.value);
    }
  }

  lemma NewOk(s: Session)
    requires SessionOk(s)
    ensures SessionOk(NewFile(s))
  {
  }

  lemma WriteOk(s: Session, name: string, ok: bool)
    requires SessionOk(s)
    ensures SessionOk(WriteFile(s, name, ok))
  {
  }

  lemma ExitOk(s: Session, a: Answers)
    requires SessionOk(s)
    ensures SessionOk(RequestExit(s, a))
  {
    WriteOk(s, s.ed.file, true);
    if a.name.Some? {
      WriteOk(s, a.name.value, true);
    }
  }

  lemma FileMenuOk(s: Session, item: int, a: Answers)
    requires SessionOk(s)
    ensures SessionOk(FileMenu(s, item, a))
  {
    if item == 0 {
      NewOk(s);
    } else if item == 1 {
      OpenOk(s, a);
    } else if item == 2 {
      WriteOk(s, s.ed.file, a.writeOk);
    } else if item == 3 {
      if a.name.Some? { WriteOk(s, a.name.value, a.writeOk); }
    } else {
      ExitOk(s, a);
    }
  }

  lemma RunMenuOk(s: Session, a: Answers)
    requires SessionOk(s) && AnswersOk(a)
    ensures SessionOk(RunMenu(s, a))
  {
    var m := s.ed.menu;
    var e := s.ed.(menu := m.(open := false));
    if m.index == 0 {
      FileMenuOk(s.(ed := e), m.item, a);
    } else if m.index == 1 {
      EditMenuOk(e, m.item);
      FollowsOk(s.(ed := e), EditMenu(e, m.item));
    } else if m.index == 2 {
      SearchMenuOk(e, m.item, a);
      FollowsOk(s.(ed := e), SearchMenu(e, m.item, a));
    }
  }

  lemma StepOk(s: Session, key: int, a: Answers)
    requires SessionOk(s) && AnswersOk(a)
    ensures SessionOk(Step(s, key, a))
  {
    if s.over {
    } else if key == ESC {
      ExitOk(s, a);
    } else if key == ALT {
    } else if s.ed.menu.open {
      if key == 13 || key == 10 {
        RunMenuOk(s, a);
      }
    } else {
      TextKeyOk(s.ed, key);
      FollowsOk(s, TextKey(s.ed, key));
    }
  }

  datatype Press = Press(key: int, answers: Answers)

  function Run(s: Session, ps: seq<Press>): Session
    requires SessionOk(s) && forall i :: 0 <= i < |ps| ==> AnswersOk(ps[i].answers)
    decreases |ps|
  {
    if ps == [] then s
    else
      StepOk(s, ps[0].key, ps[0].answers);
      Run(Step(s, ps[0].key, ps[0].answers), ps[1..])
  }

  /** Over every sequence of keys and answers the invariant holds. */
  lemma {:induction false} RunOk(s: Session, ps: seq<Press>)
    requires SessionOk(s) && forall i :: 0 <= i < |ps| ==> AnswersOk(ps[i].answers)
    ensures SessionOk(Run(s, ps))
    decreases |ps|
  {
    if ps != [] {
      StepOk(s, ps[0].key, ps[0].answers);
      RunOk(Step(s, ps[0].key, ps[0].answers), ps[1..]);
    }
  }

  lemma StartedRunOk(ps: seq<Press>)
    requires forall i :: 0 <= i < |ps| ==> AnswersOk(ps[i].answers)
    ensures SessionOk(Start()) && SessionOk(Run(Start(), ps))
  {
    RunOk(Start(), ps);
  }

  // ----- leaving without losing anything

  /** A key that ends the session leaves the saved text on screen, unless the user chose to discard. */
  lemma ExitLosesNothing(s: Session, key: int, a: Answers)
    requires SessionOk(s) && AnswersOk(a) && !s.over && Step(s, key, a).over
    ensures Step(s, key, a).ed.lines == s.ed.lines
    ensures Step(s, key, a).base == s.ed.lines || (s.ed.dirty && a.choice == Discard)
  {
  }

  // ----- undo and redo

  /** Undo then Redo gives back the document, the cursor and everything but the redo copy and the dirty mark. */
  lemma UndoRedo(e: Editor)
    requires EditorOk(e)
    ensures e.past.canUndo ==> Redo(Undo(e)) == e.(past := e.past.(redo := e.lines), dirty := true)
    ensures e.past.canRedo ==> Undo(Redo(e)) == e.(past := e.past.(undo := e.lines), dirty := true)
  {
  }

  /** A command either leaves the document alone or keeps the old one for Undo. */
  predicate Undoable(e: Editor, n: Editor) {
    n.lines == e.lines || (n.past.canUndo && n.past.undo == e.lines)
  }

  lemma UndoTakesBack(e: Editor, n: Editor)
    requires Undoable(e, n) && n.lines != e.lines
    ensures Undo(n).lines == e.lines
  {
  }

  lemma TextKeyUndoable(e: Editor, key: int)
    requires EditorOk(e)
    ensures Undoable(e, TextKey(e, key))
  {
  }

  /** Enter on the Undo item of the open menu. */
  predicate ChoosesUndo(s: Session, key: int) {
    s.ed.menu.open && (key == 13 || key == 10) && s.ed.menu.index == 1 && s.ed.menu.item == 3
  }

  lemma MenuUndoable(s: Session, a: Answers)
    requires EditorOk(s.ed) && !(s.ed.menu.index == 1 && s.ed.menu.item == 3)
    ensures Undoable(s.ed, RunMenu(s, a).ed)
  {
    var m := s.ed.menu;
    var e := s.ed.(menu := m.(open := false));
    if m.index == 1 {
      assert Undoable(e, EditMenu(e, m.item));
    } else if m.index == 2 {
      assert Undoable(e, SearchMenu(e, m.item, a));
    }
  }

  /**
   Whatever one key does to the document, one command takes it back: Redo if the key chose Undo in the
   menu, Undo for any other key, including New, Open, Paste, Redo and Replace.
   */
  lemma OneCommandTakesBack(s: Session, key: int, a: Answers)
    requires EditorOk(s.ed) && Step(s, key, a).ed.lines != s.ed.lines
    ensures var n := Step(s, key, a).ed;
            if ChoosesUndo(s, key) then Redo(n).lines == s.ed.lines else Undo(n).lines == s.ed.lines
  {
    if key != ESC && key != ALT && s.ed.menu.open && !ChoosesUndo(s, key) {
      assert key == 13 || key == 10;
      MenuUndoable(s, a);
      UndoTakesBack(s.ed, RunMenu(s, a).ed);
    } else if key != ESC && key != ALT && !s.ed.menu.open {
      TextKeyUndoable(s.ed, key);
      UndoTakesBack(s.ed, TextKey(s.ed, key));
    }
  }

  // ----- saving and reading back

  /**
   Saving a document and opening the bytes that were written shows the same document exactly when no row
   before the last non-blank one is full; the bytes always fit the editor's buffer.
   */
  lemma SaveThenOpen(s: Session, name: string, a: Answers)
    requires SessionOk(s) && a.name.Some?
    requires a.bytes == WriteFile(s, name, true).written
    ensures |a.bytes.value| < MAX_FILE_BYTES
    ensures OpenFile(WriteFile(s, name, true), a).ed.lines == s.ed.lines <==>
            forall r :: 0 <= r < LastRow(s.ed.lines) ==> Used(s.ed.lines[r]) < COLS
  {
    ExportFits(s.ed.lines);
    RoundTrip(s.ed.lines);
  }
}
