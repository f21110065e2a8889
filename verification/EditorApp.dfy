/** The editor program: grids and flags updated in place by each key, proved against EditorModel. */
module EditorApp {
  import opened Machine
  import opened EditorText
  import opened EditorSearch
  import opened EditorReplace
  import M = EditorModel

  class EditorApp {
    const lines: array<string>
    const undoLines: array<string>
    const redoLines: array<string>
    const fileBuffer: array<char>
    var canUndo: bool
    var canRedo: bool
    var row: int
    var col: int
    var menuOpen: bool
    var menuIndex: int
    var menuItem: int
    var file: string
    var isNew: bool
    var dirty: bool
    var clip: string
    var hasClip: bool
    var search: string
    var over: bool
    ghost var base: seq<string>
    ghost var written: Option<string>

    ghost function Document(): M.Editor
      reads this, lines, undoLines, redoLines
    {
      M.Editor(lines[..], M.Past(undoLines[..], redoLines[..], canUndo, canRedo), row, col,
               M.Menu(menuOpen, menuIndex, menuItem), file, isNew, dirty, if hasClip then Some(clip) else None, search)
    }

    ghost function View(): M.Session
      reads this, lines, undoLines, redoLines
    {
      M.Session(Document(), base, written, over)
    }

    ghost predicate Shape()
      reads this
    {
      && lines.Length == ROWS && undoLines.Length == ROWS && redoLines.Length == ROWS
      && fileBuffer.Length == MAX_FILE_BYTES
      && lines != undoLines && lines != redoLines && undoLines != redoLines
    }

    ghost predicate Valid()
      reads this, lines, undoLines, redoLines
    {
      Shape() && M.SessionOk(View())
    }

    constructor ()
      ensures Valid() && View() == M.Start()
      ensures fresh(lines) && fresh(undoLines) && fresh(redoLines) && fresh(fileBuffer)
    {
      lines := new string[ROWS](_ => Blank());
      undoLines := new string[ROWS](_ => Blank());
      redoLines := new string[ROWS](_ => Blank());
      fileBuffer := new char[MAX_FILE_BYTES](_ => ' ');
      canUndo, canRedo, row, col := false, false, 0, 0;
      menuOpen, menuIndex, menuItem := false, 0, 0;
      file, isNew, dirty := M.NEW_FILE, true, false;
      clip, hasClip, search, over := "", false, "", false;
      base, written := BlankGrid(), None;
      new;
      assert lines[..] == BlankGrid() && undoLines[..] == BlankGrid() && redoLines[..] == BlankGrid();
    }

    method SetCursor(r: int, c: int)
      requires Shape()
      modifies this`row, this`col
      ensures Shape() && View() == old(View()).(ed := old(Document()).(row := r, col := c))
    {
      row := r;
      col := c;
    }

    /** The lines on screen now are the text on record under this name. */
    method MarkClean(name: string, unnamed: bool)
      requires Shape()
      modifies this`file, this`isNew, this`dirty, this`base
      ensures Shape()
      ensures View() == M.Session(old(Document()).(file := name, isNew := unnamed, dirty := false),
                                  old(lines[..]), old(written), old(over))
    {
      base := lines[..];
      file := name;
      isNew := unnamed;
      dirty := false;
    }

    // ----- undo copies

    static method CopyLines(dst: array<string>, src: array<string>)
      requires dst != src && dst.Length == src.Length == ROWS
      modifies dst
      ensures dst[..] == src[..] == old(src[..])
    {
      for r := 0 to ROWS
        invariant forall i :: 0 <= i < r ==> dst[i] == src[i]
        invariant src[..] == old(src[..])
      {
        dst[r] := src[r];
      }
    }

    method PushSnapshot()
      requires Shape()
      modifies this`canUndo, this`canRedo, undoLines
      ensures Shape() && View() == old(View()).(ed := M.Snapshot(old(Document())))
    {
      CopyLines(undoLines, lines);
      canUndo, canRedo := true, false;
    }

    method UndoOnce()
      requires Valid()
      modifies this`canUndo, this`canRedo, this`dirty, lines, redoLines
      ensures Shape() && View() == old(View()).(ed := M.Undo(old(Document())))
    {
      if canUndo {
        CopyLines(redoLines, lines);
        canRedo := true;
        CopyLines(lines, undoLines);
        canUndo, dirty := false, true;
      }
    }

    method RedoOnce()
      requires Valid()
      modifies this`canUndo, this`canRedo, this`dirty, lines, undoLines
      ensures Shape() && View() == old(View()).(ed := M.Redo(old(Document())))
    {
      if canRedo {
        CopyLines(undoLines, lines);
        canUndo := true;
        CopyLines(lines, redoLines);
        canRedo, dirty := false, true;
      }
    }

    // ----- typing

    method PutCell(r: int, c: int, ch: char)
      requires Shape() && M.EditorOk(Document()) && M.InGrid(r, c)
      modifies lines
      ensures lines[..] == Put(old(lines[..]), r, c, ch)
    {
      assert lines[..][r] == lines[r];
      lines[r] := lines[r][c := ch];
    }

    method InsertChar(ch: char)
      requires Valid()
      modifies this, lines, undoLines
      ensures Shape() && View() == old(View()).(ed := M.TypeChar(old(Document()), ch))
    {
      PushSnapshot();
      PutCell(row, col, ch);
      dirty := true;
      if col < COLS - 1 {
        col := col + 1;
      } else if row < ROWS - 1 {
        row, col := row + 1, 0;
      }
    }

    /** Blank one cell and leave the cursor on it. */
    method EraseCell(r: int, c: int)
      requires Valid() && M.InGrid(r, c)
      modifies this, lines, undoLines
      ensures Shape()
      ensures View() == old(View()).(ed := M.Edit(old(Document()), Put(old(lines[..]), r, c, ' '), r, c))
    {
      PushSnapshot();
      SetCursor(r, c);
      PutCell(r, c, ' ');
      dirty := true;
    }

    method EraseChar()
      requires Valid()
      modifies this, lines, undoLines
      ensures Shape() && View() == old(View()).(ed := M.Backspace(old(Document())))
    {
      if col > 0 {
        EraseCell(row, col - 1);
      } else if row > 0 {
        assert lines[row - 1] == lines[..][row - 1];
        var used := UsedLength(lines[row - 1]);
        if used > 0 {
          EraseCell(row - 1, used - 1);
        } else {
          PushSnapshot();
          SetCursor(row - 1, 0);
        }
      }
    }

    method CopyCurrentLine()
      requires Valid()
      modifies this`clip, this`hasClip
      ensures Shape() && View() == old(View()).(ed := M.CopyLine(old(Document())))
    {
      assert lines[row] == lines[..][row];
      var len := UsedLength(lines[row]);
      if len > 0 {
        clip := lines[row][..len];
        hasClip := true;
      }
    }

    /** paste_on_current_line: overwrite from a column until the text or the line ends. */
    static method WriteOver(g: array<string>, r: int, c: int, text: string) returns (end: int)
      requires g.Length == ROWS && M.InGrid(r, c) && |g[r]| == COLS
      modifies g
      ensures var fits := Take(text, COLS - c);
              g[..] == PutText(old(g[..]), r, c, fits) && end == c + |fits|
    {
      ghost var line := g[r];
      ghost var before := g[..];
      ghost var fits := Take(text, COLS - c);
      var i := 0;
      assert Over(line, c, fits[..0]) == line;
      while i < |text| && c + i < COLS
        invariant 0 <= i <= |fits|
        invariant g[r] == Over(line, c, fits[..i])
        invariant forall j :: 0 <= j < ROWS && j != r ==> g[j] == before[j]
      {
        OverNext(line, c, fits, i);
        g[r] := g[r][c + i := text[i]];
        i := i + 1;
      }
      assert fits[..i] == fits;
      end := c + i;
    }

    method PasteClip()
      requires Valid()
      modifies this`canUndo, this`canRedo, this`dirty, this`col, lines, undoLines
      ensures Shape() && View() == old(View()).(ed := M.PasteLine(old(Document())))
    {
      if !hasClip {
        return;
      }
      PushSnapshot();
      assert lines[row] == lines[..][row];
      var end := WriteOver(lines, row, col, clip);
      dirty := true;
      col := if end < COLS then end else COLS - 1;
    }

    // ----- searching and replacing

    method MoveCursor(found: Option<int>)
      requires Shape()
      modifies this`row, this`col
      ensures View() == old(View()).(ed := M.MoveTo(old(Document()), if found == None then -1 else found.value))
      ensures Shape()
    {
      if found.Some? && found.value >= 0 {
        row, col := found.value / COLS, found.value % COLS;
      }
    }

    method FindText(a: M.Answers)
      requires Valid()
      modifies this`row, this`col, this`search
      ensures Shape() && View() == old(View()).(ed := M.Find(old(Document()), a))
    {
      if a.text == None || a.text.value == "" {
        return;
      }
      var found := FindForward(lines[..], a.text.value, 0, 0);
      if found.Some? {
        MoveCursor(found);
        search := a.text.value;
      }
    }

    method FindAgain(forward: bool)
      requires Valid()
      modifies this`row, this`col
      ensures Shape()
      ensures View() == old(View()).(ed := if forward then M.FindNext(old(Document()))
                                           else M.FindPrevious(old(Document())))
    {
      if search == "" {
        return;
      }
      var found;
      if forward {
        found := SearchNext(lines[..], search, row, col);
      } else {
        found := SearchPrevious(lines[..], search, row, col);
      }
      MoveCursor(found);
    }

    static method ParsePositive(text: string) returns (value: int)
      ensures value == M.ParseNumber(text)
    {
      if text == [] {
        return -1;
      }
      value := 0;
      for i := 0 to |text|
        invariant M.ParseDigits(text, 0) == M.ParseDigits(text[i..], value)
      {
        if text[i] < '0' || text[i] > '9' {
          return -1;
        }
        assert text[i..][1..] == text[i + 1..];
        value := value * 10 + (text[i] as int - '0' as int);
      }
    }

    method GoToLine(a: M.Answers)
      requires Valid()
      modifies this`row
      ensures Shape() && View() == old(View()).(ed := M.GoTo(old(Document()), a))
    {
      if a.text.Some? {
        var target := ParsePositive(a.text.value);
        if 1 <= target <= ROWS {
          row := target - 1;
        }
      }
    }

    method ReplaceEverywhere(a: M.Answers)
      requires Valid()
      modifies this`canUndo, this`canRedo, this`dirty, this`search, lines, undoLines
      ensures Shape() && View() == old(View()).(ed := M.Substitute(old(Document()), a))
    {
      if a.text == None || a.text.value == "" || a.second == None {
        return;
      }
      PushSnapshot();
      ghost var g := lines[..];
      assert forall i :: 0 <= i < ROWS ==> lines[i] == g[i];
      var total := ReplaceAll(lines, a.text.value, a.second.value);
      if total > 0 {
        dirty := true;
        search := a.text.value;
      }
    }

    // ----- files

    static method BlankLines(g: array<string>)
      requires g.Length == ROWS
      modifies g
      ensures g[..] == BlankGrid()
    {
      for r := 0 to ROWS
        invariant forall i :: 0 <= i < r ==> g[i] == Blank()
      {
        g[r] := Blank();
      }
    }

    method NewDocument()
      requires Valid()
      modifies this, lines, undoLines
      ensures Shape() && View() == M.NewFile(old(View()))
    {
      PushSnapshot();
      BlankLines(lines);
      SetCursor(0, 0);
      MarkClean(M.NEW_FILE, true);
    }

    method OpenDocument(a: M.Answers)
      requires Valid()
      modifies this, lines, undoLines
      ensures Shape() && View() == M.OpenFile(old(View()), a)
    {
      if a.name == None || a.bytes == None {
        return;
      }
      PushSnapshot();
      ghost var d := Import(a.bytes.value);
      var r, c := ImportBuffer(lines, a.bytes.value);
      assert lines[..] == d.grid && r == d.row && c == d.col;
      SetCursor(r, c);
      MarkClean(a.name.value, false);
    }

    /** The whole export always fits the file buffer. */
    method ExportWhole() returns (n: int)
      requires Valid()
      modifies fileBuffer
      ensures Shape() && View() == old(View())
      ensures 0 <= n <= fileBuffer.Length && fileBuffer[..n] == Export(lines[..])
    {
      ExportFits(lines[..]);
      n := ExportBuffer(lines, fileBuffer);
      assert Export(lines[..])[..n] == Export(lines[..]);
    }

    method WriteDocument(name: string, ok: bool)
      requires Valid()
      modifies this`file, this`isNew, this`dirty, this`base, this`written, fileBuffer
      ensures Shape() && View() == M.WriteFile(old(View()), name, ok)
    {
      var n := ExportWhole();
      if ok {
        MarkClean(name, false);
        written := Some(fileBuffer[..n]);
      }
    }

    method ExitRequest(a: M.Answers)
      requires Valid()
      modifies this`file, this`isNew, this`dirty, this`over, this`base, this`written, fileBuffer
      ensures Shape() && View() == M.RequestExit(old(View()), a)
    {
      if !dirty || a.choice == M.Discard {
        over := true;
        return;
      }
      if a.choice == M.Cancel {
        return;
      }
      if isNew {
        if a.name.Some? {
          WriteDocument(a.name.value, a.writeOk);
          over := over || a.writeOk;
        }
        return;
      }
      WriteDocument(file, a.writeOk);
      over := over || a.writeOk;
    }

    // ----- keys

    method FileCommand(item: int, a: M.Answers)
      requires Valid()
      modifies this, lines, undoLines, fileBuffer
      ensures Shape() && View() == M.FileMenu(old(View()), item, a)
    {
      if item == 0 {
        NewDocument();
      } else if item == 1 {
        OpenDocument(a);
      } else if item == 2 {
        WriteDocument(file, a.writeOk);
      } else if item == 3 {
        if a.name.Some? {
          WriteDocument(a.name.value, a.writeOk);
        }
      } else {
        ExitRequest(a);
      }
    }

    method EditCommand(item: int)
      requires Valid()
      modifies this, lines, undoLines, redoLines
      ensures Shape() && View() == old(View()).(ed := M.EditMenu(old(Document()), item))
    {
      if item == 0 {
        CopyCurrentLine();
      } else if item == 1 {
        PasteClip();
      } else if item == 2 {
      } else if item == 3 {
        UndoOnce();
      } else {
        RedoOnce();
      }
    }

    method SearchCommand(item: int, a: M.Answers)
      requires Valid()
      modifies this, lines, undoLines
      ensures Shape() && View() == old(View()).(ed := M.SearchMenu(old(Document()), item, a))
    {
      if item == 0 {
        FindText(a);
      } else if item == 1 {
        FindAgain(true);
      } else if item == 2 {
        FindAgain(false);
      } else if item == 3 {
        GoToLine(a);
      } else {
        ReplaceEverywhere(a);
      }
    }

    method MenuEnter(a: M.Answers)
      requires Valid()
      modifies this, lines, undoLines, redoLines, fileBuffer
      ensures Shape() && View() == M.RunMenu(old(View()), a)
    {
      menuOpen := false;
      if menuIndex == 0 {
        FileCommand(menuItem, a);
      } else if menuIndex == 1 {
        EditCommand(menuItem);
      } else if menuIndex == 2 {
        SearchCommand(menuItem, a);
      }
    }

    method MenuMove(key: int)
      requires Valid()
      modifies this`menuIndex, this`menuItem
      ensures Shape()
      ensures View() == old(View()).(ed := old(Document()).(menu := M.MoveInMenu(old(Document()).menu, key)))
    {
      if key == M.LEFT {
        menuIndex, menuItem := (menuIndex + M.MENUS - 1) % M.MENUS, 0;
      } else if key == M.RIGHT {
        menuIndex, menuItem := (menuIndex + 1) % M.MENUS, 0;
      } else if key == M.UP {
        menuItem := (menuItem + M.ITEMS - 1) % M.ITEMS;
      } else if key == M.DOWN {
        menuItem := (menuItem + 1) % M.ITEMS;
      }
    }

    method DocumentKey(key: int)
      requires Valid()
      modifies this, lines, undoLines
      ensures Shape() && View() == old(View()).(ed := M.TextKey(old(Document()), key))
    {
      if key == M.UP {
        row := if row > 0 then row - 1 else row;
      } else if key == M.DOWN {
        row := if row < ROWS - 1 then row + 1 else row;
      } else if key == 13 || key == 10 {
        if row < ROWS - 1 {
          row, col := row + 1, 0;
        }
      } else if key == 8 || key == 127 {
        EraseChar();
      } else if 32 <= key <= 126 {
        InsertChar(key as char);
      }
    }

    /** One turn of the main loop. */
    method HandleKey(key: int, a: M.Answers)
      requires Valid() && M.AnswersOk(a)
      modifies this, lines, undoLines, redoLines, fileBuffer
      ensures Valid() && View() == M.Step(old(View()), key, a)
    {
      M.StepOk(View(), key, a);
      if over {
        return;
      }
      if key == M.ESC {
        ExitRequest(a);
      } else if key == M.ALT {
        menuOpen := !menuOpen;
        if menuOpen {
          menuIndex, menuItem := 0, 0;
        }
      } else if menuOpen {
        if key == 13 || key == 10 {
          MenuEnter(a);
        } else {
          MenuMove(key);
        }
      } else {
        DocumentKey(key);
      }
    }
  }

  lemma OverNext(line: string, col: int, s: string, i: int)
    requires 0 <= col && 0 <= i < |s| && col + |s| <= |line|
    ensures Over(line, col, s[..i])[col + i := s[i]] == Over(line, col, s[..i + 1])
  {
  }
}
