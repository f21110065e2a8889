/** What each key and command does, said of the cells of the document and of the cursor. */
module EditorKeys {
  import opened Basics
  import opened Machine
  import opened EditorText
  import opened EditorSearch
  import opened EditorReplace
  import opened EditorModel
  import C = CyclicSearch

  /** The two documents differ at most in one cell, which holds c in the second. */
  ghost predicate OneCell(g: seq<string>, h: seq<string>, row: int, col: int, c: char)
    requires GridOk(g) && GridOk(h)
  {
    forall r, k :: 0 <= r < ROWS && 0 <= k < COLS ==> h[r][k] == if r == row && k == col then c else g[r][k]
  }

  /** A printable key puts its character in the cell under the cursor, which moves on in reading order. */
  lemma TypedCharacter(e: Editor, key: int)
    requires EditorOk(e) && 32 <= key <= 126
    ensures var n := TextKey(e, key);
            && EditorOk(n) && OneCell(e.lines, n.lines, e.row, e.col, key as char)
            && 78 * n.row + n.col == Min(78 * e.row + e.col + 1, 78 * 24 - 1)
            && n.dirty && n.past.canUndo && n.past.undo == e.lines
            && n == e.(lines := n.lines, row := n.row, col := n.col, past := n.past, dirty := true)
  {
    TypeCharOk(e, key as char);
  }

  /** The cell a backspace blanks: the one before the cursor, or the last used one of the row above. */
  predicate ErasedCell(e: Editor, row: int, col: int)
    requires EditorOk(e)
  {
    if e.col > 0 then row == e.row && col == e.col - 1
    else e.row > 0 && row == e.row - 1 && 0 <= col < COLS && e.lines[row][col] != ' '
         && forall k :: col < k < COLS ==> e.lines[row][k] == ' '
  }

  /** A backspace blanks exactly that cell and leaves the cursor on it; without one it moves up at most. */
  lemma ErasedCharacter(e: Editor, key: int)
    requires EditorOk(e) && (key == 8 || key == 127)
    ensures var n := TextKey(e, key);
            && EditorOk(n)
            && (forall row, col :: ErasedCell(e, row, col) ==>
                  && OneCell(e.lines, n.lines, row, col, ' ') && n.row == row && n.col == col && n.dirty)
            && ((forall row, col :: !ErasedCell(e, row, col)) ==>
                  n.lines == e.lines && n.row == Max(e.row - 1, 0) && n.col == 0 && n.dirty == e.dirty)
  {
    BackspaceOk(e);
    var n := TextKey(e, key);
    if e.col > 0 {
      assert ErasedCell(e, e.row, e.col - 1);
    } else if e.row > 0 {
      var u := Used(e.lines[e.row - 1]);
      if u > 0 {
        assert ErasedCell(e, e.row - 1, u - 1);
        forall row, col | ErasedCell(e, row, col) ensures row == e.row - 1 && col == u - 1 { }
      } else {
        forall row, col ensures !ErasedCell(e, row, col) { }
      }
    }
  }

  /** A paste overwrites from the cursor with exactly the clip's characters that fit, and ends behind them. */
  lemma PastedLine(e: Editor)
    requires EditorOk(e)
    ensures var n := PasteLine(e);
            && EditorOk(n) && (e.clip == None ==> n == e)
            && (e.clip.Some? ==>
                  var t := e.clip.value;
                  && n.row == e.row && n.col == Min(e.col + |t|, 77) && n.dirty
                  && forall r, k :: 0 <= r < ROWS && 0 <= k < COLS ==>
                       n.lines[r][k] == if r == e.row && e.col <= k < e.col + |t| then t[k - e.col] else e.lines[r][k])
  {
    PasteOk(e);
  }

  /** Copying takes the cursor's line without its trailing blanks; a blank line is not taken. */
  lemma CopiedLine(e: Editor)
    requires EditorOk(e)
    ensures var n := CopyLine(e);
            && n == e.(clip := n.clip)
            && ((forall k :: 0 <= k < COLS ==> e.lines[e.row][k] == ' ') ==> n == e)
            && (!(forall k :: 0 <= k < COLS ==> e.lines[e.row][k] == ' ') ==>
                  && n.clip.Some? && 0 < |n.clip.value| <= COLS && n.clip.value == e.lines[e.row][..|n.clip.value|]
                  && n.clip.value[|n.clip.value| - 1] != ' '
                  && forall k :: |n.clip.value| <= k < COLS ==> e.lines[e.row][k] == ' ')
  {
  }

  /** The other keys of the document: arrows and Enter move the cursor inside the grid, the rest do nothing. */
  lemma CursorKeys(e: Editor, key: int)
    requires EditorOk(e) && !(32 <= key <= 126) && key != 8 && key != 127
    ensures var n := TextKey(e, key);
            n == if key == 0x11 then e.(row := Max(e.row - 1, 0))
                 else if key == 0x12 then e.(row := Min(e.row + 1, 23))
                 else if (key == 13 || key == 10) && e.row < 23 then e.(row := e.row + 1, col := 0)
                 else e
  {
  }

  /** With nothing to take back or do again the commands change nothing; otherwise exactly one of the two is left. */
  lemma UndoAndRedo(e: Editor)
    requires EditorOk(e)
    ensures !e.past.canUndo ==> Undo(e) == e
    ensures !e.past.canRedo ==> Redo(e) == e
    ensures e.past.canUndo ==>
              Undo(e).lines == e.past.undo && Undo(e).past.canRedo && !Undo(e).past.canUndo && Undo(e).dirty
              && Undo(e).row == e.row && Undo(e).col == e.col
    ensures e.past.canRedo ==>
              Redo(e).lines == e.past.redo && Redo(e).past.canUndo && !Redo(e).past.canRedo && Redo(e).dirty
              && Redo(e).row == e.row && Redo(e).col == e.col
  {
  }

  /** Replace puts the second answer for every occurrence of the first, row by row, and remembers the first. */
  lemma Substituted(e: Editor, a: Answers)
    requires EditorOk(e) && AnswersOk(a)
    ensures var n := Substitute(e, a);
            && (!ReplaceAsked(a) ==> n == e)
            && (ReplaceAsked(a) ==>
                  && |n.lines| == ROWS && n.row == e.row && n.col == e.col
                  && n.past.canUndo && n.past.undo == e.lines
                  && (forall r :: 0 <= r < ROWS ==>
                        n.lines[r] == ReplaceRow(e.lines[r], a.text.value, a.second.value))
)            && (ReplaceAsked(a) && AnyRowHas(e.lines, a.text.value) ==> n.search == a.text.value && n.dirty)
            && (ReplaceAsked(a) && !AnyRowHas(e.lines, a.text.value) ==> n.lines == e.lines && n.search == e.search)
  {
    SubstituteOk(e, a);
    if ReplaceAsked(a) {
      NoneCountedInAll(e.lines, a.text.value, a.second.value);
      assert !AnyRowHas(e.lines, a.text.value) ==>
          forall r :: 0 <= r < ROWS ==> ReplaceRows(e.lines, a.text.value, a.second.value)[r] == e.lines[r];
    }
  }

  // ----- searching and going to a line

  /** The number of a cell in reading order. */
  function Place(row: int, col: int): int { 78 * row + col }

  /** The query occurs, up to case, at a cell of a row's used part. */
  ghost predicate Found(g: seq<string>, q: string, row: int, col: int)
    requires GridOk(g)
  {
    && 0 <= row < ROWS && 0 <= col && q != "" && col + |q| <= COLS
    && (exists k :: col + |q| - 1 <= k < COLS && g[row][k] != ' ')
    && forall i :: 0 <= i < |q| ==> SameLetter(g[row][col + i], q[i])
  }

  lemma FoundIsHit(g: seq<string>, q: string, row: int, col: int)
    requires GridOk(g) && 0 <= row < ROWS && 0 <= col < COLS
    ensures Found(g, q, row, col) <==> Hit(g, q, Place(row, col))
  {
    CellSplit(row, col);
    MatchIs(g[row], Used(g[row]), col, q);
    if Hit(g, q, Place(row, col)) {
      assert g[row][Used(g[row]) - 1] != ' ';
    }
  }

  /** The cursor of n is on the first cell from `from` on where the query occurs. */
  ghost predicate OnFirstFrom(g: seq<string>, q: string, from: int, n: Editor)
    requires GridOk(g)
  {
    && Found(g, q, n.row, n.col) && from <= Place(n.row, n.col)
    && forall r, c :: Found(g, q, r, c) && from <= Place(r, c) ==> Place(n.row, n.col) <= Place(r, c)
  }

  /** The cursor of n is on the last cell up to `to` where the query occurs. */
  ghost predicate OnLastUpTo(g: seq<string>, q: string, to: int, n: Editor)
    requires GridOk(g)
  {
    && Found(g, q, n.row, n.col) && Place(n.row, n.col) <= to
    && forall r, c :: Found(g, q, r, c) && Place(r, c) <= to ==> Place(r, c) <= Place(n.row, n.col)
  }

  ghost predicate FoundFrom(g: seq<string>, q: string, from: int)
    requires GridOk(g)
  {
    exists r, c :: Found(g, q, r, c) && from <= Place(r, c)
  }

  ghost predicate FoundUpTo(g: seq<string>, q: string, to: int)
    requires GridOk(g)
  {
    exists r, c :: Found(g, q, r, c) && Place(r, c) <= to
  }

  lemma FirstIsFirst(g: seq<string>, q: string, from: int, e: Editor)
    requires GridOk(g) && 0 <= from
    ensures var f := C.FirstFrom(Matches(g, q), from);
            if FoundFrom(g, q, from) then f >= 0 && OnFirstFrom(g, q, from, MoveTo(e, f)) else f < 0
  {
    var h := Matches(g, q);
    var f := C.FirstFrom(h, from);
    C.FirstFromIsLeast(h, from);
    if f >= 0 {
      FoundIsHit(g, q, f / COLS, f % COLS);
      assert Found(g, q, f / COLS, f % COLS) && Place(f / COLS, f % COLS) == f;
    }
    forall r, c | Found(g, q, r, c) && from <= Place(r, c)
      ensures 0 <= f <= Place(r, c)
    {
      FoundIsHit(g, q, r, c);
      assert h[Place(r, c)];
    }
  }

  lemma LastIsLast(g: seq<string>, q: string, to: int, e: Editor)
    requires GridOk(g) && to < CELLS
    ensures var f := C.LastUpTo(Matches(g, q), to);
            if FoundUpTo(g, q, to) then f >= 0 && OnLastUpTo(g, q, to, MoveTo(e, f)) else f < 0
  {
    var h := Matches(g, q);
    var f := C.LastUpTo(h, to);
    C.LastUpToIsGreatest(h, to);
    if f >= 0 {
      FoundIsHit(g, q, f / COLS, f % COLS);
      assert Found(g, q, f / COLS, f % COLS) && Place(f / COLS, f % COLS) == f;
    }
    forall r, c | Found(g, q, r, c) && Place(r, c) <= to
      ensures Place(r, c) <= f
    {
      FoundIsHit(g, q, r, c);
      assert h[Place(r, c)];
    }
  }

  /** Find puts the cursor on the first occurrence of the document and remembers the query; else nothing changes. */
  lemma FoundFirst(e: Editor, a: Answers)
    requires EditorOk(e)
    ensures var n := Find(e, a);
            if a.text.Some? && a.text.value != "" && FoundFrom(e.lines, a.text.value, 0)
            then OnFirstFrom(e.lines, a.text.value, 0, n) && n == e.(row := n.row, col := n.col, search := a.text.value)
            else n == e
  {
    if a.text.Some? {
      FirstIsFirst(e.lines, a.text.value, 0, e);
    }
  }

  /** Next goes to the first occurrence behind the cursor, else to the first of the document. */
  lemma FoundNext(e: Editor)
    requires EditorOk(e)
    ensures var n, here := FindNext(e), Place(e.row, e.col);
            && n == e.(row := n.row, col := n.col)
            && if e.search != "" && FoundFrom(e.lines, e.search, here + 1)
               then OnFirstFrom(e.lines, e.search, here + 1, n)
               else if e.search != "" && FoundFrom(e.lines, e.search, 0) then OnFirstFrom(e.lines, e.search, 0, n)
               else n == e
  {
    assert Cell(e.row, e.col) == Place(e.row, e.col);
    FirstIsFirst(e.lines, e.search, Place(e.row, e.col) + 1, e);
    FirstIsFirst(e.lines, e.search, 0, e);
  }

  /** Previous goes to the last occurrence before the cursor, else to the last of the document. */
  lemma FoundPrevious(e: Editor)
    requires EditorOk(e)
    ensures var n, here := FindPrevious(e), Place(e.row, e.col);
            && n == e.(row := n.row, col := n.col)
            && if e.search != "" && FoundUpTo(e.lines, e.search, here - 1)
               then OnLastUpTo(e.lines, e.search, here - 1, n)
               else if e.search != "" && FoundUpTo(e.lines, e.search, Place(23, 77))
               then OnLastUpTo(e.lines, e.search, Place(23, 77), n)
               else n == e
  {
    assert Cell(e.row, e.col) == Place(e.row, e.col);
    LastIsLast(e.lines, e.search, Place(e.row, e.col) - 1, e);
    LastIsLast(e.lines, e.search, CELLS - 1, e);
  }

  predicate Digit(c: char) { '0' <= c <= '9' }

  lemma {:induction false} DigitsStep(s: string, c: char, value: int)
    requires 0 <= value
    ensures ParseDigits(s + [c], value) ==
            if ParseDigits(s, value) < 0 || !Digit(c) then -1
            else ParseDigits(s, value) * 10 + (c as int - '0' as int)
    ensures ParseDigits(s, value) >= -1
    decreases |s|
  {
    if s == [] {
      assert (s + [c])[1..] == [];
    } else {
      assert (s + [c])[1..] == s[1..] + [c];
      if Digit(s[0]) {
        DigitsStep(s[1..], c, value * 10 + (s[0] as int - '0' as int));
      }
    }
  }

  /** A number is read digit by digit; an empty text or any other character is no number. */
  lemma NumberIsDecimal(s: string, c: char)
    ensures ParseNumber("") == -1
    ensures ParseNumber([c]) == if Digit(c) then c as int - '0' as int else -1
    ensures s != "" ==> ParseNumber(s + [c]) == if ParseNumber(s) < 0 || !Digit(c) then -1
                                                else 10 * ParseNumber(s) + (c as int - '0' as int)
  {
    DigitsStep("", c, 0);
    assert "" + [c] == [c];
    DigitsStep(s, c, 0);
  }

  /** Go To moves to the named row, counted from 1, and keeps the column; any other answer changes nothing. */
  lemma WentToLine(e: Editor, a: Answers)
    ensures GoTo(e, a) == if a.text.Some? && 1 <= ParseNumber(a.text.value) <= 24
                          then e.(row := ParseNumber(a.text.value) - 1) else e
  {
  }

  // ----- files and leaving

  /** New leaves a blank unnamed document, Open the file's lines, Save and Save As the export under the right name. */
  lemma FileCommands(s: Session, a: Answers)
    requires SessionOk(s)
    ensures var n := NewFile(s).ed;
            && (forall r, k :: 0 <= r < ROWS && 0 <= k < COLS ==> n.lines[r][k] == ' ')
            && n.row == n.col == 0 && n.isNew && !n.dirty && n.file == "UNTITLED.TXT"
    ensures var n := OpenFile(s, a).ed;
            if a.name.Some? && a.bytes.Some?
            then Doc(n.lines, n.row, n.col) == Import(a.bytes.value) && n.file == a.name.value && !n.isNew && !n.dirty
            else n == s.ed
    ensures var n := SaveAs(s, a);
            if a.name.Some? && a.writeOk
            then && n.written == Some(Export(s.ed.lines))
                 && n.ed == s.ed.(file := a.name.value, isNew := false, dirty := false)
            else n == s
    ensures forall name: string :: WriteFile(s, name, true).written == Some(Export(s.ed.lines))
                                   && WriteFile(s, name, false) == s
  {
  }

  /** The session ends exactly for an unchanged document, a chosen discard, or a save that had a name and succeeded. */
  lemma ExitIff(s: Session, a: Answers)
    requires SessionOk(s) && !s.over
    ensures RequestExit(s, a).over <==>
            !s.ed.dirty || a.choice == Discard || (a.choice == SaveFirst && a.writeOk && (s.ed.isNew ==> a.name.Some?))
    ensures s.ed.dirty && a.choice == SaveFirst && RequestExit(s, a).over ==>
              && RequestExit(s, a).written == Some(Export(s.ed.lines))
              && RequestExit(s, a).ed.file == (if s.ed.isNew then a.name.value else s.ed.file)
    ensures !RequestExit(s, a).over ==> RequestExit(s, a) == s
  {
  }

  // ----- the menu

  /** Alt opens the menu at its first item or closes it; Left and Right go round four menus, Up and Down five items. */
  lemma MenuKeys(s: Session, key: int, a: Answers)
    requires SessionOk(s) && !s.over && !(s.ed.menu.open && (key == 13 || key == 10))
    ensures var m, n := s.ed.menu, Step(s, key, a).ed.menu;
            && (key == 0x14 ==> n.open == !m.open && (n.open ==> n.index == n.item == 0))
            && (key != 0x14 && !m.open ==> n == m)
            && (key == 0x15 && m.open ==> n == Menu(true, if m.index == 0 then 3 else m.index - 1, 0))
            && (key == 0x16 && m.open ==> n == Menu(true, if m.index == 3 then 0 else m.index + 1, 0))
            && (key == 0x11 && m.open ==> n == m.(item := if m.item == 0 then 4 else m.item - 1))
            && (key == 0x12 && m.open ==> n == m.(item := if m.item == 4 then 0 else m.item + 1))
    ensures key != 27 && s.ed.menu.open ==> Step(s, key, a).ed.lines == s.ed.lines
  {
  }

  /** Enter runs the item under the cursor of the menu and closes it. */
  lemma MenuEnter(s: Session, a: Answers)
    requires SessionOk(s) && !s.over && s.ed.menu.open
    ensures var e, n := s.ed.(menu := s.ed.menu.(open := false)), Step(s, 13, a);
            && n == Step(s, 10, a)
            && match (s.ed.menu.index, s.ed.menu.item)
               case (0, 0) => n == NewFile(s.(ed := e))
               case (0, 1) => n == OpenFile(s.(ed := e), a)
               case (0, 2) => n == WriteFile(s.(ed := e), s.ed.file, a.writeOk)
               case (0, 3) => n == SaveAs(s.(ed := e), a)
               case (0, 4) => n == RequestExit(s.(ed := e), a)
               case (1, 0) => n == s.(ed := CopyLine(e))
               case (1, 1) => n == s.(ed := PasteLine(e))
               case (1, 3) => n == s.(ed := Undo(e))
               case (1, 4) => n == s.(ed := Redo(e))
               case (2, 0) => n == s.(ed := Find(e, a))
               case (2, 1) => n == s.(ed := FindNext(e))
               case (2, 2) => n == s.(ed := FindPrevious(e))
               case (2, 3) => n == s.(ed := GoTo(e, a))
               case (2, 4) => n == s.(ed := Substitute(e, a))
               case _ => n == s.(ed := e)
  {
  }
}
