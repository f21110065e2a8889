/** The editor's 24 x 78 document, and its import from and export to a flat file. */
module EditorText {
  import opened Basics

  const ROWS: int := 24
  const COLS: int := 78
  const MAX_FILE_BYTES: int := ROWS * (COLS + 2)

  predicate Printable(c: char) { ' ' <= c <= '~' }

  predicate TextOk(s: string) { forall i :: 0 <= i < |s| ==> Printable(s[i]) }

  predicate LineOk(l: string) { |l| == COLS && TextOk(l) }

  predicate GridOk(g: seq<string>) { |g| == ROWS && forall r :: 0 <= r < ROWS ==> LineOk(g[r]) }

  function Blank(): (l: string)
    ensures LineOk(l)
  {
    seq(COLS, _ => ' ')
  }

  function BlankGrid(): (g: seq<string>)
    ensures GridOk(g)
  {
    seq(ROWS, _ => Blank())
  }

  /** Length of a line without its trailing blanks. */
  function Used(l: string): (n: nat)
    ensures n <= |l|
    ensures n > 0 ==> l[n - 1] != ' '
    ensures forall i :: n <= i < |l| ==> l[i] == ' '
  {
    if l == [] then 0
    else if l[|l| - 1] == ' ' then Used(l[..|l| - 1])
    else |l|
  }

  method UsedLength(l: string) returns (end: nat)
    ensures end == Used(l)
  {
    end := |l|;
    while end > 0 && l[end - 1] == ' '
      invariant end <= |l| && Used(l) == Used(l[..end])
    {
      assert l[..end][..end - 1] == l[..end - 1];
      end := end - 1;
    }
    assert end > 0 ==> l[..end][end - 1] != ' ';
  }

  // ----- import

  /** The document being filled, and where the next character goes. */
  datatype Doc = Doc(grid: seq<string>, row: int, col: int)

  predicate DocOk(d: Doc) {
    |d.grid| == ROWS && (forall r :: 0 <= r < ROWS ==> |d.grid[r]| == COLS) && 0 <= d.row && 0 <= d.col < COLS
  }

  function Put(g: seq<string>, row: int, col: int, c: char): seq<string>
    requires 0 <= row < |g| && 0 <= col < |g[row]|
  {
    g[row := g[row][col := c]]
  }

  function ImportChar(d: Doc, c: char): (r: Doc)
    requires DocOk(d) && d.row < ROWS
    ensures DocOk(r) && d.row <= r.row
  {
    if c == '\n' then Doc(d.grid, d.row + 1, 0)
    else if c != '\r' && Printable(c) then
      var g := Put(d.grid, d.row, d.col, c);
      if d.col + 1 >= COLS then Doc(g, d.row + 1, 0) else Doc(g, d.row, d.col + 1)
    else d
  }

  function ImportFrom(d: Doc, data: string): (r: Doc)
    requires DocOk(d)
    ensures DocOk(r)
    decreases |data|
  {
    if data == [] || d.row >= ROWS then d else ImportFrom(ImportChar(d, data[0]), data[1..])
  }

  /** A document that ran off the bottom leaves the cursor in the last cell. */
  function Settle(d: Doc): Doc {
    if d.row >= ROWS then Doc(d.grid, ROWS - 1, COLS - 1) else d
  }

  function Import(data: string): (d: Doc)
    ensures DocOk(d) && d.row < ROWS
  {
    Settle(ImportFrom(Doc(BlankGrid(), 0, 0), data))
  }

  // ----- export

  /** The last row that is not blank, or -1. */
  function LastRow(g: seq<string>): (r: int)
    ensures -1 <= r < |g|
    ensures r >= 0 ==> Used(g[r]) > 0
    ensures forall i :: r < i < |g| ==> Used(g[i]) == 0
  {
    if g == [] then -1
    else if Used(g[|g| - 1]) > 0 then |g| - 1
    else LastRow(g[..|g| - 1])
  }

  /** Rows r..last: each without trailing blanks, with a newline between rows. */
  function ExportRows(g: seq<string>, r: int, last: int): string
    requires 0 <= r && last < |g|
    decreases last - r
  {
    if r > last then ""
    else g[r][..Used(g[r])] + (if r < last then "\n" else "") + ExportRows(g, r + 1, last)
  }

  function Export(g: seq<string>): string { ExportRows(g, 0, LastRow(g)) }

  /** The file never outgrows the editor's buffer, so a save is never cut short. */
  lemma {:induction false} ExportRowsFit(g: seq<string>, r: int, last: int)
    requires GridOk(g) && 0 <= r && last < ROWS
    ensures r <= last ==> |ExportRows(g, r, last)| <= (last - r + 1) * (COLS + 1) - 1
    decreases last - r
  {
    if r < last {
      ExportRowsFit(g, r + 1, last);
    } else if r == last {
      assert ExportRows(g, r + 1, last) == "";
    }
  }

  lemma ExportFits(g: seq<string>)
    requires GridOk(g)
    ensures |Export(g)| < 1920 == MAX_FILE_BYTES
  {
    ExportRowsFit(g, 0, LastRow(g));
  }

  // ----- the round trip

  /** Rows above the import position are final. */
  lemma {:induction false} ImportKeepsRows(d: Doc, data: string, r: int)
    requires DocOk(d) && 0 <= r < ROWS && r < d.row
    ensures ImportFrom(d, data).grid[r] == d.grid[r]
    decreases |data|
  {
    if data != [] && d.row < ROWS {
      ImportKeepsRows(ImportChar(d, data[0]), data[1..], r);
    }
  }

  /** A line with a text written over it from a column on. */
  function Over(l: string, col: int, s: string): (r: string)
    requires 0 <= col && col + |s| <= |l|
    ensures |r| == |l|
  {
    l[..col] + s + l[col + |s|..]
  }

  lemma OverStep(l: string, col: int, s: string)
    requires 0 <= col && s != [] && col + |s| <= |l|
    ensures Over(l[col := s[0]], col + 1, s[1..]) == Over(l, col, s)
  {
  }

  function PutText(g: seq<string>, row: int, col: int, s: string): seq<string>
    requires 0 <= row < |g| && 0 <= col && col + |s| <= |g[row]|
  {
    g[row := Over(g[row], col, s)]
  }

  /** Importing printable text that ends before column 78 writes it into the current row. */
  lemma {:induction false} ImportText(d: Doc, s: string, rest: string)
    requires DocOk(d) && d.row < ROWS && TextOk(s) && d.col + |s| < COLS
    ensures ImportFrom(d, s + rest) ==
            ImportFrom(Doc(PutText(d.grid, d.row, d.col, s), d.row, d.col + |s|), rest)
    decreases |s|
  {
    if s == [] {
      assert s + rest == rest;
      assert Over(d.grid[d.row], d.col, s) == d.grid[d.row];
      assert PutText(d.grid, d.row, d.col, s) == d.grid;
    } else {
      assert (s + rest)[1..] == s[1..] + rest;
      var d1 := ImportChar(d, s[0]);
      ImportText(d1, s[1..], rest);
      OverStep(d.grid[d.row], d.col, s);
      assert PutText(d1.grid, d.row, d.col + 1, s[1..]) == PutText(d.grid, d.row, d.col, s);
    }
  }

  /** Importing a text that fills the row moves on to the next row by itself. */
  lemma {:induction false} ImportFullRow(d: Doc, s: string, rest: string)
    requires DocOk(d) && d.row < ROWS && d.col == 0 && TextOk(s) && |s| == COLS
    ensures ImportFrom(d, s + rest) == ImportFrom(Doc(d.grid[d.row := s], d.row + 1, 0), rest)
  {
    var head, c := s[..COLS - 1], s[COLS - 1];
    assert s + rest == head + ([c] + rest);
    ImportText(d, head, [c] + rest);
    var d1 := Doc(PutText(d.grid, d.row, 0, head), d.row, COLS - 1);
    assert ([c] + rest)[1..] == rest;
    assert Over(d.grid[d.row], 0, head)[COLS - 1 := c] == s;
    assert ImportChar(d1, c) == Doc(d.grid[d.row := s], d.row + 1, 0);
  }

  lemma {:induction false} ImportNewline(d: Doc, rest: string)
    requires DocOk(d) && d.row < ROWS
    ensures ImportFrom(d, "\n" + rest) == ImportFrom(Doc(d.grid, d.row + 1, 0), rest)
  {
    assert ("\n" + rest)[1..] == rest;
  }

  /** A row that is not full, imported at the start of a blank row, reproduces itself. */
  lemma {:induction false} ImportRow(d: Doc, l: string, rest: string)
    requires DocOk(d) && d.row < ROWS && d.col == 0 && LineOk(l) && Used(l) < COLS && d.grid[d.row] == Blank()
    ensures ImportFrom(d, l[..Used(l)] + rest) == ImportFrom(Doc(d.grid[d.row := l], d.row, Used(l)), rest)
  {
    ImportText(d, l[..Used(l)], rest);
    assert Over(Blank(), 0, l[..Used(l)]) == l;
  }

  lemma {:induction false} ImportRowThenNewline(d: Doc, l: string, rest: string)
    requires DocOk(d) && d.row < ROWS && d.col == 0 && LineOk(l) && Used(l) < COLS && d.grid[d.row] == Blank()
    ensures ImportFrom(d, l[..Used(l)] + ("\n" + rest)) == ImportFrom(Doc(d.grid[d.row := l], d.row + 1, 0), rest)
  {
    ImportRow(d, l, "\n" + rest);
    ImportNewline(Doc(d.grid[d.row := l], d.row, Used(l)), rest);
  }

  /** No row above the last one uses all 78 columns. */
  predicate NoFullRow(g: seq<string>, r: int, last: int)
    requires 0 <= r && last < |g|
  {
    forall i :: r <= i < last ==> Used(g[i]) < COLS
  }

  /** Rows below r are done, rows from r on still blank. */
  predicate PartlyImported(d: Doc, g: seq<string>, r: int) {
    && DocOk(d) && |g| == ROWS && 0 <= r <= ROWS
    && (forall i :: 0 <= i < r ==> d.grid[i] == g[i])
    && (forall i :: r <= i < ROWS ==> d.grid[i] == Blank())
  }

  lemma BlankLine(l: string)
    requires |l| == COLS && Used(l) == 0
    ensures l == Blank()
  {
  }

  lemma {:induction false} ImportLastRow(d: Doc, g: seq<string>, r: int)
    requires GridOk(g) && PartlyImported(d, g, r) && d.row == r < ROWS && d.col == 0
    requires forall i :: r < i < ROWS ==> g[i] == Blank()
    ensures ImportFrom(d, ExportRows(g, r, r)).grid == g
  {
    var line := g[r][..Used(g[r])];
    assert ExportRows(g, r, r) == line + "";
    assert d.grid[r := g[r]] == g;
    if Used(g[r]) < COLS {
      ImportRow(d, g[r], "");
    } else {
      assert line == g[r];
      ImportFullRow(d, g[r], "");
    }
  }

  lemma {:induction false} ImportRows(d: Doc, g: seq<string>, r: int, last: int)
    requires GridOk(g) && PartlyImported(d, g, r) && d.row == r && d.col == 0
    requires r <= last < ROWS && NoFullRow(g, r, last)
    requires forall i :: last < i < ROWS ==> g[i] == Blank()
    ensures ImportFrom(d, ExportRows(g, r, last)).grid == g
    decreases last - r
  {
    var line, tail := g[r][..Used(g[r])], ExportRows(g, r + 1, last);
    if r == last {
      ImportLastRow(d, g, r);
    } else {
      assert ExportRows(g, r, last) == line + ("\n" + tail);
      ImportRowThenNewline(d, g[r], tail);
      ImportRows(Doc(d.grid[r := g[r]], r + 1, 0), g, r + 1, last);
    }
  }

  /** Once the import runs a row ahead of the document, the last row can no longer come out right. */
  lemma {:induction false} ImportAhead(d: Doc, g: seq<string>, r: int, last: int)
    requires GridOk(g) && DocOk(d) && d.col == 0 && 0 <= r < d.row
    requires r <= last < ROWS && Used(g[last]) > 0
    requires forall i :: r <= i < ROWS ==> d.grid[i] == Blank()
    ensures ImportFrom(d, ExportRows(g, r, last)).grid != g
    decreases last - r
  {
    var data := ExportRows(g, r, last);
    ImportKeepsRows(d, data, r);
    assert Used(Blank()) == 0;
    if g[r] == Blank() && r < last {
      if d.row >= ROWS {
        assert ImportFrom(d, data).grid[last] == Blank();
      } else {
        var tail := ExportRows(g, r + 1, last);
        assert data == "\n" + tail;
        ImportNewline(d, tail);
        ImportAhead(Doc(d.grid, d.row + 1, 0), g, r + 1, last);
      }
    }
  }

  lemma {:induction false} ImportBreaks(d: Doc, g: seq<string>, r: int, last: int)
    requires GridOk(g) && PartlyImported(d, g, r) && d.row == r && d.col == 0
    requires r <= last < ROWS && Used(g[last]) > 0 && !NoFullRow(g, r, last)
    ensures ImportFrom(d, ExportRows(g, r, last)).grid != g
    decreases last - r
  {
    var line, tail := g[r][..Used(g[r])], ExportRows(g, r + 1, last);
    assert r < last;
    assert ExportRows(g, r, last) == line + ("\n" + tail);
    if Used(g[r]) < COLS {
      ImportRowThenNewline(d, g[r], tail);
      ImportBreaks(Doc(d.grid[r := g[r]], r + 1, 0), g, r + 1, last);
    } else {
      assert line == g[r];
      ImportFullRow(d, g[r], "\n" + tail);
      var d1 := Doc(d.grid[r := g[r]], r + 1, 0);
      ImportNewline(d1, tail);
      ImportAhead(Doc(d1.grid, r + 2, 0), g, r + 1, last);
    }
  }

  lemma {:induction false} BlankBelow(g: seq<string>)
    requires GridOk(g)
    ensures forall i :: LastRow(g) < i < ROWS ==> g[i] == Blank()
  {
    forall i | LastRow(g) < i < ROWS
      ensures g[i] == Blank()
    {
      BlankLine(g[i]);
    }
  }

  /**
   Reading back an exported document gives the same document exactly when no row before the last
   non-blank one uses all 78 columns.
   */
  lemma {:induction false} RoundTrip(g: seq<string>)
    requires GridOk(g)
    ensures Import(Export(g)).grid == g <==> forall r :: 0 <= r < LastRow(g) ==> Used(g[r]) < COLS
  {
    var last := LastRow(g);
    var d := Doc(BlankGrid(), 0, 0);
    BlankBelow(g);
    if last < 0 {
      assert g == BlankGrid();
      assert Export(g) == "";
    } else if NoFullRow(g, 0, last) {
      ImportRows(d, g, 0, last);
    } else {
      ImportBreaks(d, g, 0, last);
    }
  }

  /** Whatever the file, an import yields a printable document. */
  lemma {:induction false} ImportIsPrintable(d: Doc, data: string)
    requires DocOk(d) && GridOk(d.grid)
    ensures GridOk(ImportFrom(d, data).grid)
    decreases |data|
  {
    if data != [] && d.row < ROWS {
      ImportIsPrintable(ImportChar(d, data[0]), data[1..]);
    }
  }

  // ----- files as lines of text

  /** Lines with a newline between them. */
  function JoinLines(ls: seq<string>): string {
    if ls == [] then "" else if |ls| == 1 then ls[0] else ls[0] + "\n" + JoinLines(ls[1..])
  }

  /** An export is the rows up to the last non-blank one, without their trailing blanks, as lines. */
  lemma {:induction false} ExportIsLines(g: seq<string>, r: int, last: int)
    requires 0 <= r <= last + 1 && last < |g|
    ensures ExportRows(g, r, last) == JoinLines(seq(last + 1 - r, i requires 0 <= i < last + 1 - r =>
                                                  g[r + i][..Used(g[r + i])]))
    decreases last - r
  {
    if r <= last {
      var ls := seq(last + 1 - r, i requires 0 <= i < last + 1 - r => g[r + i][..Used(g[r + i])]);
      var rest := seq(last - r, i requires 0 <= i < last - r => g[r + 1 + i][..Used(g[r + 1 + i])]);
      ExportIsLines(g, r + 1, last);
      assert ls[1..] == rest;
      if r == last {
        assert ExportRows(g, r, last) == ls[0];
      }
    }
  }

  /** A row shows a line: its characters, then blanks. */
  ghost predicate ShowsLine(row: string, line: string) {
    |line| <= |row| == COLS && forall c :: 0 <= c < COLS ==> row[c] == if c < |line| then line[c] else ' '
  }

  /** Row r + i shows line i, and the rows below the lines are blank. */
  ghost predicate ShowsLines(g: seq<string>, r: int, ls: seq<string>) {
    && |g| == ROWS && 0 <= r && r + |ls| <= ROWS
    && (forall i :: r <= i < r + |ls| ==> ShowsLine(g[i], ls[i - r]))
    && (forall i :: r + |ls| <= i < ROWS ==> g[i] == Blank())
  }

  /** Lines shorter than a row are read each into a row of its own, and the cursor ends behind the last. */
  lemma {:induction false} ImportShowsLines(d: Doc, ls: seq<string>)
    requires DocOk(d) && d.col == 0 && ls != [] && d.row + |ls| <= ROWS
    requires forall i :: d.row <= i < ROWS ==> d.grid[i] == Blank()
    requires forall i :: 0 <= i < |ls| ==> TextOk(ls[i]) && |ls[i]| < COLS
    ensures var z := ImportFrom(d, JoinLines(ls));
            && ShowsLines(z.grid, d.row, ls) && (forall i :: 0 <= i < d.row ==> z.grid[i] == d.grid[i])
            && z.row == d.row + |ls| - 1 && z.col == |ls[|ls| - 1]|
    decreases |ls|
  {
    if |ls| == 1 {
      assert ls[0] + "" == ls[0];
      ImportText(d, ls[0], "");
    } else {
      var d1 := ImportFirstLine(d, ls);
      ImportShowsLines(d1, ls[1..]);
      assert ShowsLine(ImportFrom(d, JoinLines(ls)).grid[d.row], ls[0]);
      assert forall i :: 1 <= i < |ls| ==> ls[i] == ls[1..][i - 1];
    }
  }

  lemma {:induction false} ImportFirstLine(d: Doc, ls: seq<string>) returns (d1: Doc)
    requires DocOk(d) && d.col == 0 && |ls| > 1 && d.row + |ls| <= ROWS && d.grid[d.row] == Blank()
    requires TextOk(ls[0]) && |ls[0]| < COLS
    ensures DocOk(d1) && ImportFrom(d, JoinLines(ls)) == ImportFrom(d1, JoinLines(ls[1..]))
    ensures d1.row == d.row + 1 && d1.col == 0 && ShowsLine(d1.grid[d.row], ls[0])
    ensures forall i :: 0 <= i < ROWS && i != d.row ==> d1.grid[i] == d.grid[i]
  {
    var rest := JoinLines(ls[1..]);
    var g := PutText(d.grid, d.row, 0, ls[0]);
    assert JoinLines(ls) == ls[0] + ("\n" + rest);
    ImportText(d, ls[0], "\n" + rest);
    ImportNewline(Doc(g, d.row, |ls[0]|), rest);
    d1 := Doc(g, d.row + 1, 0);
  }

  /** A file of short lines is shown line by line from the top, the cursor behind the last character. */
  lemma {:induction false} ImportOfLines(ls: seq<string>)
    requires 1 <= |ls| <= 24 && forall i :: 0 <= i < |ls| ==> TextOk(ls[i]) && |ls[i]| < 78
    ensures var d := Import(JoinLines(ls));
            ShowsLines(d.grid, 0, ls) && d.row == |ls| - 1 && d.col == |ls[|ls| - 1]|
  {
    ImportShowsLines(Doc(BlankGrid(), 0, 0), ls);
  }

  function Newlines(data: string): nat {
    if data == [] then 0 else (if data[0] == '\n' then 1 else 0) + Newlines(data[1..])
  }

  lemma {:induction false} ImportMovesDown(d: Doc, data: string)
    requires DocOk(d)
    ensures ImportFrom(d, data).row >= Min(ROWS, d.row + Newlines(data))
    decreases |data|
  {
    if data != [] && d.row < ROWS {
      ImportMovesDown(ImportChar(d, data[0]), data[1..]);
    }
  }

  /** A file with 24 newlines or more leaves the cursor in the last cell. */
  lemma {:induction false} ImportOfLongFile(data: string)
    requires Newlines(data) >= 24
    ensures Import(data).row == 23 && Import(data).col == 77
  {
    ImportMovesDown(Doc(BlankGrid(), 0, 0), data);
  }

  /** The bytes of a file that count: newlines and printable characters. */
  function Kept(data: string): string {
    if data == [] then []
    else (if data[0] == '\n' || 32 <= data[0] as int <= 126 then [data[0]] else []) + Kept(data[1..])
  }

  /** All other bytes, carriage returns and tabs among them, are passed over. */
  lemma {:induction false} ImportPassesOver(d: Doc, data: string)
    requires DocOk(d)
    ensures ImportFrom(d, data) == ImportFrom(d, Kept(data))
    decreases |data|
  {
    if data != [] && d.row < ROWS {
      ImportPassesOver(ImportChar(d, data[0]), data[1..]);
      if data[0] == '\n' || 32 <= data[0] as int <= 126 {
        assert Kept(data)[0] == data[0] && Kept(data)[1..] == Kept(data[1..]);
      } else {
        assert Kept(data) == Kept(data[1..]);
      }
    }
  }

  // ----- the code

  /** editor_import_buffer: lines filled in place from the bytes of a file. */
  method ImportBuffer(lines: array<string>, data: string) returns (row: int, col: int)
    requires lines.Length == ROWS
    modifies lines
    ensures Doc(lines[..], row, col) == Import(data)
  {
    for r := 0 to ROWS
      invariant forall i :: 0 <= i < r ==> lines[i] == Blank()
    {
      lines[r] := Blank();
    }
    row, col := 0, 0;
    assert lines[..] == BlankGrid();
    var i := 0;
    ghost var goal := ImportFrom(Doc(BlankGrid(), 0, 0), data);
    while i < |data| && row < ROWS
      invariant 0 <= i <= |data| && DocOk(Doc(lines[..], row, col))
      invariant ImportFrom(Doc(lines[..], row, col), data[i..]) == goal
    {
      var c := data[i];
      ghost var d := Doc(lines[..], row, col);
      assert data[i..][0] == c && data[i..][1..] == data[i + 1..];
      i := i + 1;
      if c == '\r' {
        continue;
      }
      if c == '\n' {
        row, col := row + 1, 0;
        continue;
      }
      if Printable(c) {
        lines[row] := lines[row][col := c];
        assert lines[..] == Put(d.grid, d.row, d.col, c);
        col := col + 1;
        if col >= COLS {
          row, col := row + 1, 0;
        }
      }
    }
    if row >= ROWS {
      row, col := ROWS - 1, COLS - 1;
    }
  }

  method FindLastRow(lines: array<string>) returns (last: int)
    requires lines.Length == ROWS
    ensures last == LastRow(lines[..])
  {
    last := -1;
    for r := 0 to ROWS
      invariant last == LastRow(lines[..r])
    {
      assert lines[..r + 1][..r] == lines[..r];
      var len := UsedLength(lines[r]);
      if len > 0 {
        last := r;
      }
    }
    assert lines[..ROWS] == lines[..];
  }

  /** editor_export_buffer: writes the export as far as the buffer reaches. */
  method ExportBuffer(lines: array<string>, out: array<char>) returns (pos: int)
    requires lines.Length == ROWS
    modifies out
    ensures lines[..] == old(lines[..])
    ensures var file := Export(lines[..]);
            pos == (if |file| <= out.Length then |file| else out.Length) && out[..pos] == file[..pos]
  {
    var last := FindLastRow(lines);
    pos := 0;
    if last < 0 {
      return;
    }
    ghost var g := lines[..];
    ghost var file := Export(g);
    ghost var done := "";
    for r := 0 to last + 1
      invariant lines[..] == g && done + ExportRows(g, r, last) == file
      invariant Written(out, pos, done)
    {
      ghost var piece := g[r][..Used(g[r])] + (if r < last then "\n" else "");
      pos := WriteRow(out, pos, lines[r], r < last, done);
      Regroup(done, piece, ExportRows(g, r + 1, last));
      done := done + piece;
    }
    assert done == file;
  }

  /** The buffer holds `text` as far as it reaches, and pos counts the characters held. */
  ghost predicate Written(out: array<char>, pos: int, text: string)
    reads out
  {
    pos == (if |text| <= out.Length then |text| else out.Length) && out[..pos] == text[..pos]
  }

  method WriteRow(out: array<char>, start: int, line: string, newline: bool, ghost before: string) returns (pos: int)
    requires Written(out, start, before)
    modifies out
    ensures Written(out, pos, before + (line[..Used(line)] + (if newline then "\n" else "")))
  {
    var len := UsedLength(line);
    pos := WriteText(out, start, line[..len], before);
    if newline {
      pos := WriteText(out, pos, "\n", before + line[..len]);
      Regroup(before, line[..len], "\n");
    }
    assert line[..len] + "" == line[..len];
  }

  method WriteText(out: array<char>, start: int, text: string, ghost before: string) returns (pos: int)
    requires Written(out, start, before)
    modifies out
    ensures Written(out, pos, before + text)
  {
    pos := start;
    for c := 0 to |text|
      invariant Written(out, pos, before + text[..c])
    {
      assert before + text[..c + 1] == (before + text[..c]) + [text[c]];
      if pos < out.Length {
        out[pos] := text[c];
        pos := pos + 1;
      }
    }
    assert text[..|text|] == text;
  }
}
