/** Case-insensitive search in the document: Next and Previous as cyclic successor and predecessor. */
module EditorSearch {
  import opened Machine
  import opened EditorText
  import opened CyclicSearch

  const CELLS: int := ROWS * COLS

  function Lower(c: char): char {
    if 'A' <= c <= 'Z' then (c as int - 'A' as int + 'a' as int) as char else c
  }

  /** The needle occurs at pos within the first hayLen characters, ignoring case. */
  predicate MatchAt(hay: string, hayLen: int, pos: int, needle: string)
    requires hayLen <= |hay|
  {
    && pos >= 0 && |needle| > 0 && pos + |needle| <= hayLen
    && forall i :: 0 <= i < |needle| ==> Lower(hay[pos + i]) == Lower(needle[i])
  }

  /** The same character, or the same letter in the other case. */
  predicate SameLetter(a: char, b: char) {
    || a == b
    || ('A' <= a <= 'Z' && b as int == a as int + 32)
    || ('A' <= b <= 'Z' && a as int == b as int + 32)
  }

  lemma LowerIff(a: char, b: char)
    ensures Lower(a) == Lower(b) <==> SameLetter(a, b)
  {
  }

  /** A match is an occurrence in which every character is the same up to the case of letters. */
  lemma MatchIs(hay: string, hayLen: int, pos: int, needle: string)
    requires hayLen <= |hay|
    ensures MatchAt(hay, hayLen, pos, needle) <==>
            && 0 <= pos && 0 < |needle| && pos + |needle| <= hayLen
            && forall i :: 0 <= i < |needle| ==> SameLetter(hay[pos + i], needle[i])
  {
    if 0 <= pos && pos + |needle| <= hayLen {
      forall i | 0 <= i < |needle|
        ensures Lower(hay[pos + i]) == Lower(needle[i]) <==> SameLetter(hay[pos + i], needle[i])
      {
        LowerIff(hay[pos + i], needle[i]);
      }
    }
  }

  /** Changing the case of letters, in the text or in the query, changes no match. */
  lemma MatchIgnoresCase(hay: string, other: string, hayLen: int, pos: int, needle: string, query: string)
    requires |hay| == |other| && hayLen <= |hay| && |needle| == |query|
    requires forall i :: 0 <= i < |hay| ==> SameLetter(hay[i], other[i])
    requires forall i :: 0 <= i < |needle| ==> SameLetter(needle[i], query[i])
    ensures MatchAt(hay, hayLen, pos, needle) <==> MatchAt(other, hayLen, pos, query)
  {
    if 0 <= pos && pos + |needle| <= hayLen {
      forall i | 0 <= i < |needle|
        ensures Lower(hay[pos + i]) == Lower(other[pos + i]) && Lower(needle[i]) == Lower(query[i])
      {
        LowerIff(hay[pos + i], other[pos + i]);
        LowerIff(needle[i], query[i]);
      }
    }
  }

  method ContainsAt(hay: string, hayLen: int, pos: int, needle: string) returns (found: bool)
    requires hayLen <= |hay|
    ensures found == MatchAt(hay, hayLen, pos, needle)
  {
    if pos < 0 || |needle| <= 0 || pos + |needle| > hayLen {
      return false;
    }
    for i := 0 to |needle|
      invariant forall j :: 0 <= j < i ==> Lower(hay[pos + j]) == Lower(needle[j])
    {
      if Lower(hay[pos + i]) != Lower(needle[i]) {
        return false;
      }
    }
    found := true;
  }

  /** Cells in reading order: row r, column c is cell r * 78 + c. */
  function Cell(r: int, c: int): int { r * COLS + c }

  /** The query occurs at a cell. */
  predicate Hit(g: seq<string>, q: string, i: int)
    requires GridOk(g)
  {
    0 <= i < CELLS && MatchAt(g[i / COLS], Used(g[i / COLS]), i % COLS, q)
  }

  lemma CellSplit(r: int, c: int)
    requires 0 <= c < COLS
    ensures Cell(r, c) / COLS == r && Cell(r, c) % COLS == c
  {
  }

  /** Which cells hold a match, in reading order. */
  function Matches(g: seq<string>, q: string): (h: seq<bool>)
    requires GridOk(g)
    ensures |h| == CELLS
  {
    seq(CELLS, i requires 0 <= i < CELLS => Hit(g, q, i))
  }

  // ----- the code

  /** No cell of row r from column c on can hold a match when the row ends too soon. */
  lemma RowTail(g: seq<string>, q: string, r: int, c: int)
    requires GridOk(g) && 0 <= r < ROWS && 0 <= c && |q| > 0 && c > Used(g[r]) - |q|
    ensures forall i :: Cell(r, c) <= i < Cell(r + 1, 0) ==> !Matches(g, q)[i]
  {
    forall i | Cell(r, c) <= i < Cell(r + 1, 0)
      ensures !Hit(g, q, i)
    {
      assert i / COLS == r && i % COLS >= c;
    }
  }

  /** Without a query there is no match. */
  lemma NoQuery(g: seq<string>, s: int)
    requires GridOk(g) && s < CELLS
    ensures LastUpTo(Matches(g, ""), s) == -1
    ensures 0 <= s ==> FirstFrom(Matches(g, ""), s) == -1
  {
  }

  /** Whether the query occurs at row r, column c. */
  method HitAt(g: seq<string>, q: string, r: int, c: int, used: int) returns (here: bool)
    requires GridOk(g) && 0 <= r < ROWS && 0 <= c < COLS && used == Used(g[r])
    ensures here == Matches(g, q)[Cell(r, c)]
  {
    CellSplit(r, c);
    here := ContainsAt(g[r], used, c, q);
  }

  /** find_text_forward: the first match at or after a position; the start column may be one past the row. */
  method FindForward(g: seq<string>, q: string, startRow: int, startCol: int) returns (found: Option<int>)
    requires GridOk(g) && 0 <= startRow < ROWS && 0 <= startCol <= COLS
    ensures var f := FirstFrom(Matches(g, q), Cell(startRow, startCol));
            found == if f < 0 then None else Some(f)
  {
    if |q| <= 0 {
      if Cell(startRow, startCol) < CELLS {
        NoQuery(g, Cell(startRow, startCol));
      }
      return None;
    }
    found := ScanForward(g, q, startRow, startCol);
  }

  method ScanForward(g: seq<string>, q: string, startRow: int, startCol: int) returns (found: Option<int>)
    requires GridOk(g) && |q| > 0 && 0 <= startRow < ROWS && 0 <= startCol <= COLS
    ensures var f := FirstFrom(Matches(g, q), Cell(startRow, startCol));
            found == if f < 0 then None else Some(f)
  {
    ghost var h := Matches(g, q);
    ghost var goal := FirstFrom(h, Cell(startRow, startCol));
    var r, begin := startRow, startCol;
    while r < ROWS
      invariant startRow <= r <= ROWS && 0 <= begin <= COLS
      invariant goal == FirstFrom(h, Cell(r, begin))
    {
      found := FindInRow(g, q, r, begin);
      if found.Some? {
        return;
      }
      r, begin := r + 1, 0;
    }
    found := None;
  }

  /** The scan of one row from a column on. */
  method FindInRow(g: seq<string>, q: string, r: int, begin: int) returns (found: Option<int>)
    requires GridOk(g) && |q| > 0 && 0 <= r < ROWS && 0 <= begin <= COLS
    ensures found.Some? ==> found.value == FirstFrom(Matches(g, q), Cell(r, begin)) >= 0
    ensures found == None ==> FirstFrom(Matches(g, q), Cell(r, begin)) == FirstFrom(Matches(g, q), Cell(r + 1, 0))
  {
    ghost var h := Matches(g, q);
    var used := UsedLength(g[r]);
    var c := begin;
    while c <= used - |q|
      invariant begin <= c <= COLS
      invariant forall i :: Cell(r, begin) <= i < Cell(r, c) ==> !h[i]
    {
      var here := HitAt(g, q, r, c, used);
      if here {
        SkipForward(h, Cell(r, begin), Cell(r, c));
        return Some(Cell(r, c));
      }
      c := c + 1;
    }
    RowTail(g, q, r, c);
    SkipForward(h, Cell(r, begin), Cell(r + 1, 0));
    found := None;
  }

  /** find_text_backward: the last match at or before a position; the start column may be one before the row. */
  method FindBackward(g: seq<string>, q: string, startRow: int, startCol: int) returns (found: Option<int>)
    requires GridOk(g) && 0 <= startRow < ROWS && -1 <= startCol < COLS
    ensures var f := LastUpTo(Matches(g, q), Cell(startRow, startCol));
            found == if f < 0 then None else Some(f)
  {
    if |q| <= 0 {
      NoQuery(g, Cell(startRow, startCol));
      return None;
    }
    found := ScanBackward(g, q, startRow, startCol);
  }

  method ScanBackward(g: seq<string>, q: string, startRow: int, startCol: int) returns (found: Option<int>)
    requires GridOk(g) && |q| > 0 && 0 <= startRow < ROWS && -1 <= startCol < COLS
    ensures var f := LastUpTo(Matches(g, q), Cell(startRow, startCol));
            found == if f < 0 then None else Some(f)
  {
    ghost var h := Matches(g, q);
    ghost var goal := LastUpTo(h, Cell(startRow, startCol));
    var r, from := startRow, startCol;
    while r >= 0
      invariant -1 <= r <= startRow && -1 <= from < COLS
      invariant r == -1 ==> from == COLS - 1
      invariant goal == LastUpTo(h, Cell(r, from))
    {
      found := FindBackInRow(g, q, r, from);
      if found.Some? {
        return;
      }
      r, from := r - 1, COLS - 1;
    }
    found := None;
  }

  method FindBackInRow(g: seq<string>, q: string, r: int, from: int) returns (found: Option<int>)
    requires GridOk(g) && |q| > 0 && 0 <= r < ROWS && -1 <= from < COLS
    ensures found.Some? ==> found.value == LastUpTo(Matches(g, q), Cell(r, from)) >= 0
    ensures found == None ==> LastUpTo(Matches(g, q), Cell(r, from)) == LastUpTo(Matches(g, q), Cell(r - 1, COLS - 1))
  {
    ghost var h := Matches(g, q);
    var used := UsedLength(g[r]);
    var begin := used - |q|;
    if begin < 0 {
      RowTail(g, q, r, 0);
      SkipBackward(h, Cell(r, -1), Cell(r, from));
      return None;
    }
    RowTail(g, q, r, begin + 1);
    var c := if begin > from then from else begin;
    while c >= 0
      invariant -1 <= c <= from
      invariant forall i :: Cell(r, c) < i <= Cell(r, from) ==> !h[i]
    {
      var here := HitAt(g, q, r, c, used);
      if here {
        SkipBackward(h, Cell(r, c), Cell(r, from));
        return Some(Cell(r, c));
      }
      c := c - 1;
    }
    SkipBackward(h, Cell(r, -1), Cell(r, from));
    found := None;
  }

  /** The Next and Previous commands at a cursor inside the document. */
  method SearchNext(g: seq<string>, q: string, row: int, col: int) returns (found: Option<int>)
    requires GridOk(g) && 0 <= row < ROWS && 0 <= col < COLS
    ensures var f := Next(Matches(g, q), Cell(row, col));
            found == if f < 0 then None else Some(f)
  {
    found := FindForward(g, q, row, col + 1);
    if found == None {
      found := FindForward(g, q, 0, 0);
    }
  }

  method SearchPrevious(g: seq<string>, q: string, row: int, col: int) returns (found: Option<int>)
    requires GridOk(g) && 0 <= row < ROWS && 0 <= col < COLS
    ensures var f := Previous(Matches(g, q), Cell(row, col));
            found == if f < 0 then None else Some(f)
  {
    found := FindBackward(g, q, row, col - 1);
    if found == None {
      found := FindBackward(g, q, ROWS - 1, COLS - 1);
    }
  }

  /** Next then Previous (and the reverse) returns to the match it started from, in every document. */
  lemma SearchIsReversible(g: seq<string>, q: string, i: int)
    requires GridOk(g) && Hit(g, q, i)
    ensures var h := Matches(g, q);
            Hit(g, q, Next(h, i)) && Previous(h, Next(h, i)) == i &&
            Hit(g, q, Previous(h, i)) && Next(h, Previous(h, i)) == i
  {
    NextPreviousInverse(Matches(g, q), i);
  }

  /** From any match, Next reaches every match after exactly one number of presses below their count. */
  lemma NextReachesEachMatchOnce(g: seq<string>, q: string, i: int, j: int) returns (m: nat)
    requires GridOk(g) && Hit(g, q, i) && Hit(g, q, j)
    ensures var h := Matches(g, q);
            && m < |Marks(h)| && NextTimes(h, i, m) == j
            && forall l: nat :: l < |Marks(h)| && NextTimes(h, i, l) == j ==> l == m
  {
    m := NextReachesEachMarkOnce(Matches(g, q), i, j);
  }
}
