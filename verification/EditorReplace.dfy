/** Replace All, row by row, against the plain leftmost replacement of a text. */
module EditorReplace {
  import opened EditorText
  import opened EditorSearch

  /** Leftmost, non-overlapping, case-insensitive replacement. */
  function ReplaceText(s: string, f: string, r: string): string
    requires f != []
    decreases |s|
  {
    if s == [] then []
    else if MatchAt(s, |s|, 0, f) then r + ReplaceText(s[|f|..], f, r)
    else [s[0]] + ReplaceText(s[1..], f, r)
  }

  /** How many matches the leftmost scan replaces. */
  function Count(s: string, f: string): nat
    requires f != []
    decreases |s|
  {
    if s == [] then 0
    else if MatchAt(s, |s|, 0, f) then 1 + Count(s[|f|..], f)
    else Count(s[1..], f)
  }

  /** The same while the result still has room: matches that start past the end of the line do not count. */
  function CountWithin(s: string, f: string, r: string, room: int): nat
    requires f != []
    decreases |s|
  {
    if s == [] || room <= 0 then 0
    else if MatchAt(s, |s|, 0, f) then 1 + CountWithin(s[|f|..], f, r, room - |r|)
    else CountWithin(s[1..], f, r, room - 1)
  }

  predicate Occurs(s: string, f: string) { exists i :: 0 <= i < |s| && MatchAt(s, |s|, i, f) }

  function Take(s: string, n: int): string
    requires 0 <= n
  {
    if |s| <= n then s else s[..n]
  }

  /** Cut or blank-pad a text to the width of a line. */
  function Pad(s: string): (l: string)
    ensures |l| == COLS
  {
    if |s| >= COLS then s[..COLS] else s + seq(COLS - |s|, _ => ' ')
  }

  function ReplaceRow(line: string, f: string, r: string): string
    requires f != []
  {
    Pad(ReplaceText(line[..Used(line)], f, r))
  }

  // ----- small facts

  lemma MatchShift(s: string, i: int, f: string)
    requires 0 <= i <= |s|
    ensures MatchAt(s[i..], |s| - i, 0, f) <==> MatchAt(s, |s|, i, f)
  {
    if MatchAt(s[i..], |s| - i, 0, f) {
      assert forall j :: 0 <= j < |f| ==> s[i..][j] == s[i + j];
    }
    if MatchAt(s, |s|, i, f) {
      assert forall j :: 0 <= j < |f| ==> s[i..][j] == s[i + j];
    }
  }

  lemma TakeTwice(a: string, b: string, n: int)
    requires 0 <= n
    ensures Take(Take(a, n) + b, n) == Take(a + b, n)
  {
  }

  lemma OccursShift(s: string, f: string)
    requires s != []
    ensures Occurs(s, f) <==> MatchAt(s, |s|, 0, f) || Occurs(s[1..], f)
  {
    MatchesShift(s, f);
    if Occurs(s, f) && !MatchAt(s, |s|, 0, f) {
      var i :| 0 <= i < |s| && MatchAt(s, |s|, i, f);
      assert MatchAt(s[1..], |s[1..]|, i - 1, f);
    }
    if Occurs(s[1..], f) {
      var i :| 0 <= i < |s[1..]| && MatchAt(s[1..], |s[1..]|, i, f);
      assert MatchAt(s, |s|, i + 1, f);
    }
  }

  /** In a text no longer than the line, the scan counts something exactly when there is a match. */
  lemma {:induction false} CountsIfOccurs(s: string, f: string, r: string, room: int)
    requires f != [] && |s| <= room
    ensures CountWithin(s, f, r, room) > 0 <==> Occurs(s, f)
    decreases |s|
  {
    if s != [] {
      OccursShift(s, f);
      if !MatchAt(s, |s|, 0, f) {
        CountsIfOccurs(s[1..], f, r, room - 1);
      }
    }
  }

  lemma MatchesShift(s: string, f: string)
    requires s != []
    ensures forall j :: 0 <= j < |s| - 1 ==> (MatchAt(s[1..], |s[1..]|, j, f) <==> MatchAt(s, |s|, j + 1, f))
  {
    forall j | 0 <= j < |s| - 1
      ensures MatchAt(s[1..], |s[1..]|, j, f) <==> MatchAt(s, |s|, j + 1, f)
    {
      MatchShift(s, j + 1, f);
      MatchShift(s[1..], j, f);
      assert s[1..][j..] == s[j + 1..];
    }
  }

  lemma Reassemble(s: string, r: string, rest: string, i: int)
    requires 0 < i <= |s|
    ensures [s[0]] + (s[1..][..i - 1] + r + rest) == s[..i] + r + rest
  {
    assert s[..i] == [s[0]] + s[1..][..i - 1];
  }

  /** With its first match at i, a text becomes what is before it, the new text, and the rest replaced. */
  lemma {:induction false} ReplacesFirstMatch(s: string, f: string, r: string, i: int)
    requires f != [] && 0 <= i < |s| && MatchAt(s, |s|, i, f)
    requires forall j :: 0 <= j < i ==> !MatchAt(s, |s|, j, f)
    ensures i + |f| <= |s| && ReplaceText(s, f, r) == s[..i] + r + ReplaceText(s[i + |f|..], f, r)
    decreases |s|
  {
    if i == 0 {
      assert s[..0] + r == r;
    } else {
      MatchesShift(s, f);
      ReplacesFirstMatch(s[1..], f, r, i - 1);
      Reassemble(s, r, ReplaceText(s[i + |f|..], f, r), i);
      assert s[1..][i - 1 + |f|..] == s[i + |f|..];
    }
  }

  lemma {:induction false} NothingToReplace(s: string, f: string, r: string)
    requires f != [] && !Occurs(s, f)
    ensures ReplaceText(s, f, r) == s
    decreases |s|
  {
    if s != [] {
      OccursShift(s, f);
      NothingToReplace(s[1..], f, r);
    }
  }

  /** Each replacement changes the length by the difference of the two texts. */
  lemma {:induction false} ReplacedLength(s: string, f: string, r: string)
    requires f != []
    ensures |ReplaceText(s, f, r)| == |s| + Count(s, f) * (|r| - |f|)
    decreases |s|
  {
    if s != [] {
      if MatchAt(s, |s|, 0, f) {
        ReplacedLength(s[|f|..], f, r);
        OneMore(Count(s[|f|..], f), |r| - |f|);
      } else {
        ReplacedLength(s[1..], f, r);
      }
    }
  }

  lemma OneMore(n: int, d: int)
    ensures (n + 1) * d == n * d + d
  {
  }

  /** A result that leaves room has all its matches counted; otherwise some may be cut off. */
  lemma {:induction false} CountIsComplete(s: string, f: string, r: string, room: int)
    requires f != []
    ensures CountWithin(s, f, r, room) <= Count(s, f)
    ensures |ReplaceText(s, f, r)| < room ==> CountWithin(s, f, r, room) == Count(s, f)
    decreases |s|
  {
    if s != [] && room > 0 {
      if MatchAt(s, |s|, 0, f) {
        CountIsComplete(s[|f|..], f, r, room - |r|);
      } else {
        CountIsComplete(s[1..], f, r, room - 1);
      }
    }
  }

  /** A replaced row is the first 78 characters of the replaced text, then blanks. */
  lemma RowIsPadded(line: string, f: string, r: string)
    requires |line| == COLS && f != []
    ensures var t := ReplaceText(line[..Used(line)], f, r);
            |ReplaceRow(line, f, r)| == 78 &&
            forall i :: 0 <= i < 78 ==> ReplaceRow(line, f, r)[i] == if i < |t| then t[i] else ' '
  {
  }

  lemma PadUsed(line: string)
    requires |line| == COLS
    ensures Pad(line[..Used(line)]) == line
  {
  }

  /** A row without the text is its own replacement. */
  lemma RowUnchanged(line: string, f: string, r: string)
    requires |line| == COLS && f != [] && !Occurs(line[..Used(line)], f)
    ensures ReplaceRow(line, f, r) == line
  {
    NothingToReplace(line[..Used(line)], f, r);
    PadUsed(line);
  }

  lemma {:induction false} ReplaceIsPrintable(s: string, f: string, r: string)
    requires f != [] && TextOk(s) && TextOk(r)
    ensures TextOk(ReplaceText(s, f, r))
    decreases |s|
  {
    if s != [] {
      if MatchAt(s, |s|, 0, f) {
        ReplaceIsPrintable(s[|f|..], f, r);
      } else {
        ReplaceIsPrintable(s[1..], f, r);
      }
    }
  }

  lemma RowIsPrintable(line: string, f: string, r: string)
    requires LineOk(line) && f != [] && TextOk(r)
    ensures LineOk(ReplaceRow(line, f, r))
  {
    ReplaceIsPrintable(line[..Used(line)], f, r);
  }

  // ----- the code

  /** Append a text as far as the line is wide. */
  method AppendUpTo(merged: string, r: string) returns (out: string)
    requires |merged| <= COLS
    ensures out == Take(merged + r, COLS)
  {
    out := merged;
    var j := 0;
    while j < |r| && |out| < COLS
      invariant 0 <= j <= |r| && |out| <= COLS && out == merged + r[..j]
    {
      out := out + [r[j]];
      j := j + 1;
    }
  }

  /** The state of the merge: what is merged so far and what is left still make up the full result. */
  ghost predicate Merging(u: string, f: string, r: string, i: int, merged: string, n: nat)
    requires f != []
  {
    && 0 <= i <= |u| && |merged| <= COLS
    && Take(merged + ReplaceText(u[i..], f, r), COLS) == Take(ReplaceText(u, f, r), COLS)
    && n + CountWithin(u[i..], f, r, COLS - |merged|) == CountWithin(u, f, r, COLS)
  }

  lemma {:induction false} NoRoomNoCount(s: string, f: string, r: string, room: int)
    requires f != [] && room <= 0
    ensures CountWithin(s, f, r, room) == 0
  {
  }

  lemma {:induction false} CountStep(u: string, f: string, r: string, i: int, out: string)
    requires f != [] && 0 <= i < |u| && |out| < COLS
    ensures var c := CountWithin(u[i..], f, r, COLS - |out|);
            && (MatchAt(u, |u|, i, f) ==>
                  i + |f| <= |u| && c == 1 + CountWithin(u[i + |f|..], f, r, COLS - |Take(out + r, COLS)|))
            && (!MatchAt(u, |u|, i, f) ==> c == CountWithin(u[i + 1..], f, r, COLS - |out + [u[i]]|))
  {
    MatchShift(u, i, f);
    assert |u[i..]| == |u| - i;
    if MatchAt(u, |u|, i, f) {
      assert u[i..][|f|..] == u[i + |f|..];
      if |out + r| > COLS {
        NoRoomNoCount(u[i + |f|..], f, r, COLS - |out| - |r|);
        NoRoomNoCount(u[i + |f|..], f, r, 0);
      }
    } else {
      assert u[i..][1..] == u[i + 1..];
    }
  }

  lemma {:induction false} MergeTexts(u: string, f: string, r: string, i: int, out: string)
    requires f != [] && 0 <= i < |u| && |out| < COLS
    ensures MatchAt(u, |u|, i, f) ==>
              i + |f| <= |u| &&
              Take(Take(out + r, COLS) + ReplaceText(u[i + |f|..], f, r), COLS) ==
              Take(out + ReplaceText(u[i..], f, r), COLS)
    ensures !MatchAt(u, |u|, i, f) ==>
              Take(out + [u[i]] + ReplaceText(u[i + 1..], f, r), COLS) == Take(out + ReplaceText(u[i..], f, r), COLS)
  {
    MatchShift(u, i, f);
    assert |u[i..]| == |u| - i;
    if MatchAt(u, |u|, i, f) {
      assert u[i..][|f|..] == u[i + |f|..];
      var rest := ReplaceText(u[i + |f|..], f, r);
      TakeTwice(out + r, rest, COLS);
      assert out + r + rest == out + (r + rest);
    } else {
      assert u[i..][1..] == u[i + 1..];
      var rest := ReplaceText(u[i + 1..], f, r);
      assert out + [u[i]] + rest == out + ([u[i]] + rest);
    }
  }

  /** One round of the merge, with and without a match. */
  lemma {:induction false} MergeStep(u: string, f: string, r: string, i: int, out: string, n: nat)
    requires f != [] && Merging(u, f, r, i, out, n) && i < |u| && |out| < COLS
    ensures MatchAt(u, |u|, i, f) ==> Merging(u, f, r, i + |f|, Take(out + r, COLS), n + 1)
    ensures !MatchAt(u, |u|, i, f) ==> Merging(u, f, r, i + 1, out + [u[i]], n)
  {
    MergeTexts(u, f, r, i, out);
    CountStep(u, f, r, i, out);
  }

  lemma {:induction false} MergeStart(u: string, f: string, r: string)
    requires f != []
    ensures Merging(u, f, r, 0, "", 0)
  {
    assert u[0..] == u && "" + ReplaceText(u, f, r) == ReplaceText(u, f, r);
  }

  lemma {:induction false} MergeDone(u: string, f: string, r: string, i: int, merged: string, n: nat)
    requires f != [] && |u| <= COLS && Merging(u, f, r, i, merged, n) && (i == |u| || |merged| == COLS)
    ensures merged == Take(ReplaceText(u, f, r), COLS)
    ensures n == CountWithin(u, f, r, COLS)
  {
    if i == |u| {
      assert u[i..] == [];
    } else {
      NoRoomNoCount(u[i..], f, r, 0);
    }
  }

  /** The body of the merge loop: copy one character, or put the replacement for a match. */
  method MergeOnce(u: string, f: string, r: string, i: int, merged: string, n: nat)
    returns (i': int, merged': string, n': nat)
    requires f != [] && Merging(u, f, r, i, merged, n) && i < |u| && |merged| < COLS
    ensures Merging(u, f, r, i', merged', n') && i < i'
  {
    MergeStep(u, f, r, i, merged, n);
    var here := ContainsAt(u, |u|, i, f);
    if here {
      merged' := AppendUpTo(merged, r);
      i', n' := i + |f|, n + 1;
    } else {
      merged', i', n' := merged + [u[i]], i + 1, n;
    }
  }

  /** The merge loop of replace_all_occurrences over the used part of one row. */
  method MergeRow(u: string, f: string, r: string) returns (merged: string, n: nat)
    requires |u| <= COLS && f != []
    ensures merged == Take(ReplaceText(u, f, r), COLS)
    ensures n == CountWithin(u, f, r, COLS) && (n > 0 <==> Occurs(u, f))
  {
    CountsIfOccurs(u, f, r, COLS);
    merged, n := "", 0;
    var i := 0;
    MergeStart(u, f, r);
    while i < |u| && |merged| < COLS
      invariant Merging(u, f, r, i, merged, n)
      decreases |u| - i
    {
      i, merged, n := MergeOnce(u, f, r, i, merged, n);
    }
    MergeDone(u, f, r, i, merged, n);
  }

  predicate RowHas(line: string, f: string) { Occurs(line[..Used(line)], f) }

  function RowCount(line: string, f: string, r: string): nat
    requires f != []
  {
    CountWithin(line[..Used(line)], f, r, COLS)
  }

  predicate AnyRowHas(g: seq<string>, f: string) { exists i :: 0 <= i < |g| && RowHas(g[i], f) }

  function ReplaceRows(g: seq<string>, f: string, r: string): seq<string>
    requires f != []
  {
    seq(|g|, i requires 0 <= i < |g| => ReplaceRow(g[i], f, r))
  }

  /** Replacements in the first k rows. */
  function RowsCount(g: seq<string>, f: string, r: string, k: nat): nat
    requires f != [] && k <= |g|
  {
    if k == 0 then 0 else RowsCount(g, f, r, k - 1) + RowCount(g[k - 1], f, r)
  }

  /** Nothing is counted exactly when no row has the text, and then every row is its own replacement. */
  lemma {:induction false} NoneCounted(g: seq<string>, f: string, r: string, k: nat)
    requires f != [] && k <= |g| && forall i :: 0 <= i < k ==> |g[i]| == COLS
    ensures RowsCount(g, f, r, k) == 0 <==> forall i :: 0 <= i < k ==> !RowHas(g[i], f)
    ensures RowsCount(g, f, r, k) == 0 ==> forall i :: 0 <= i < k ==> ReplaceRow(g[i], f, r) == g[i]
    decreases k
  {
    if k > 0 {
      NoneCounted(g, f, r, k - 1);
      var u := g[k - 1][..Used(g[k - 1])];
      CountsIfOccurs(u, f, r, COLS);
      if !Occurs(u, f) {
        RowUnchanged(g[k - 1], f, r);
      }
    }
  }

  lemma NoneCountedInAll(g: seq<string>, f: string, r: string)
    requires f != [] && |g| == ROWS && forall i :: 0 <= i < ROWS ==> |g[i]| == COLS
    ensures RowsCount(g, f, r, ROWS) > 0 <==> AnyRowHas(g, f)
    ensures !AnyRowHas(g, f) ==> ReplaceRows(g, f, r) == g
  {
    NoneCounted(g, f, r, ROWS);
  }

  /** One row of replace_all_occurrences. */
  method ReplaceInRow(line: string, f: string, r: string) returns (l: string, n: nat)
    requires |line| == COLS && f != []
    ensures l == ReplaceRow(line, f, r)
    ensures n == RowCount(line, f, r) && (n > 0 <==> RowHas(line, f))
    ensures n == 0 ==> l == line
  {
    var used := UsedLength(line);
    var merged;
    merged, n := MergeRow(line[..used], f, r);
    l := line;
    if n > 0 {
      l := Pad(merged);
    } else {
      RowUnchanged(line, f, r);
    }
  }

  /** replace_all_occurrences. */
  method ReplaceAll(lines: array<string>, f: string, r: string) returns (total: nat)
    requires lines.Length == ROWS && forall i :: 0 <= i < ROWS ==> |lines[i]| == COLS
    modifies lines
    ensures f == [] ==> total == 0
    ensures f != [] ==> lines[..] == ReplaceRows(old(lines[..]), f, r)
    ensures f != [] ==> total == RowsCount(old(lines[..]), f, r, ROWS)
    ensures f != [] ==> (total > 0 <==> AnyRowHas(old(lines[..]), f))
    ensures total == 0 ==> lines[..] == old(lines[..])
  {
    total := 0;
    if |f| <= 0 {
      return;
    }
    ghost var g := lines[..];
    NoneCountedInAll(g, f, r);
    for row := 0 to ROWS
      invariant forall i :: row <= i < ROWS ==> lines[i] == g[i]
      invariant forall i :: 0 <= i < row ==> lines[i] == ReplaceRow(g[i], f, r)
      invariant total == RowsCount(g, f, r, row)
    {
      var l, n := ReplaceInRow(lines[row], f, r);
      if n > 0 {
        lines[row] := l;
      }
      total := total + n;
    }
    assert lines[..] == ReplaceRows(g, f, r);
  }
}
