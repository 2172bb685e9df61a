/** The one-character-per-cell text form of a board (`char_of_cell` and
    `show_game_state` in board.cpp), produced as a string instead of being
    written to a stream. */
module Rendering {
  import opened Cells
  import opened Grid
  import opened Boards

  /** The leading decimal digit of a positive number (`to_string(n).at(0)`). */
  function LeadingDigit(n: nat): (ch: char)
    requires n > 0
    ensures '1' <= ch <= '9'
    ensures n < 10 ==> ch as int - '0' as int == n
  {
    if n < 10 then ('0' as int + n) as char else LeadingDigit(n / 10)
  }

  /** `char_of_cell(c, disclose_bomb)`. */
  function CharOfCell(c: Cell, disclose: bool): (ch: char)
  {
    if c.IsFlagged() then (if disclose && !c.hasBomb then 'f' else 'F')
    else if disclose && c.hasBomb then '+'
    else if c.IsOpened() then (if c.neighborBombs == 0 then ' ' else LeadingDigit(c.neighborBombs))
    else 'O'
  }

  /** Without disclosure the character never depends on the bomb, and it
      tells the three states apart: 'F' for Flagged, 'O' for Closed, a blank
      or the count for Opened. */
  lemma CharOfCellHidesBombs(c: Cell)
    ensures CharOfCell(c, false) == CharOfCell(c.(hasBomb := !c.hasBomb), false)
    ensures CharOfCell(c, false) == 'F' <==> c.IsFlagged()
    ensures CharOfCell(c, false) == 'O' <==> c.IsClosed()
    ensures c.IsOpened() && c.neighborBombs == 0 ==> CharOfCell(c, false) == ' '
    ensures c.IsOpened() && 0 < c.neighborBombs < 10 ==>
      CharOfCell(c, false) as int - '0' as int == c.neighborBombs
  {
  }

  /** With disclosure every bomb shows: as '+' or, when flagged, as 'F';
      a flag on a safe cell shows as 'f'; any other safe cell shows as it
      does without disclosure. */
  lemma CharOfCellDisclosed(c: Cell)
    ensures c.hasBomb ==> CharOfCell(c, true) in {'+', 'F'}
    ensures !c.hasBomb && !c.IsFlagged() ==> CharOfCell(c, true) == CharOfCell(c, false)
    ensures CharOfCell(c, true) == 'f' <==> c.IsFlagged() && !c.hasBomb
    ensures CharOfCell(c, true) == '+' <==> !c.IsFlagged() && c.hasBomb
  {
  }

  /** Where the character of cell `i` stands in the text: two characters
      per cell, plus a newline wherever a row other than the first starts. */
  function Pos(width: int, i: int): (p: int)
    requires width > 0 && i >= 0
    ensures p >= 2 * i
  {
    if i == 0 then 0 else Pos(width, i - 1) + 2 + (if StartsRow(width, i) then 1 else 0)
  }

  /** Cell `i` is the first of a row other than the first row. */
  predicate StartsRow(width: int, i: int)
    requires width > 0
  {
    i != 0 && i % width == 0
  }

  lemma DivMonotone(a: int, b: int, w: int)
    requires 0 <= a <= b && w > 0
    ensures a / w <= b / w
  {
    if a / w > b / w {
      MulLe(b / w + 1, a / w, w);
    }
  }

  /** Cell `i` is preceded by `2 * i` characters and `i / width` newlines. */
  lemma {:induction false} PosClosedForm(w: int, i: int)
    requires w > 0 && i >= 0
    ensures Pos(w, i) == 2 * i + i / w
  {
    if i > 0 {
      PosClosedForm(w, i - 1);
      var q := (i - 1) / w;
      var m := (i - 1) % w;
      assert i - 1 == m + q * w;
      if m == w - 1 {
        assert i == 0 + (q + 1) * w by {
          assert (q + 1) * w == q * w + w;
        }
        DivModOfPoint(w, 0, q + 1);
      } else {
        assert i == (m + 1) + q * w;
        DivModOfPoint(w, m + 1, q);
      }
    }
  }

  /** Row `r` of the text starts at `r * (2 * width + 1)`. */
  lemma PosOfPoint(w: int, c: int, r: int)
    requires 0 <= c < w && r >= 0
    ensures FromPoint(w, c, r) >= 0
    ensures Pos(w, FromPoint(w, c, r)) == r * (2 * w + 1) + 2 * c
  {
    MulLe(0, r, w);
    DivModOfPoint(w, c, r);
    PosClosedForm(w, FromPoint(w, c, r));
  }

  /** The text of a board is two characters per cell plus one newline per
      row after the first. */
  lemma TextLength(w: int, h: int)
    requires w > 0 && h > 0
    ensures w * h > 0 && Pos(w, w * h - 1) + 2 == 2 * (w * h) + h - 1
  {
    MulLe(1, h, w);
    assert (h - 1) * w == w * h - w;
    assert FromPoint(w, w - 1, h - 1) == w * h - 1;
    PosOfPoint(w, w - 1, h - 1);
    RowWidth(h - 1, w);
  }

  /** A row of the text is `2 * w + 1` characters. */
  lemma RowWidth(a: int, w: int)
    ensures a * (2 * w + 1) == 2 * (a * w) + a
  {
  }

  /** The text of the first `n` cells is laid out as `Pos` says: it ends
      right after the blank of cell `n - 1`, the character of each cell
      `j` stands at `Pos(w, j)` followed by a blank, and a newline comes
      right before every cell that starts a row. */
  ghost predicate LaidOut(s: string, w: int, cells: seq<Cell>, disclose: bool, n: int)
    requires w > 0 && 0 <= n <= |cells|
  {
    && |s| == (if n == 0 then 0 else Pos(w, n - 1) + 2)
    && (forall j :: 0 <= j < n ==> (Pos(w, j) + 1 < |s| &&
         s[Pos(w, j)] == CharOfCell(cells[j], disclose) && s[Pos(w, j) + 1] == ' '))
    && (forall j :: 0 <= j < n && StartsRow(w, j) ==> (0 < Pos(w, j) <= |s| && s[Pos(w, j) - 1] == '\n'))
  }

  /** A complete layout of a valid board has one blank per cell, one
      character per cell and a newline between consecutive rows. */
  lemma LaidOutLength(s: string, b: Board, disclose: bool)
    requires Valid(b) && LaidOut(s, b.width, b.cells, disclose, |b.cells|)
    ensures |s| == 2 * |b.cells| + b.height - 1
  {
    TextLength(b.width, b.height);
  }

  /** The text after cell `n` is written: a newline first when the cell
      starts a row other than the first, then its character and a blank. */
  function Extend(s: string, w: int, cells: seq<Cell>, disclose: bool, n: int): (t: string)
    requires w > 0 && 0 <= n < |cells|
    ensures |t| == |s| + (if StartsRow(w, n) then 3 else 2)
    ensures t[..|s|] == s && t[|t| - 2] == CharOfCell(cells[n], disclose) && t[|t| - 1] == ' '
  {
    (if StartsRow(w, n) then s + "\n" else s) + [CharOfCell(cells[n], disclose), ' ']
  }

  /** One iteration of the rendering loop extends the layout by one cell. */
  lemma LaidOutNext(s: string, w: int, cells: seq<Cell>, disclose: bool, n: int)
    requires w > 0 && 0 <= n < |cells|
    requires LaidOut(s, w, cells, disclose, n)
    ensures LaidOut(Extend(s, w, cells, disclose, n), w, cells, disclose, n + 1)
  {
    var s1 := if StartsRow(w, n) then s + "\n" else s;
    var t := s1 + [CharOfCell(cells[n], disclose), ' '];
    assert |s1| == Pos(w, n);
    forall j | 0 <= j <= n
      ensures Pos(w, j) + 1 < |t| && t[Pos(w, j)] == CharOfCell(cells[j], disclose) && t[Pos(w, j) + 1] == ' '
    {
      if j < n {
        assert t[Pos(w, j)] == s[Pos(w, j)] && t[Pos(w, j) + 1] == s[Pos(w, j) + 1];
      }
    }
    forall j | 0 <= j <= n && StartsRow(w, j)
      ensures 0 < Pos(w, j) <= |t| && t[Pos(w, j) - 1] == '\n'
    {
      if j < n {
        assert t[Pos(w, j) - 1] == s[Pos(w, j) - 1];
      } else {
        assert t[Pos(w, j) - 1] == s1[Pos(w, j) - 1];
      }
    }
  }

  /** `show_game_state(os, disclose_bombs)`: each cell's character followed
      by a blank, with a newline before every row but the first. */
  method ShowGameState(b: Board, disclose: bool) returns (s: string)
    requires Valid(b)
    ensures LaidOut(s, b.width, b.cells, disclose, |b.cells|)
    ensures |s| == 2 * |b.cells| + b.height - 1
  {
    s := RenderCells(b.cells, b.width, disclose);
    LaidOutLength(s, b, disclose);
  }

  /** The loop of `show_game_state`, one cell per iteration. */
  method RenderCells(cells: seq<Cell>, w: int, disclose: bool) returns (s: string)
    requires w > 0
    ensures LaidOut(s, w, cells, disclose, |cells|)
  {
    s := "";
    var i := 0;
    while i < |cells|
      invariant 0 <= i <= |cells|
      invariant LaidOut(s, w, cells, disclose, i)
    {
      LaidOutNext(s, w, cells, disclose, i);
      s := Extend(s, w, cells, disclose, i);
      i := i + 1;
    }
  }
}
