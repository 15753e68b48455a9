/**
 What a terminal should show: the whole output laid out on an endless sheet of
 80 columns, seen through a window of 24 rows.
*/
module Paper {
  import opened Buffers

  const COLS: nat := 80
  const ROWS: nat := 24
  const CELLS: nat := 1920

  /** The rest of a row from position k on. */
  function RestOfRow(k: nat): (s: seq<char>)
    ensures |s| == COLS - k % COLS
  {
    seq(COLS - k % COLS, _ => ' ')
  }

  /** The sheet after printing s: a character takes the next cell, a newline
      leaves the rest of the row blank. */
  function Render(s: string): seq<char> {
    if s == [] then []
    else
      var p := Render(s[..|s| - 1]);
      if s[|s| - 1] == '\n' then p + RestOfRow(|p|) else p + [s[|s| - 1]]
  }

  function Cell(p: seq<char>, k: nat): char {
    if k < |p| then p[k] else ' '
  }

  /** The sheet's row at the top of the window.  It advances only when a
      character is printed below the window, so a final newline does not. */
  function Top(s: string): nat {
    if s == [] then 0 else TopFor(|Render(s[..|s| - 1])|)
  }

  /** The top row while the cell at position n is printed. */
  function TopFor(n: nat): nat {
    if n / COLS < ROWS then 0 else n / COLS - (ROWS - 1)
  }

  /** Blanks written by a newline are blank on the sheet anyway. */
  lemma NewlineCells(p: seq<char>, k: nat)
    ensures Cell(p + RestOfRow(|p|), k) == Cell(p, k)
  {
  }

  /** A cell holding c looks like d.  Rows that scroll in and deleted characters
      leave zeros behind, which look like spaces. */
  predicate LooksLike(c: char, d: char) {
    c == d || (c == '\0' && d == ' ')
  }

  /** The page looks like the window of the sheet that starts at row `top`. */
  ghost predicate Window(page: seq<char>, p: seq<char>, top: nat) {
    |page| >= CELLS && forall k :: 0 <= k < CELLS ==> LooksLike(page[k], Cell(p, COLS * top + k))
  }

  /** The page shows the output s. */
  ghost predicate Shows(page: seq<char>, s: string) {
    Window(page, Render(s), Top(s))
  }

  /** Scrolling a window with nothing below it moves it down a row. */
  lemma WindowScrolls(page: seq<char>, p: seq<char>, top: nat)
    requires Window(page, p, top) && |p| <= COLS * (top + ROWS)
    ensures Window(Scrolled(page, COLS, CELLS), p, top + 1)
  {
    hide Scrolled;
    var r := Scrolled(page, COLS, CELLS);
    forall k | 0 <= k < CELLS ensures LooksLike(r[k], Cell(p, COLS * (top + 1) + k)) {
      ScrolledCell(page, COLS, CELLS, k);
    }
  }

  lemma BlankWindow(page: seq<char>)
    requires |page| >= CELLS && forall k :: 0 <= k < CELLS ==> page[k] == ' '
    ensures Window(page, [], 0)
  {
  }

  /** A character printed in the window's next cell. */
  lemma WindowPrints(page: seq<char>, p: seq<char>, top: nat, c: char, at: nat)
    requires Window(page, p, top) && |p| == COLS * top + at && at < CELLS
    ensures Window(page[at := c], p + [c], top)
  {
  }

  /** A newline changes no cell of any window. */
  lemma WindowNewline(page: seq<char>, p: seq<char>, top: nat)
    requires Window(page, p, top)
    ensures Window(page, p + RestOfRow(|p|), top)
  {
    forall k | 0 <= k < CELLS ensures LooksLike(page[k], Cell(p + RestOfRow(|p|), COLS * top + k)) {
      NewlineCells(p, COLS * top + k);
    }
  }

  /** The output so far fills its last row exactly. */
  /** A newline adds blanks to the sheet up to the start of the next row: a whole
      row of them, if it comes at the start of one. */
  lemma RenderBreak(s: string)
    ensures var p, q := Render(s), Render(s + "\n");
            && |p| < |q| <= |p| + 80 && |q| % 80 == 0 && q[..|p|] == p
            && forall k :: |p| <= k < |q| ==> q[k] == ' '
  {
    RenderSnoc(s, '\n');
  }

  /** The window moves down by as little as shows the cell just printed: with
      rows above it, that cell is in its last row. */
  lemma TopIsLazy(s: string, c: char)
    ensures var n, top := |Render(s)|, Top(s + [c]);
            80 * top <= n < 80 * (top + 24) && (top > 0 ==> n / 80 == top + 23)
  {
    RenderSnoc(s, c);
  }

  predicate EndsFull(s: string) {
    s != [] && s[|s| - 1] != '\n' && |Render(s)| % COLS == 0
  }

  lemma RenderSnoc(s: string, c: char)
    ensures Render(s + [c]) == if c == '\n' then Render(s) + RestOfRow(|Render(s)|) else Render(s) + [c]
    ensures Top(s + [c]) == TopFor(|Render(s)|)
  {
    assert (s + [c])[..|s|] == s;
  }

  /** The position a newline moves to. */
  lemma NewlineAt(k: nat)
    ensures k + |RestOfRow(k)| == (k / COLS + 1) * COLS
  {
  }

  /** The window whose row `row` holds cell n, unless it could start higher. */
  lemma TopForIs(n: nat, top: nat, row: nat, col: nat)
    requires n == COLS * (top + row) + col && row < ROWS && col < COLS && (top > 0 ==> row == ROWS - 1)
    ensures TopFor(n) == top
  {
    assert n / COLS == top + row;
  }

  /** No newline gets onto the sheet, and nothing that was not printed. */
  lemma {:induction false} RenderHolds(s: string)
    ensures forall c :: c in Render(s) ==> c != '\n' && (c == ' ' || c in s)
  {
    if s != [] {
      RenderHolds(s[..|s| - 1]);
      forall c | c in Render(s) ensures c != '\n' && (c == ' ' || c in s) {
        if c !in Render(s[..|s| - 1]) && s[|s| - 1] == '\n' {
          assert c in RestOfRow(|Render(s[..|s| - 1])|);
        }
      }
    }
  }

  /** Text without a newline goes onto the sheet as it is. */
  lemma {:induction false} RenderText(s: string, t: string)
    requires '\n' !in t
    ensures Render(s + t) == Render(s) + t
  {
    hide Render, RestOfRow;
    if t == [] {
      assert s + t == s && Render(s) + t == Render(s);
    } else {
      var n := |t| - 1;
      RenderText(s, t[..n]);
      RenderSnoc(s + t[..n], t[n]);
      assert s + t == s + t[..n] + [t[n]];
      assert Render(s) + t == Render(s) + t[..n] + [t[n]];
    }
  }

  // ---------------------------------------------------------------- editing

  /** Cells lo to hi moved one to the right, the last one onto cell hi. */
  function ShiftedRight(s: seq<char>, lo: nat, hi: nat): (r: seq<char>)
    requires lo <= hi < |s|
    ensures |r| == |s|
  {
    s[..lo + 1] + s[lo..hi] + s[hi + 1..]
  }

  /** Cells lo + 1 to hi moved one to the left. */
  function ShiftedLeft(s: seq<char>, lo: nat, hi: nat): (r: seq<char>)
    requires lo <= hi < |s|
    ensures |r| == |s|
  {
    s[..lo] + s[lo + 1..hi + 1] + s[hi..]
  }

  lemma NoShift(s: seq<char>, at: nat)
    requires at < |s|
    ensures ShiftedRight(s, at, at) == s && ShiftedLeft(s, at, at) == s
  {
  }

  lemma ClosedAnyway(s: seq<char>, lo: nat, hi: nat)
    requires lo < hi < |s|
    ensures ShiftedLeft(s[lo := '\0'], lo, hi) == ShiftedLeft(s, lo, hi)
  {
  }

  lemma GapStep(s: seq<char>, at: nat, hi: nat)
    requires 0 < at <= hi < |s|
    ensures ShiftedRight(s, at, hi)[at := ShiftedRight(s, at, hi)[at - 1]] == ShiftedRight(s, at - 1, hi)
  {
  }

  lemma CloseStep(s: seq<char>, lo: nat, at: nat)
    requires lo <= at && at + 1 < |s|
    ensures ShiftedLeft(s, lo, at)[at := ShiftedLeft(s, lo, at)[at + 1]] == ShiftedLeft(s, lo, at + 1)
  {
  }

  /** Inserting a character on the sheet and on the page in its window. */
  lemma WindowInserts(page: seq<char>, p: seq<char>, top: nat, at: nat, end: nat, c: char)
    requires Window(page, p, top) && |p| == COLS * top + end && at <= end < CELLS
    ensures Window(ShiftedRight(page, at, end)[at := c], p[..COLS * top + at] + [c] + p[COLS * top + at..], top)
  {
    var q := p[..COLS * top + at] + [c] + p[COLS * top + at..];
    var r := ShiftedRight(page, at, end)[at := c];
    forall k | 0 <= k < CELLS ensures LooksLike(r[k], Cell(q, COLS * top + k)) {
      if at < k <= end {
        assert r[k] == page[k - 1];
      }
    }
  }

  /** Deleting a character, with a zero where the line ended or after it. */
  lemma WindowDeletes(page: seq<char>, p: seq<char>, top: nat, at: nat, end: nat)
    requires Window(page, p, top) && |p| == COLS * top + end && at < end < CELLS && end < |page|
    ensures Window(ShiftedLeft(page, at, end)[end := '\0'], p[..COLS * top + at] + p[COLS * top + at + 1..], top)
    ensures at == end - 1 ==> Window(page[at := '\0'], p[..COLS * top + at], top)
  {
    var q := p[..COLS * top + at] + p[COLS * top + at + 1..];
    var r := ShiftedLeft(page, at, end)[end := '\0'];
    forall k | 0 <= k < CELLS ensures LooksLike(r[k], Cell(q, COLS * top + k)) {
      if at <= k < end {
        assert r[k] == page[k + 1];
      }
    }
  }
}
