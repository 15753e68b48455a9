/**
 What a terminal's position fields mean for its page, while it prints and while
 it edits a line.
*/
module Screen {
  import opened Editor
  import opened Paper

  const NUM_COLS: int := 80
  const NUM_ROWS: int := 25
  const STATUS_BAR_HEIGHT: int := 1
  const TEXT_ROWS: int := 24
  const PAGE_CELLS: nat := 2048
  const SCREEN_SIZE: nat := 2000
  const CHAR_BUFFER_SIZE: nat := 128
  const MAX_COMMAND_STORE: nat := 20

  /** C's division and remainder, which truncate towards zero. */
  function CDiv(a: int, b: int): int
    requires b > 0
  {
    if a >= 0 then a / b else -((-a) / b)
  }

  function CRem(a: int, b: int): int
    requires b > 0
  {
    if a >= 0 then a % b else -((-a) % b)
  }

  /** Storing at a cell that may lie outside the page; memory around the page
      is not modelled. */
  function Stored(page: seq<char>, at: int, c: char): (r: seq<char>)
    ensures |r| == |page|
  {
    if 0 <= at < |page| then page[at := c] else page
  }

  lemma StoredAt(page: seq<char>, at: int, c: char)
    requires 0 <= at < |page|
    ensures Stored(page, at, c) == page[at := c]
  {
  }

  function Fetched(page: seq<char>, at: int): char {
    if 0 <= at < |page| then page[at] else '\0'
  }

  lemma StoredGapStep(page: seq<char>, at: int, hi: int)
    requires 0 < at <= hi < |page|
    ensures var r := ShiftedRight(page, at, hi); Stored(r, at, Fetched(r, at - 1)) == ShiftedRight(page, at - 1, hi)
  {
    hide ShiftedRight;
    GapStep(page, at, hi);
  }

  lemma StoredCloseStep(page: seq<char>, lo: int, at: int)
    requires 0 <= lo <= at && at + 1 < |page|
    ensures var r := ShiftedLeft(page, lo, at); Stored(r, at, Fetched(r, at + 1)) == ShiftedLeft(page, lo, at + 1)
  {
    hide ShiftedLeft;
    CloseStep(page, lo, at);
  }

  /** Row, column, cursor and screen position all name the sheet's next cell,
      and the page shows the output.  Within a call the column can be 80. */
  ghost predicate TrackedBy(s: string, row: int, col: int, x: int, y: int, cursor: int, page: seq<char>) {
    && 0 <= row <= TEXT_ROWS && 0 <= col <= NUM_COLS && (col > 0 ==> row < TEXT_ROWS)
    && x == col % NUM_COLS && y == (row + col / NUM_COLS) % TEXT_ROWS
    && cursor == NUM_COLS * row + col
    && |Render(s)| == COLS * (Top(s) + row) + col
    && (Top(s) > 0 ==> row >= TEXT_ROWS - 1)
    && (col == 0 <==> s == [] || s[|s| - 1] == '\n')
    && '\r' !in s && Shows(page, s)
  }

  lemma StartTracked(s: string, page: seq<char>)
    requires s == "" && Window(page, [], 0)
    ensures TrackedBy(s, 0, 0, 0, 0, 0, page) && RowOf(s, s)
  {
  }

  /** Only the 24 text rows of the page matter. */
  lemma TextRowsMatter(s: string, row: int, col: int, x: int, y: int, cursor: int, page: seq<char>, other: seq<char>)
    requires TrackedBy(s, row, col, x, y, cursor, page)
    requires |other| >= CELLS && other[..CELLS] == page[..CELLS]
    ensures TrackedBy(s, row, col, x, y, cursor, other)
  {
    forall k | 0 <= k < CELLS ensures other[k] == page[k] {
      assert other[k] == other[..CELLS][k] && page[k] == page[..CELLS][k];
    }
  }

  /** c has been printed after s; row and column still name its cell. */
  ghost predicate PrintedBy(s: string, c: char, row: int, col: int, x: int, y: int, cursor: int, page: seq<char>) {
    var n := |Render(s)|;
    && 0 <= row < TEXT_ROWS && 0 <= col < NUM_COLS
    && cursor == NUM_COLS * row + col
    && n == COLS * (TopFor(n) + row) + col
    && (TopFor(n) > 0 ==> row == TEXT_ROWS - 1)
    && '\r' !in s + [c] && Shows(page, s + [c])
    && (if c == '\n' then x == 0 && y == (row + 1) % TEXT_ROWS
        else x == (col + 1) % NUM_COLS && y == (row + (col + 1) / NUM_COLS) % TEXT_ROWS)
  }

  /** Moving on from the cell of c. */
  lemma NextTracked(s: string, c: char, row: int, col: int, x: int, y: int, cursor: int, page: seq<char>)
    requires PrintedBy(s, c, row, col, x, y, cursor, page)
    ensures cursor >= 0
    ensures if c == '\n' then TrackedBy(s + [c], row + 1, 0, x, y, (cursor / NUM_COLS + 1) * NUM_COLS, page)
            else TrackedBy(s + [c], row, col + 1, x, y, cursor + 1, page)
  {
    hide Render, Window, Top, TopFor;
    RenderSnoc(s, c);
    NewlineAt(|Render(s)|);
    assert (s + [c])[|s + [c]| - 1] == c;
    if c == '\n' {
      assert cursor / NUM_COLS == row;
      assert |Render(s)| / COLS == TopFor(|Render(s)|) + row;
    }
  }

  /** terminal_write ends by reducing the column modulo 80 and nothing else. */
  lemma EndOfWrite(s: string, row: int, col: int, x: int, y: int, cursor: int, page: seq<char>)
    requires TrackedBy(s, row, col, x, y, cursor, page)
    ensures Shows(page, s) && (col == NUM_COLS <==> EndsFull(s))
    ensures TrackedBy(s, row, col % NUM_COLS, x, y, cursor, page) <==> !EndsFull(s)
  {
    hide Render, Window, Top, Shows;
  }

  /** The end of the output's last row. */
  ghost predicate RowOf(s: string, live: seq<char>) {
    |live| <= |Render(s)| && live == Render(s)[|Render(s)| - |live|..]
  }

  /** The live buffer's row with one character more: it starts afresh with every
      row. */
  function KeepChar(row: seq<char>, c: char): seq<char> {
    if c == '\n' then [] else (if |row| == NUM_COLS then [] else row) + [c]
  }

  function Kept(row: seq<char>, text: string): seq<char> {
    if text == "" then row else KeepChar(Kept(row, text[..|text| - 1]), text[|text| - 1])
  }

  lemma KeptSnoc(row: seq<char>, text: string, c: char)
    ensures Kept(row, text + [c]) == KeepChar(Kept(row, text), c)
  {
    assert (text + [c])[..|text|] == text;
  }

  lemma KeptNothing(row: seq<char>, text: string)
    ensures text == "" ==> Kept(row, text) == row
  {
  }

  /** The row that a write leaves in the live buffer, for the line to follow. */
  function NextPrompt(row: seq<char>, text: string): seq<char> {
    if |Kept(row, text)| == NUM_COLS then [] else Kept(row, text)
  }

  /** A row starts empty and grows with every character. */
  lemma RowGrows(s: string, live: seq<char>, c: char)
    ensures RowOf(s, live) && c != '\n' ==> RowOf(s + [c], live + [c])
  {
    RenderSnoc(s, c);
  }

  lemma RowStarts(s: string)
    ensures forall live: seq<char> :: |live| == 0 ==> RowOf(s, live)
  {
  }

  // ---------------------------------------------------------------- editing

  /** No character that the printing functions take for a newline. */
  predicate Clean(s: string) {
    '\n' !in s && '\r' !in s
  }

  /** After the output s, whose last row holds w characters, the line e stands
      on the page.  It ends above the status bar, and cursor and screen
      position both name its cursor. */
  ghost predicate DrawnBy(s: string, w: int, e: Line, row: int, x: int, y: int, cursor: int, page: seq<char>) {
    && 0 <= w < NUM_COLS && 0 <= row && NUM_COLS * row + w + |e.Text()| < CELLS
    && cursor == NUM_COLS * row + w + |e.left| && x == cursor % NUM_COLS && y == cursor / NUM_COLS
    && |Render(s)| == COLS * (Top(s) + row) + w
    && (Top(s) > 0 ==> row == TEXT_ROWS - 1)
    && Clean(e.Text()) && '\r' !in s
    && |page| >= CELLS && Window(page, Render(s) + e.Text(), Top(s))
  }

  lemma DrawnRowsMatter(s: string, w: int, e: Line, row: int, x: int, y: int, cursor: int, page: seq<char>, other: seq<char>)
    requires DrawnBy(s, w, e, row, x, y, cursor, page)
    requires |other| >= CELLS && other[..CELLS] == page[..CELLS]
    ensures DrawnBy(s, w, e, row, x, y, cursor, other)
  {
    forall k | 0 <= k < CELLS ensures other[k] == page[k] {
      assert other[k] == other[..CELLS][k] && page[k] == page[..CELLS][k];
    }
  }

  /** A read starts with an empty line, drawn anywhere but below the window. */
  lemma StartsDrawn(s: string, row: int, col: int, x: int, y: int, cursor: int, page: seq<char>)
    requires TrackedBy(s, row, col, x, y, cursor, page) && col < NUM_COLS && row < TEXT_ROWS
    ensures DrawnBy(s, col, Line("", ""), row, x, y, cursor, page)
  {
    hide Render, Top;
    assert Render(s) + "" == Render(s);
  }

  lemma InsertDrawn(s: string, w: int, e: Line, row: int, x: int, y: int, cursor: int, page: seq<char>, c: char)
    requires DrawnBy(s, w, e, row, x, y, cursor, page) && Clean([c])
    requires NUM_COLS * row + w + |e.Text()| + 1 < CELLS
    ensures var end := NUM_COLS * row + w + |e.Text()|;
            var x', y' := (x + 1) % NUM_COLS, (y + (x + 1) / NUM_COLS) % TEXT_ROWS;
            && row >= 0 && x >= 0 && y >= 0 && cursor == NUM_COLS * row + w + |e.left| == NUM_COLS * y + x
            && DrawnBy(s, w, Line(e.left + [c], e.right), row, x', y', cursor + 1,
                       ShiftedRight(page, cursor, end)[cursor := c])
  {
    hide Render, Window, Top, ShiftedRight;
    var end, p, at := NUM_COLS * row + w + |e.Text()|, Render(s) + e.Text(), COLS * Top(s) + cursor;
    WindowInserts(page, p, Top(s), cursor, end, c);
    InsertText(Render(s), e, c);
    NextCell(cursor);
  }

  lemma CleanParts(a: string, b: string)
    ensures Clean(a + b) <==> Clean(a) && Clean(b)
  {
  }

  lemma DrawnClean(s: string, w: int, e: Line, row: int, x: int, y: int, cursor: int, page: seq<char>, live: seq<char>)
    requires DrawnBy(s, w, e, row, x, y, cursor, page) && RowOf(s, live)
    ensures Clean(live + e.Text()) && row >= 0
  {
    RenderHolds(s);
    forall c | c in live ensures c in Render(s) {
      var i :| 0 <= i < |live| && live[i] == c;
      assert Render(s)[|Render(s)| - |live| + i] == c;
    }
  }

  /** After Ctrl-L the row printed so far and the line are all there is. */
  lemma ClearedDrawn(row: seq<char>, t: string, page: seq<char>)
    requires |row| < NUM_COLS && |row| + |t| < CELLS && Clean(row) && Clean(t)
    requires Window(page, row + t, 0)
    ensures RowOf(row, row)
    ensures var n := |row| + |t|; DrawnBy(row, |row|, Line(t, ""), 0, n % NUM_COLS, n / NUM_COLS, n, page)
  {
    RenderText(row[..0], row);
    assert row[..0] + row == row && t + "" == t;
  }

  lemma InsertText(p: seq<char>, e: Line, c: char)
    ensures var t, at := p + e.Text(), |p| + |e.left|;
            t[..at] + [c] + t[at..] == p + Line(e.left + [c], e.right).Text()
    ensures Clean(e.Text()) && Clean([c]) ==> Clean(Line(e.left + [c], e.right).Text())
    ensures |Line(e.left + [c], e.right).Text()| == |e.Text()| + 1
  {
    var t, at := p + e.Text(), |p| + |e.left|;
    assert t[..at] == p + e.left && t[at..] == e.right;
  }

  /** The position after one on the screen is the next one. */
  lemma NextCell(cursor: nat)
    requires cursor + 1 < CELLS
    ensures var x, y := cursor % NUM_COLS, cursor / NUM_COLS;
            && (x + 1) % NUM_COLS == (cursor + 1) % NUM_COLS
            && (y + (x + 1) / NUM_COLS) % TEXT_ROWS == (cursor + 1) / NUM_COLS
  {
  }

  /** Backspace takes the cursor back, across the edge of the screen if need
      be, before it deletes. */
  lemma DeleteDrawn(s: string, w: int, e: Line, row: int, x: int, y: int, cursor: int, page: seq<char>)
    requires DrawnBy(s, w, e, row, x, y, cursor, page) && e.left != ""
    ensures var end := NUM_COLS * row + w + |e.Text()|;
            var e' := Press(e, Backspace);
            var x', y' := if x == 0 then NUM_COLS - 1 else x - 1, if x == 0 then y - 1 else y;
            && row >= 0 && cursor == NUM_COLS * row + w + |e.left| && 0 <= NUM_COLS * y' + x' == cursor - 1 < |page|
            && end < |page|
            && DrawnBy(s, w, e', row, x', y', cursor - 1, ShiftedLeft(page, cursor - 1, end)[end := '\0'])
            && (e.right == "" ==> DrawnBy(s, w, e', row, x', y', cursor - 1, page[cursor - 1 := '\0']))
  {
    hide Render, Window, Top, ShiftedLeft;
    var end, p, at := NUM_COLS * row + w + |e.Text()|, Render(s) + e.Text(), COLS * Top(s) + cursor - 1;
    WindowDeletes(page, p, Top(s), cursor - 1, end);
    var left := e.left[..|e.left| - 1];
    assert p[..at] == Render(s) + left && p[at + 1..] == e.right;
    assert p[..at] + p[at + 1..] == Render(s) + Line(left, e.right).Text();
    if e.right == "" {
      assert left + e.right == left;
    }
  }

  lemma MoveDrawn(s: string, w: int, e: Line, row: int, x: int, y: int, cursor: int, page: seq<char>, k: Key)
    requires DrawnBy(s, w, e, row, x, y, cursor, page)
    requires (k.Left? && e.left != "") || (k.Right? && e.right != "")
    ensures var at := if k.Left? then cursor - 1 else cursor + 1;
            at >= 0 && DrawnBy(s, w, Press(e, k), row, at % NUM_COLS, at / NUM_COLS, at, page)
  {
    MovesKeepText(e, k);
  }

  lemma DrawnAbove(s: string, w: int, e: Line, row: int, x: int, y: int, cursor: int, page: seq<char>)
    requires DrawnBy(s, w, e, row, x, y, cursor, page)
    ensures y < TEXT_ROWS
  {
  }

  /** Where new_line moves to, and where the next row is. */
  lemma RowAhead(row: nat, l: nat, n: nat)
    requires l <= n && NUM_COLS * row + n < CELLS
    ensures var cursor := NUM_COLS * row + l;
            var row' := if n > NUM_COLS then row + 2 else row + 1;
            && cursor / NUM_COLS == row + l / NUM_COLS && row' <= TEXT_ROWS && row + n / NUM_COLS < TEXT_ROWS
            && (row' == row + n / NUM_COLS + 1 == row + l / NUM_COLS + 1
                <==> n < NUM_COLS || (NUM_COLS < n < 2 * NUM_COLS && l >= NUM_COLS))
  {
  }

  /** Where Enter moves to the next row: in a line that with its prompt of w
      characters is shorter than a row, or in the second row of one that fills
      neither its first row exactly nor its second. */
  predicate Steady(w: int, e: Line) {
    var l, n := w + |e.left|, w + |e.Text()|;
    n < NUM_COLS || (NUM_COLS < n < 2 * NUM_COLS && l >= NUM_COLS)
  }

  /** Enter, with the fields as new_line leaves them: it takes the line as one
      row, or two if there are more than 80 characters, and it moves the screen
      position on from the cursor, wherever in the line that is. */
  lemma EnterTracked(s: string, w: int, e: Line, row: int, x: int, y: int, cursor: int, page: seq<char>)
    requires DrawnBy(s, w, e, row, x, y, cursor, page)
    ensures var n := w + |e.Text()|;
            var row' := if n > NUM_COLS then row + 2 else row + 1;
            var s' := s + e.Text() + "\n";
            && 0 <= row && NUM_COLS * row + n < CELLS && row' <= TEXT_ROWS && cursor >= 0 && y >= 0 && Shows(page, s') && '\r' !in s'
            && (TrackedBy(s', row', 0, 0, (y + 1) % TEXT_ROWS, (cursor / NUM_COLS + 1) * NUM_COLS, page)
                <==> Steady(w, e))
  {
    hide Render, Window, Top, TopFor, RestOfRow;
    var l, n := w + |e.left|, w + |e.Text()|;
    var t, s' := s + e.Text(), s + e.Text() + "\n";
    RenderText(s, e.Text());
    RenderSnoc(t, '\n');
    NewlineAt(|Render(t)|);
    TopForIs(|Render(t)|, Top(s), row + n / NUM_COLS, n % NUM_COLS);
    WindowNewline(page, Render(t), Top(s));
    assert s'[|s'| - 1] == '\n';
    assert |Render(s')| == COLS * (Top(s) + row + n / NUM_COLS + 1);
    RowAhead(row, l, n);
  }

  // ---------------------------------------------------------------- the live buffer

  /** The line in the live buffer: prompt up to w, cursor at l, end at n. */
  function LineIn(live: seq<char>, w: int, l: int, n: int): (e: Line)
    requires 0 <= w <= l <= n <= |live|
    ensures |e.left| == l - w && |e.right| == n - l
  {
    Line(live[w..l], live[l..n])
  }

  lemma LineInserts(live: seq<char>, w: int, l: int, n: int, c: char)
    requires 0 <= w <= l <= n && n + 1 < |live|
    ensures var r, e := ShiftedRight(live, l, n)[l := c], LineIn(live, w, l, n);
            r[..w] == live[..w] && LineIn(r, w, l + 1, n + 1) == Line(e.left + [c], e.right)
  {
    var r := ShiftedRight(live, l, n)[l := c];
    assert r[w..l + 1] == live[w..l] + [c] && r[l + 1..n + 1] == live[l..n];
  }

  /** Deleting the character before the cursor, in the line and at its end. */
  lemma LineDeletes(live: seq<char>, w: int, l: int, n: int)
    requires 0 <= w < l < n < |live|
    ensures var e, r := LineIn(live, w, l, n), ShiftedLeft(live, l - 1, n)[n := '\0'];
            r[..w] == live[..w] && LineIn(r, w, l - 1, n - 1) == Press(e, Backspace)
  {
    var r := ShiftedLeft(live, l - 1, n)[n := '\0'];
    assert r[w..l - 1] == live[w..l][..l - 1 - w];
    assert r[l - 1..n - 1] == live[l..n + 1][..n - l];
  }

  lemma LineDeletesLast(live: seq<char>, w: int, n: int)
    requires 0 <= w < n <= |live|
    ensures var e, r := LineIn(live, w, n, n), live[n - 1 := '\0'];
            r[..w] == live[..w] && LineIn(r, w, n - 1, n - 1) == Press(e, Backspace)
  {
    assert live[n - 1 := '\0'][w..n - 1] == live[w..n][..n - 1 - w];
  }

  lemma LineMovesLeft(live: seq<char>, w: int, l: int, n: int)
    requires 0 <= w < l <= n <= |live|
    ensures LineIn(live, w, l - 1, n) == Press(LineIn(live, w, l, n), Left)
  {
    assert live[w..l][..l - 1 - w] == live[w..l - 1];
    assert live[w..l][l - 1 - w] == live[l - 1];
    assert [live[l - 1]] + live[l..n] == live[l - 1..n];
  }

  lemma LineMovesRight(live: seq<char>, w: int, l: int, n: int)
    requires 0 <= w <= l < n <= |live|
    ensures LineIn(live, w, l + 1, n) == Press(LineIn(live, w, l, n), Right)
  {
    assert live[w..l] + [live[l]] == live[w..l + 1];
    assert live[l..n][0] == live[l] && live[l..n][1..] == live[l + 1..n];
  }

  lemma LineText(live: seq<char>, w: int, l: int, n: int)
    requires 0 <= w <= l <= n <= |live|
    ensures var e := LineIn(live, w, l, n);
            e.Text() == live[w..n] && LineIn(live, w, n, n) == Press(e, Clear) && live[..w] + e.Text() == live[..n]
  {
  }

  lemma EmptyLine(live: seq<char>, w: int)
    requires 0 <= w <= |live|
    ensures LineIn(live, w, w, w) == Line("", "") && Plain(LineIn(live, w, w, w).Text())
  {
  }
}
