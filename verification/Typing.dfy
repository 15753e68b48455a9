/**
 What every key does to the position fields of a terminal, on every state:
 the row, the screen position and the cursor, as values.
*/
module Typing {
  import opened Buffers
  import opened Editor
  import opened Paper
  import opened Screen

  /** row_index, screen_x, screen_y and cursor_loc. */
  datatype Seat = Seat(row: int, x: int, y: int, cursor: int)

  function Clamp(cursor: int): int {
    if cursor <= 0 then 0 else cursor
  }

  /** Scrolling when a line of n characters is about to run below the window. */
  function Scrolls(s: Seat, n: int): Seat {
    if (if n >= NUM_COLS then 1 else 0) + s.row >= TEXT_ROWS
    then Seat(s.row - 1, 0, TEXT_ROWS - 1, NUM_COLS * (s.row - 1) + NUM_COLS)
    else s
  }

  /** Printing one character. */
  function Puts(s: Seat, c: char): Seat {
    var x := if Clean([c]) then s.x + 1 else 0;
    var y := if Clean([c]) then s.y else s.y + 1;
    s.(x := CRem(x, NUM_COLS), y := CRem(y + CDiv(x, NUM_COLS), TEXT_ROWS))
  }

  function Prints(s: Seat, n: int, c: char): Seat {
    Puts(Scrolls(s, n), c)
  }

  function Advances(s: Seat, delta: int): Seat {
    s.(cursor := Clamp(s.cursor + delta))
  }

  /** Typing a text, the line having n characters before it. */
  function Types(s: Seat, n: int, t: string): Seat {
    if t == "" then s
    else Advances(Prints(Types(s, n, t[..|t| - 1]), n + |t| - 1, t[|t| - 1]), 1)
  }

  /** The first k blanks of a Tab; the cursor moves after the last one. */
  function Tabs(s: Seat, n: int, k: nat): Seat {
    if k == 0 then s else Prints(Tabs(s, n, k - 1), n + k - 1, ' ')
  }

  lemma TabsStep(s: Seat, n: int, k: nat)
    ensures Tabs(s, n, 0) == s && Tabs(s, n, k + 1) == Prints(Tabs(s, n, k), n + k, ' ')
  {
  }

  lemma TypesNothing(s: Seat, n: int, t: string)
    ensures t == "" ==> Types(s, n, t) == s
  {
  }

  lemma TypesSnoc(s: Seat, n: int, t: string, c: char)
    ensures Types(s, n, t + [c]) == Advances(Prints(Types(s, n, t), n + |t|, c), 1)
  {
    hide Prints, Advances;
    assert (t + [c])[..|t|] == t;
  }

  /** Back by one, as Backspace does it before it moves the cursor. */
  function Steps(s: Seat): Seat {
    s.(x := if s.x == 0 then NUM_COLS - 1 else s.x - 1, y := if s.x == 0 then s.y - 1 else s.y)
  }

  function Deletes(s: Seat): Seat {
    var b := Steps(s);
    if s.cursor > 0 then Advances(b, -1) else b
  }

  function DeletesAll(s: Seat, k: nat): Seat {
    if k == 0 then s else Deletes(DeletesAll(s, k - 1))
  }

  /** Left and Right take the screen position from the cursor. */
  function Moves(s: Seat, delta: int): Seat {
    var at := s.cursor + delta;
    Advances(s.(x := CRem(at, NUM_COLS), y := CDiv(at, NUM_COLS)), delta)
  }

  /** The screen's last corner, where Right is refused. */
  predicate Corner(s: Seat) {
    s.y == NUM_ROWS - 1 && s.x == NUM_COLS - 1
  }

  /** The fields after Ctrl-L, n being the length of the live buffer. */
  function Cleared(n: int): Seat {
    Seat(0, CRem(n, NUM_COLS), CDiv(n, NUM_COLS), n)
  }

  /** Making room for a character of the output, w being the column. */
  function MakesRoom(s: Seat, w: int): Seat {
    var row := if w >= NUM_COLS then s.row + 1 else s.row;
    if row >= TEXT_ROWS then Seat(row - 1, 0, TEXT_ROWS - 1, NUM_COLS * (row - 1)) else s.(row := row)
  }

  /** The first cell of the row after the cursor's. */
  function NextRow(cursor: int): int {
    (CDiv(cursor, NUM_COLS) + 1) * NUM_COLS
  }

  /** Printing one character of the output. */
  function Writes(s: Seat, w: int, c: char): Seat {
    var r := Puts(MakesRoom(s, w), c);
    if c == '\n' then r.(row := r.row + 1, cursor := NextRow(r.cursor)) else r.(cursor := r.cursor + 1)
  }

  /** Printing a text, `row` being what the live buffer holds of the row. */
  function WritesAll(s: Seat, row: seq<char>, t: string): Seat {
    if t == "" then s else Writes(WritesAll(s, row, t[..|t| - 1]), |Kept(row, t[..|t| - 1])|, t[|t| - 1])
  }

  lemma WritesNothing(s: Seat, row: seq<char>, t: string)
    ensures t == "" ==> WritesAll(s, row, t) == s
  {
  }

  lemma WritesSnoc(s: Seat, row: seq<char>, t: string, c: char)
    ensures WritesAll(s, row, t + [c]) == Writes(WritesAll(s, row, t), |Kept(row, t)|, c)
  {
    assert (t + [c])[..|t|] == t;
  }

  /** The fields after Enter, n being the length of the live buffer. */
  function Enters(s: Seat, n: int): Seat {
    Seat(if n > NUM_COLS then s.row + 2 else s.row + 1, 0, CRem(s.y + 1, TEXT_ROWS), Clamp(NextRow(s.cursor)))
  }

  /** A line of a terminal whose prompt has w characters, with the history row
      looked at last, and where it is on the screen. */
  datatype Desk = Desk(seat: Seat, edit: Edit)

  /** Every key as the code handles it. */
  function Pressed(w: int, h: seq<string>, d: Desk, k: Key): Desk {
    var s, e := d.seat, d.edit.line;
    var n := w + |e.Text()|;
    var after := Type(h, d.edit, k);
    match k
    case Char(c) => if |e.Text()| < LINE_MAX then Desk(Advances(Prints(s, n, c), 1), after) else d
    case Tab => if |e.Text()| + 3 < LINE_MAX then Desk(Advances(Tabs(s, n, 4), 4), after) else d
    case Backspace => if e.left != "" then Desk(Deletes(s), after) else d
    case Left => if e.left != "" then Desk(Moves(s, -1), after) else d
    case Right => if !Corner(s) && e.right != "" then Desk(Moves(s, 1), after) else d
    case Up => if d.edit.view > 0 then Desk(Types(DeletesAll(s, |e.left|), w + |e.right|, after.line.left), after) else d
    case Clear => Desk(Cleared(n), after)
  }

  lemma PressedUp(w: int, h: seq<string>, d: Desk)
    ensures var e := d.edit.line;
            Pressed(w, h, d, Up) ==
              if d.edit.view == 0 then d
              else
                var r := Recalled(e, Row(h, d.edit.view - 1));
                Desk(Types(DeletesAll(d.seat, |e.left|), w + |e.right|, r.left), Edit(r, d.edit.view - 1))
  {
    hide Types, DeletesAll, Recalled, Row;
  }

  /** The keys that read_parser gets; the others go past its check. */
  predicate Gated(k: Key) {
    k.Char? || k.Tab? || k.Backspace? || k.Clear?
  }

  function Play(w: int, h: seq<string>, d: Desk, keys: seq<Key>): Desk {
    if keys == [] then d else Pressed(w, h, Play(w, h, d, keys[..|keys| - 1]), keys[|keys| - 1])
  }

  lemma PlaySnoc(w: int, h: seq<string>, d: Desk, keys: seq<Key>, k: Key)
    ensures Play(w, h, d, keys + [k]) == Pressed(w, h, Play(w, h, d, keys), k)
  {
    assert (keys + [k])[..|keys|] == keys;
  }

  // ---------------------------------------------------------------- on the page

  /** The row a line of n characters with its prompt can be in. */
  predicate Rowed(s: Seat, n: int) {
    0 <= s.row <= TEXT_ROWS && (s.row == TEXT_ROWS ==> n == 0) && (s.row == TEXT_ROWS - 1 ==> n <= NUM_COLS)
  }

  lemma {:induction false} RowedTypes(s: Seat, n: int, t: string)
    requires 0 <= n && Rowed(s, n)
    ensures Rowed(Types(s, n, t), n + |t|) && Types(s, n, t).row <= s.row
  {
    if t != "" { RowedTypes(s, n, t[..|t| - 1]); }
  }

  lemma {:induction false} RowedTabs(s: Seat, n: int, k: nat)
    requires 0 <= n && Rowed(s, n)
    ensures Rowed(Tabs(s, n, k), n + k) && Tabs(s, n, k).row <= s.row
  {
    if k > 0 { RowedTabs(s, n, k - 1); }
  }

  lemma {:induction false} RowedDeletesAll(s: Seat, k: nat)
    ensures DeletesAll(s, k).row == s.row
  {
    if k > 0 { RowedDeletesAll(s, k - 1); }
  }

  predicate RowedDesk(w: int, d: Desk) {
    |d.edit.line.Text()| <= LINE_MAX && Rowed(d.seat, w + |d.edit.line.Text()|)
  }

  /** No key moves the line down, refused or not. */
  lemma PressedRowed(w: int, h: seq<string>, d: Desk, k: Key)
    requires 0 <= w && RowedDesk(w, d)
    ensures RowedDesk(w, Pressed(w, h, d, k)) && Pressed(w, h, d, k).seat.row <= d.seat.row
  {
    hide Types, Tabs, DeletesAll;
    var s, e := d.seat, d.edit.line;
    TypeHolds(h, d.edit, k);
    if k.Tab? {
      RowedTabs(s, w + |e.Text()|, 4);
    } else if k.Up? && d.edit.view > 0 {
      RowedDeletesAll(s, |e.left|);
      RowedTypes(DeletesAll(s, |e.left|), w + |e.right|, Type(h, d.edit, k).line.left);
    }
  }

  lemma {:induction false} PlayRowed(w: int, h: seq<string>, d: Desk, keys: seq<Key>)
    requires 0 <= w && RowedDesk(w, d)
    ensures RowedDesk(w, Play(w, h, d, keys)) && Play(w, h, d, keys).seat.row <= d.seat.row
  {
    hide Pressed, RowedDesk;
    if keys != [] {
      PlayRowed(w, h, d, keys[..|keys| - 1]);
      PressedRowed(w, h, Play(w, h, d, keys[..|keys| - 1]), keys[|keys| - 1]);
    }
  }

  /** The cell of the page that the screen position names. */
  function Spot(s: Seat): int {
    NUM_COLS * s.y + s.x
  }

  /** Left and Right can put the position into the status bar's row. */
  predicate OnScreen(s: Seat) {
    0 <= s.x < NUM_COLS && 0 <= s.y <= TEXT_ROWS
  }

  /** The key does not go back past the first cell of the page. */
  predicate StaysOnScreen(d: Desk, k: Key) {
    && (k.Backspace? && d.edit.line.left != "" ==> Spot(d.seat) > 0)
    && (k.Up? && d.edit.view > 0 ==> Spot(d.seat) >= |d.edit.line.left|)
  }

  lemma PutsOnScreen(s: Seat, c: char)
    requires OnScreen(s)
    ensures OnScreen(Puts(s, c))
  {
  }

  lemma WritesOnScreen(s: Seat, w: int, c: char)
    ensures var r := MakesRoom(s, w);
            OnScreen(s) ==> 0 <= Spot(r) < PAGE_CELLS && OnScreen(r) && OnScreen(Puts(r, c)) && OnScreen(Writes(s, w, c))
  {
  }

  /** Every cell that a character is put to, or that the rest of the line moves
      over, is one of the page's. */
  lemma PrintsOnPage(s: Seat, n: int, c: char)
    requires OnScreen(s) && Rowed(s, n) && 0 <= n < NUM_COLS + LINE_MAX
    ensures var r := Scrolls(s, n);
            0 <= r.row && NUM_COLS * r.row + n < PAGE_CELLS && OnScreen(r) && 0 <= Spot(r) < PAGE_CELLS
    ensures OnScreen(Prints(s, n, c)) && Rowed(Prints(s, n, c), n + 1)
    ensures OnScreen(Advances(Prints(s, n, c), 1)) && Rowed(Advances(Prints(s, n, c), 1), n + 1)
  {
  }


  lemma StepsOff(s: Seat)
    ensures OnScreen(s) && Spot(s) == 0 ==> Spot(Steps(s)) < 0
  {
  }

  lemma DeletesOnPage(s: Seat, n: int)
    requires OnScreen(s) && Rowed(s, n) && 0 < n <= NUM_COLS + LINE_MAX && Spot(s) > 0
    ensures 0 <= s.row && NUM_COLS * s.row + n < PAGE_CELLS && 0 <= Spot(Steps(s)) < PAGE_CELLS
    ensures OnScreen(Deletes(s)) && Rowed(Deletes(s), n - 1) && Spot(Deletes(s)) == Spot(s) - 1
  {
  }

  lemma {:induction false} TypesOnScreen(s: Seat, n: int, t: string)
    requires OnScreen(s) && Rowed(s, n) && 0 <= n && n + |t| <= NUM_COLS + LINE_MAX
    ensures OnScreen(Types(s, n, t)) && Rowed(Types(s, n, t), n + |t|)
  {
    hide OnScreen, Rowed, Prints, Advances;
    if t != "" {
      TypesOnScreen(s, n, t[..|t| - 1]);
      PrintsOnPage(Types(s, n, t[..|t| - 1]), n + |t| - 1, t[|t| - 1]);
    }
  }

  lemma {:induction false} TabsOnScreen(s: Seat, n: int, k: nat)
    requires OnScreen(s) && Rowed(s, n) && 0 <= n && n + k <= NUM_COLS + LINE_MAX
    ensures OnScreen(Tabs(s, n, k)) && Rowed(Tabs(s, n, k), n + k)
  {
    hide OnScreen, Rowed, Prints;
    if k > 0 {
      TabsOnScreen(s, n, k - 1);
      PrintsOnPage(Tabs(s, n, k - 1), n + k - 1, ' ');
    }
  }

  lemma {:induction false} DeletesAllOnScreen(s: Seat, n: int, k: nat)
    requires OnScreen(s) && Rowed(s, n) && k <= n <= NUM_COLS + LINE_MAX && Spot(s) >= k
    ensures OnScreen(DeletesAll(s, k)) && Rowed(DeletesAll(s, k), n - k) && Spot(DeletesAll(s, k)) == Spot(s) - k
  {
    hide OnScreen, Rowed, Deletes, Spot;
    if k > 0 {
      DeletesAllOnScreen(s, n, k - 1);
      DeletesOnPage(DeletesAll(s, k - 1), n - k + 1);
    }
  }

  // ---------------------------------------------------------------- in reach

  /** The cursor is as far from the line's start as the row says, or, once the
      line has scrolled up to row 22, at most so far that no move can reach the
      last corner; `lag` is what a Tab has not yet added to the cursor. */
  predicate Seated(w: int, l: int, n: int, s: Seat, lag: int) {
    var start := s.cursor + lag - l;
    && 0 <= w < NUM_COLS && w <= l <= n <= w + LINE_MAX && 0 <= lag <= l - w
    && 0 <= s.row < TEXT_ROWS && 0 <= start
    && (if s.row == TEXT_ROWS - 1 then start == NUM_COLS * (TEXT_ROWS - 1) && n <= NUM_COLS
        else start <= NUM_COLS * (TEXT_ROWS - 1) - w)
    && s.y <= TEXT_ROWS && (s.y == TEXT_ROWS ==> s.x <= LINE_MAX - NUM_COLS)
  }

  lemma SeatedPrints(w: int, l: int, n: int, s: Seat, lag: int, c: char)
    requires Seated(w, l, n, s, lag) && n < w + LINE_MAX
    ensures Seated(w, l + 1, n + 1, Prints(s, n, c), lag + 1)
    ensures lag == 0 ==> Seated(w, l + 1, n + 1, Advances(Prints(s, n, c), 1), 0)
  {
  }

  lemma SeatedAdvances(w: int, l: int, n: int, s: Seat, lag: int)
    requires Seated(w, l, n, s, lag)
    ensures Seated(w, l, n, Advances(s, lag), 0)
  {
  }

  lemma {:induction false} SeatedTypes(w: int, l: int, n: int, s: Seat, t: string)
    requires Seated(w, l, n, s, 0) && n + |t| <= w + LINE_MAX
    ensures Seated(w, l + |t|, n + |t|, Types(s, n, t), 0)
  {
    hide Seated, Prints, Advances;
    if t != "" {
      SeatedTypes(w, l, n, s, t[..|t| - 1]);
      SeatedPrints(w, l + |t| - 1, n + |t| - 1, Types(s, n, t[..|t| - 1]), 0, t[|t| - 1]);
    }
  }

  lemma {:induction false} SeatedTabs(w: int, l: int, n: int, s: Seat, k: nat)
    requires Seated(w, l, n, s, 0) && n + k <= w + LINE_MAX
    ensures Seated(w, l + k, n + k, Tabs(s, n, k), k)
  {
    hide Seated, Prints;
    if k > 0 {
      SeatedTabs(w, l, n, s, k - 1);
      SeatedPrints(w, l + k - 1, n + k - 1, Tabs(s, n, k - 1), k - 1, ' ');
    }
  }

  lemma SeatedDeletes(w: int, l: int, n: int, s: Seat)
    requires Seated(w, l, n, s, 0) && l > w
    ensures Seated(w, l - 1, n - 1, Deletes(s), 0)
  {
  }

  lemma {:induction false} SeatedDeletesAll(w: int, l: int, n: int, s: Seat, k: nat)
    requires Seated(w, l, n, s, 0) && k <= l - w
    ensures Seated(w, l - k, n - k, DeletesAll(s, k), 0)
  {
    hide Seated, Deletes;
    if k > 0 {
      SeatedDeletesAll(w, l, n, s, k - 1);
      SeatedDeletes(w, l - k + 1, n - k + 1, DeletesAll(s, k - 1));
    }
  }

  lemma SeatedMoves(w: int, l: int, n: int, s: Seat, delta: int)
    requires Seated(w, l, n, s, 0) && (delta == 1 || delta == -1) && w <= l + delta <= n
    ensures Seated(w, l + delta, n, Moves(s, delta), 0)
  {
  }

  lemma SeatedCleared(w: int, n: int)
    requires 0 <= w < NUM_COLS && w <= n <= w + LINE_MAX
    ensures Seated(w, n, n, Cleared(n), 0)
  {
  }

  predicate InReach(w: int, d: Desk) {
    Seated(w, w + |d.edit.line.left|, w + |d.edit.line.Text()|, d.seat, 0)
  }

  lemma ReachRowed(w: int, d: Desk)
    requires InReach(w, d)
    ensures RowedDesk(w, d) && 0 <= w < NUM_COLS
  {
  }

  /** From such a state no key is refused, and the next state is one again. */
  lemma PressedInReach(w: int, h: seq<string>, d: Desk, k: Key)
    requires InReach(w, d)
    ensures InReach(w, Pressed(w, h, d, k)) && Pressed(w, h, d, k).edit == Type(h, d.edit, k)
  {
    hide Prints, Advances, Tabs, Types, Deletes, DeletesAll, Moves, Cleared, Recalled;
    var s, e := d.seat, d.edit.line;
    var l, n := w + |e.left|, w + |e.Text()|;
    TypeHolds(h, d.edit, k);
    match k
    case Char(c) => if n < w + LINE_MAX { SeatedPrints(w, l, n, s, 0, c); }
    case Tab =>
      if n + 3 < w + LINE_MAX {
        SeatedTabs(w, l, n, s, 4);
        SeatedAdvances(w, l + 4, n + 4, Tabs(s, n, 4), 4);
      }
    case Backspace => if e.left != "" { SeatedDeletes(w, l, n, s); }
    case Left => if e.left != "" { SeatedMoves(w, l, n, s, -1); }
    case Right => if e.right != "" { SeatedMoves(w, l, n, s, 1); }
    case Up => PressedUpInReach(w, h, d);
    case Clear => SeatedCleared(w, n);
  }

  lemma PressedUpInReach(w: int, h: seq<string>, d: Desk)
    requires InReach(w, d)
    ensures InReach(w, Pressed(w, h, d, Up)) && Pressed(w, h, d, Up).edit == Type(h, d.edit, Up)
  {
    hide Types, DeletesAll;
    var s, e := d.seat, d.edit.line;
    TypeHolds(h, d.edit, Up);
    if d.edit.view > 0 {
      SeatedDeletesAll(w, w + |e.left|, w + |e.Text()|, s, |e.left|);
      SeatedTypes(w, w, w + |e.right|, DeletesAll(s, |e.left|), Type(h, d.edit, Up).line.left);
    }
  }

  /** Where a key in reach that stays on the screen leaves the position. */
  lemma PressedOnScreen(w: int, h: seq<string>, d: Desk, k: Key)
    requires InReach(w, d) && OnScreen(d.seat) && StaysOnScreen(d, k)
    ensures OnScreen(Pressed(w, h, d, k).seat)
  {
    hide Prints, Tabs, Types, Deletes, DeletesAll, Puts;
    var s, e := d.seat, d.edit.line;
    var n := w + |e.Text()|;
    TypeHolds(h, d.edit, k);
    match k
    case Char(c) => if |e.Text()| < LINE_MAX { PrintsOnPage(s, n, c); }
    case Tab => if |e.Text()| + 3 < LINE_MAX { TabsOnScreen(s, n, 4); }
    case Backspace => if e.left != "" { DeletesOnPage(s, n); }
    case Up => PressedUpOnScreen(w, h, d);
    case _ =>
  }

  lemma PressedUpOnScreen(w: int, h: seq<string>, d: Desk)
    requires InReach(w, d) && OnScreen(d.seat) && StaysOnScreen(d, Up)
    ensures OnScreen(Pressed(w, h, d, Up).seat)
  {
    hide Types, DeletesAll;
    var s, e := d.seat, d.edit.line;
    TypeHolds(h, d.edit, Up);
    if d.edit.view > 0 {
      DeletesAllOnScreen(s, w + |e.Text()|, |e.left|);
      TypesOnScreen(DeletesAll(s, |e.left|), w + |e.right|, Type(h, d.edit, Up).line.left);
    }
  }

  /** From such a state any keys have exactly the editor's effect. */
  lemma {:induction false} PlayIsType(w: int, h: seq<string>, d: Desk, keys: seq<Key>)
    requires InReach(w, d)
    ensures InReach(w, Play(w, h, d, keys)) && Play(w, h, d, keys).edit == TypeAll(h, d.edit, keys)
  {
    hide InReach, Pressed, Type;
    if keys != [] {
      PlayIsType(w, h, d, keys[..|keys| - 1]);
      PressedInReach(w, h, Play(w, h, d, keys[..|keys| - 1]), keys[|keys| - 1]);
    }
  }

  /** A line drawn on the page is such a state. */
  lemma DrawnInReach(s: string, w: int, e: Line, row: int, x: int, y: int, cursor: int, page: seq<char>, view: nat)
    requires DrawnBy(s, w, e, row, x, y, cursor, page) && |e.Text()| <= LINE_MAX
    ensures InReach(w, Desk(Seat(row, x, y, cursor), Edit(e, view)))
  {
    hide Render, Window, Top;
  }

  /** So every key stays on the page. */
  lemma DrawnStays(s: string, w: int, e: Line, row: int, x: int, y: int, cursor: int, page: seq<char>, view: nat, k: Key)
    requires DrawnBy(s, w, e, row, x, y, cursor, page) && |e.Text()| <= LINE_MAX
    ensures var d := Desk(Seat(row, x, y, cursor), Edit(e, view));
            Rowed(d.seat, w + |e.Text()|) && OnScreen(d.seat) && StaysOnScreen(d, k)
  {
    hide Render, Window, Top;
  }

  lemma PressedPlain(w: int, h: seq<string>, d: Desk, k: Key)
    requires |d.edit.line.Text()| <= LINE_MAX && Plain(d.edit.line.Text()) && Typable(k)
    requires forall r :: 0 <= r < |h| ==> Plain(h[r])
    ensures Plain(Pressed(w, h, d, k).edit.line.Text())
  {
    hide Plain, Type, Prints, Tabs, Deletes, Moves, Types, DeletesAll, Cleared;
    TypePlain(h, d.edit, k);
  }

  /** The place in the history buffer, counted from its start, where new_line
      stores character idx of the live buffer. */
  function HistoryIndex(row: int, idx: int): int {
    if idx >= NUM_COLS && row + 1 < TEXT_ROWS then NUM_COLS * (row + 1) + idx - NUM_COLS else NUM_COLS * row + idx
  }

  ghost predicate StoresInRange(row: int, n: int) {
    forall idx :: 0 <= idx < n ==> 0 <= HistoryIndex(row, idx) < CELLS
  }

  lemma StoresNext(row: int, n: nat)
    ensures StoresInRange(row, n + 1) <==> StoresInRange(row, n) && 0 <= HistoryIndex(row, n) < CELLS
    ensures StoresInRange(row, 0)
  {
  }

  /** The stores of new_line stay inside the history buffer if and only if the
      live buffer fits into it from row_index on.  It does for every line drawn
      on the page, and for every line in reach of at most 160 characters; the
      first store behind the history buffer hits row_index itself. */
  lemma HistoryStoresIff(row: int, n: int)
    ensures StoresInRange(row, n) <==> n <= 0 || (0 <= row && NUM_COLS * row + n <= CELLS)
    ensures forall w, l, s :: Seated(w, l, n, s, 0) && 0 <= s.row == row && n <= 2 * NUM_COLS ==> StoresInRange(row, n)
    ensures row == TEXT_ROWS - 2 && n > 2 * NUM_COLS ==> HistoryIndex(row, 2 * NUM_COLS) == CELLS
  {
    if n > 0 && StoresInRange(row, n) {
      assert 0 <= HistoryIndex(row, 0) && HistoryIndex(row, n - 1) < CELLS;
    }
  }

  // ---------------------------------------------------------------- below the window

  /** Where a read starts after a write: in row `row`, after w characters. */
  function Start(w: nat, row: nat, view: nat): Desk {
    Desk(Seat(row, w, row % TEXT_ROWS, NUM_COLS * row + w), Edit(Line("", ""), view))
  }

  function Times(k: Key, n: nat): seq<Key> {
    if n == 0 then [] else Times(k, n - 1) + [k]
  }

  /** The fields with n characters typed below the window: the first one has
      scrolled the page, but the cursor stays a row too low. */
  function Below(n: nat): Seat {
    Seat(TEXT_ROWS - 1, n % NUM_COLS, if n == NUM_COLS then 0 else TEXT_ROWS - 1, CELLS + n)
  }

  lemma BelowNext(h: seq<string>, s: Seat, t: string, view: nat)
    requires |t| < NUM_COLS && s == if t == "" then Start(0, TEXT_ROWS, view).seat else Below(|t|)
    ensures Pressed(0, h, Desk(s, Edit(Line(t, ""), view)), Char('a'))
         == Desk(Below(|t| + 1), Edit(Line(t + "a", ""), view))
  {
    assert t + "" == t;
  }

  lemma {:induction false} TypedBelow(h: seq<string>, view: nat, n: nat)
    requires 1 <= n <= NUM_COLS
    ensures Play(0, h, Start(0, TEXT_ROWS, view), Times(Char('a'), n))
         == Desk(Below(n), Edit(Line(Repeat('a', n), ""), view))
  {
    hide Play, Repeat, Pressed, Below;
    var d := Start(0, TEXT_ROWS, view);
    PlaySnoc(0, h, d, Times(Char('a'), n - 1), Char('a'));
    RepeatNone('a');
    if n == 1 {
      PlayNothing(0, h, d);
    } else {
      TypedBelow(h, view, n - 1);
    }
    var before := Play(0, h, d, Times(Char('a'), n - 1));
    BelowNext(h, before.seat, Repeat('a', n - 1), view);
  }

  lemma PlayNothing(w: int, h: seq<string>, d: Desk)
    ensures Play(w, h, d, []) == d
  {
  }

  /** 80 characters, Left, Right and one more character: Right is refused, and
      the last character lands before the 80th. */
  function Trouble(): seq<Key> {
    Times(Char('a'), NUM_COLS) + [Left] + [Right] + [Char('b')]
  }

  lemma {:induction false} TypedInEditor(h: seq<string>, s: Edit, n: nat)
    requires s.line == Line("", "") && n <= LINE_MAX
    ensures TypeAll(h, s, Times(Char('a'), n)) == Edit(Line(Repeat('a', n), ""), s.view)
    ensures forall k :: k in Times(Char('a'), n) ==> k == Char('a')
  {
    hide Repeat, TypeAll;
    RepeatNone('a');
    if n == 0 {
      TypeNothing(h, s);
    } else {
      TypedInEditor(h, s, n - 1);
      TypeSnoc(h, s, Times(Char('a'), n - 1), Char('a'));
      assert Repeat('a', n - 1) + "" == Repeat('a', n - 1);
    }
  }

  lemma TypeNothing(h: seq<string>, s: Edit)
    ensures TypeAll(h, s, []) == s
  {
  }

  /** What the last three keys do to 80 characters. */
  lemma TroubleSteps(h: seq<string>, d: Desk, t: string, view: nat)
    requires |t| == NUM_COLS - 1
    requires d == Desk(Seat(TEXT_ROWS - 1, 0, 0, CELLS + NUM_COLS), Edit(Line(t + "a", ""), view))
    ensures Pressed(0, h, Pressed(0, h, Pressed(0, h, d, Left), Right), Char('b')).edit == Edit(Line(t + "b", "a"), view)
    ensures Type(h, Type(h, Type(h, d.edit, Left), Right), Char('b')) == Edit(Line(t + "a" + "b", ""), view)
  {
    assert (t + "a")[..|t|] == t;
    assert t + "a" + "" == t + "a";
  }

  lemma TroubleBelow(h: seq<string>, view: nat)
    ensures Play(0, h, Start(0, TEXT_ROWS, view), Trouble()).edit.line == Line(Repeat('a', NUM_COLS - 1) + "b", "a")
    ensures TypeAll(h, Start(0, TEXT_ROWS, view).edit, Trouble()).line == Line(Repeat('a', NUM_COLS) + "b", "")
    ensures forall i :: 0 <= i < |Trouble()| ==> Typable(Trouble()[i])
  {
    hide Play, TypeAll, Pressed, Type, Times, Repeat;
    var d, typed, t := Start(0, TEXT_ROWS, view), Times(Char('a'), NUM_COLS), Repeat('a', NUM_COLS - 1);
    TypedBelow(h, view, NUM_COLS);
    TypedInEditor(h, d.edit, NUM_COLS);
    TroubleSteps(h, Play(0, h, d, typed), t, view);
    PlaySnoc(0, h, d, typed, Left);
    PlaySnoc(0, h, d, typed + [Left], Right);
    PlaySnoc(0, h, d, typed + [Left] + [Right], Char('b'));
    TypeSnoc(h, d.edit, typed, Left);
    TypeSnoc(h, d.edit, typed + [Left], Right);
    TypeSnoc(h, d.edit, typed + [Left] + [Right], Char('b'));
    forall k | k in Trouble() ensures Typable(k) {
      assert k in typed || k == Left || k == Right || k == Char('b');
    }
  }

  ghost predicate LikeTheEditor(w: nat, h: seq<string>, d: Desk) {
    forall keys :: (forall i :: 0 <= i < |keys| ==> Typable(keys[i])) ==> Play(w, h, d, keys).edit == TypeAll(h, d.edit, keys)
  }

  /** A read has the editor's effect for all keys if and only if it starts above
      the window's lower edge. */
  lemma LikeTheEditorIff(w: nat, row: nat, h: seq<string>, view: nat)
    requires w < NUM_COLS && row <= TEXT_ROWS && (w > 0 ==> row < TEXT_ROWS)
    ensures LikeTheEditor(w, h, Start(w, row, view)) <==> row < TEXT_ROWS
  {
    hide Play, TypeAll;
    var d := Start(w, row, view);
    if row < TEXT_ROWS {
      forall keys | forall i :: 0 <= i < |keys| ==> Typable(keys[i])
        ensures Play(w, h, d, keys).edit == TypeAll(h, d.edit, keys)
      {
        PlayIsType(w, h, d, keys);
      }
    } else {
      TroubleBelow(h, view);
      assert Play(0, h, d, Trouble()).edit != TypeAll(h, d.edit, Trouble());
    }
  }

  // ---------------------------------------------------------------- lines too long for the history buffer

  /** Where n characters typed one after the other leave the line. */
  predicate TypedAt(d: Desk, w: nat, row: nat, view: nat, n: nat) {
    && d.edit == Edit(Line(Repeat('a', n), ""), view)
    && d.seat.row == if row == TEXT_ROWS - 1 && w + n > NUM_COLS then row - 1 else row
  }

  lemma TypedNext(w: nat, row: nat, h: seq<string>, view: nat, n: nat, d: Desk)
    requires w < NUM_COLS && row < TEXT_ROWS && n < LINE_MAX && TypedAt(d, w, row, view, n)
    ensures TypedAt(Pressed(w, h, d, Char('a')), w, row, view, n + 1)
  {
    RepeatNone('a');
    assert Repeat('a', n) + "" == Repeat('a', n);
  }

  lemma {:induction false} TypedLine(w: nat, row: nat, h: seq<string>, view: nat, n: nat)
    requires w < NUM_COLS && row < TEXT_ROWS && n <= LINE_MAX
    ensures TypedAt(Play(w, h, Start(w, row, view), Times(Char('a'), n)), w, row, view, n)
  {
    hide Play, Pressed, Repeat, TypedAt;
    var d := Start(w, row, view);
    if n == 0 {
      NothingTyped(w, row, h, view);
    } else {
      TypedLine(w, row, h, view, n - 1);
      PlaySnoc(w, h, d, Times(Char('a'), n - 1), Char('a'));
      TypedNext(w, row, h, view, n - 1, Play(w, h, d, Times(Char('a'), n - 1)));
    }
  }

  lemma NothingTyped(w: nat, row: nat, h: seq<string>, view: nat)
    requires w < NUM_COLS && row < TEXT_ROWS
    ensures TypedAt(Play(w, h, Start(w, row, view), Times(Char('a'), 0)), w, row, view, 0)
  {
    RepeatNone('a');
  }

  /** Enter after these keys stores the line inside the history buffer. */
  ghost predicate StoredAfter(w: int, h: seq<string>, d: Desk, keys: seq<Key>) {
    var r := Play(w, h, d, keys);
    StoresInRange(r.seat.row, w + |r.edit.line.Text()|)
  }

  /** A read that starts in one of the last two rows, after a prompt of more than
      33 characters, and 127 characters typed: the line overruns the buffer. */
  lemma OverrunningLine(w: nat, row: nat, h: seq<string>, view: nat)
    requires 33 < w < NUM_COLS && 21 < row < TEXT_ROWS
    ensures !StoredAfter(w, h, Start(w, row, view), Times(Char('a'), LINE_MAX))
    ensures forall k :: k in Times(Char('a'), LINE_MAX) ==> Typable(k)
  {
    hide Play, Times, StoresInRange, Repeat, TypeAll;
    TypedLine(w, row, h, view, LINE_MAX);
    TypedInEditor(h, Edit(Line("", ""), view), LINE_MAX);
    HistoryStoresIff(TEXT_ROWS - 2, w + LINE_MAX);
  }

  /** From a read's start no keys lead to an Enter that overruns the history
      buffer if and only if it starts above the last two rows, or after a prompt
      of at most 33 characters. */
  lemma HistoryHoldsIff(w: nat, row: nat, h: seq<string>, view: nat)
    requires w < NUM_COLS && row <= TEXT_ROWS && (w > 0 ==> row < TEXT_ROWS)
    ensures (forall keys :: (forall i :: 0 <= i < |keys| ==> Typable(keys[i])) ==> StoredAfter(w, h, Start(w, row, view), keys))
       <==> row <= 21 || w <= 33
  {
    hide Play, Times, StoresInRange, StoredAfter;
    var d := Start(w, row, view);
    if row <= 21 || w <= 33 {
      forall keys | forall i :: 0 <= i < |keys| ==> Typable(keys[i]) ensures StoredAfter(w, h, d, keys) {
        StoredWithinRows(w, row, h, view, keys);
      }
    } else {
      OverrunningLine(w, row, h, view);
    }
  }

  lemma StoredWithinRows(w: nat, row: nat, h: seq<string>, view: nat, keys: seq<Key>)
    requires w < NUM_COLS && row <= TEXT_ROWS && (w > 0 ==> row < TEXT_ROWS) && (row <= 21 || w <= 33)
    ensures StoredAfter(w, h, Start(w, row, view), keys)
  {
    hide Play, StoresInRange;
    PlayRowed(w, h, Start(w, row, view), keys);
    var r := Play(w, h, Start(w, row, view), keys);
    HistoryStoresIff(r.seat.row, w + |r.edit.line.Text()|);
  }

  // ---------------------------------------------------------------- lines that leave the screen

  /** The position is where the text ends that is left of the cursor, and the
      longest line from here ends above the status bar. */
  predicate Aligned(w: int, d: Desk) {
    var at := NUM_COLS * d.seat.row + w + |d.edit.line.left|;
    && 0 <= w < NUM_COLS && 0 <= d.seat.row && NUM_COLS * d.seat.row + w + LINE_MAX < CELLS
    && |d.edit.line.Text()| <= LINE_MAX && d.seat == Seat(d.seat.row, at % NUM_COLS, at / NUM_COLS, at)
  }

  lemma AlignedStays(w: int, d: Desk)
    requires Aligned(w, d)
    ensures InReach(w, d) && OnScreen(d.seat) && StoresInRange(d.seat.row, w + |d.edit.line.Text()|)
  {
  }

  lemma AlignedPrints(s: Seat, n: int, at: int, c: char)
    requires 0 <= s.row && 0 <= n && NUM_COLS * s.row + n < CELLS && 0 <= at < CELLS - 1 && Clean([c])
    requires s.x == at % NUM_COLS && s.y == at / NUM_COLS
    ensures Prints(s, n, c) == s.(x := (at + 1) % NUM_COLS, y := (at + 1) / NUM_COLS)
  {
  }

  lemma {:induction false} AlignedTypes(s: Seat, n: int, at: int, t: string)
    requires 0 <= s.row && 0 <= n && NUM_COLS * s.row + n + |t| < CELLS && 0 <= at < CELLS - |t| && Clean(t)
    requires s == Seat(s.row, at % NUM_COLS, at / NUM_COLS, at)
    ensures Types(s, n, t) == Seat(s.row, (at + |t|) % NUM_COLS, (at + |t|) / NUM_COLS, at + |t|)
  {
    hide Prints;
    if t != "" {
      assert Clean([t[|t| - 1]]) && Clean(t[..|t| - 1]);
      AlignedTypes(s, n, at, t[..|t| - 1]);
      AlignedPrints(Types(s, n, t[..|t| - 1]), n + |t| - 1, at + |t| - 1, t[|t| - 1]);
    }
  }

  lemma {:induction false} AlignedTabs(s: Seat, n: int, at: int, k: nat)
    requires 0 <= s.row && 0 <= n && NUM_COLS * s.row + n + k < CELLS && 0 <= at < CELLS - k
    requires s == Seat(s.row, at % NUM_COLS, at / NUM_COLS, at)
    ensures Tabs(s, n, k) == Seat(s.row, (at + k) % NUM_COLS, (at + k) / NUM_COLS, at)
  {
    hide Prints;
    if k > 0 {
      AlignedTabs(s, n, at, k - 1);
      AlignedPrints(Tabs(s, n, k - 1), n + k - 1, at + k - 1, ' ');
    }
  }

  lemma {:induction false} AlignedDeletesAll(s: Seat, at: int, k: nat)
    requires k <= at && s == Seat(s.row, at % NUM_COLS, at / NUM_COLS, at)
    ensures DeletesAll(s, k) == Seat(s.row, (at - k) % NUM_COLS, (at - k) / NUM_COLS, at - k)
  {
    if k > 0 { AlignedDeletesAll(s, at, k - 1); }
  }

  lemma CleanIfPlain(h: seq<string>, s: Edit, k: Key)
    requires |s.line.Text()| <= LINE_MAX && Plain(s.line.Text()) && Typable(k) && forall r :: 0 <= r < |h| ==> Plain(h[r])
    ensures k.Char? ==> Clean([k.c])
    ensures k.Up? ==> Clean(Type(h, s, k).line.left)
  {
    TypePlain(h, s, k);
    var t := Type(h, s, k).line;
    assert forall c :: c in t.left ==> c in t.Text();
  }

  lemma AlignedSteps(s: Seat, at: int)
    requires s == Seat(s.row, at % NUM_COLS, at / NUM_COLS, at)
    ensures at > 0 ==> Deletes(s) == Seat(s.row, (at - 1) % NUM_COLS, (at - 1) / NUM_COLS, at - 1) && Spot(s) > 0
    ensures at > 0 ==> Moves(s, -1) == Seat(s.row, (at - 1) % NUM_COLS, (at - 1) / NUM_COLS, at - 1)
    ensures at >= 0 ==> Moves(s, 1) == Seat(s.row, (at + 1) % NUM_COLS, (at + 1) / NUM_COLS, at + 1)
    ensures at < CELLS ==> !Corner(s)
  {
  }

  lemma AlignedCleared(n: int)
    requires 0 <= n
    ensures Cleared(n) == Seat(0, n % NUM_COLS, n / NUM_COLS, n)
  {
  }

  /** Every key keeps it so, and stays on the screen. */
  lemma PressedAligned(w: int, h: seq<string>, d: Desk, k: Key)
    requires Aligned(w, d) && Plain(d.edit.line.Text()) && Typable(k) && forall r :: 0 <= r < |h| ==> Plain(h[r])
    ensures StaysOnScreen(d, k) && Aligned(w, Pressed(w, h, d, k)) && Plain(Pressed(w, h, d, k).edit.line.Text())
  {
    hide Prints, Tabs, Types, Deletes, DeletesAll, Moves, Cleared, Corner, Spot, Plain, Clean;
    CleanIfPlain(h, d.edit, k);
    var s, e := d.seat, d.edit.line;
    var n, at := w + |e.Text()|, s.cursor;
    TypePlain(h, d.edit, k);
    match k
    case Char(c) => if |e.Text()| < LINE_MAX { AlignedPrints(s, n, at, c); }
    case Tab => if |e.Text()| + 3 < LINE_MAX { AlignedTabs(s, n, at, 4); }
    case Backspace => AlignedSteps(s, at);
    case Left => AlignedSteps(s, at);
    case Right => AlignedSteps(s, at);
    case Clear => AlignedCleared(n);
    case Up => PressedUpAligned(w, h, d);
  }

  lemma PressedUpAligned(w: int, h: seq<string>, d: Desk)
    requires Aligned(w, d) && Plain(d.edit.line.Text()) && forall r :: 0 <= r < |h| ==> Plain(h[r])
    ensures StaysOnScreen(d, Up) && Aligned(w, Pressed(w, h, d, Up))
  {
    hide Types, DeletesAll, Plain, Clean, Recalled;
    CleanIfPlain(h, d.edit, Up);
    TypeHolds(h, d.edit, Up);
    if d.edit.view > 0 {
      var s, e, t := d.seat, d.edit.line, Type(h, d.edit, Up).line.left;
      AlignedDeletesAll(s, s.cursor, |e.left|);
      RecallKeepsRight(h, d.edit);
      AlignedTypes(DeletesAll(s, |e.left|), w + |e.right|, s.cursor - |e.left|, t);
    }
  }

  lemma RecallKeepsRight(h: seq<string>, s: Edit)
    ensures s.view > 0 ==> Type(h, s, Up).line.right == s.line.right
  {
  }

  lemma {:induction false} PlayAligned(w: int, h: seq<string>, d: Desk, keys: seq<Key>)
    requires Aligned(w, d) && Plain(d.edit.line.Text()) && (forall i :: 0 <= i < |keys| ==> Typable(keys[i]))
    requires forall r :: 0 <= r < |h| ==> Plain(h[r])
    ensures Aligned(w, Play(w, h, d, keys)) && Plain(Play(w, h, d, keys).edit.line.Text())
  {
    hide Pressed, Aligned, Typable, Plain;
    if keys != [] {
      var n := |keys| - 1;
      forall i | 0 <= i < n ensures Typable(keys[..n][i]) {
        assert keys[..n][i] == keys[i];
      }
      PlayAligned(w, h, d, keys[..n]);
      PressedAligned(w, h, Play(w, h, d, keys[..n]), keys[n]);
    }
  }

  /** Where n characters typed after a prompt in one of the rows above leave the
      position, as long as the last one is not below the window. */
  function Along(w: nat, row: nat, n: nat): Seat {
    var at := NUM_COLS * row + w + n;
    Seat(row, at % NUM_COLS, at / NUM_COLS % TEXT_ROWS, at)
  }

  lemma AlongPrints(w: nat, row: nat, n: nat)
    requires w < NUM_COLS && row < TEXT_ROWS && NUM_COLS * row + w + n < CELLS
    ensures Advances(Prints(Along(w, row, n), w + n, 'a'), 1) == Along(w, row, n + 1)
  {
  }

  lemma AlongNext(w: nat, row: nat, h: seq<string>, view: nat, n: nat)
    requires w < NUM_COLS && row < TEXT_ROWS && n < LINE_MAX && NUM_COLS * row + w + n < CELLS
    ensures Pressed(w, h, Desk(Along(w, row, n), Edit(Line(Repeat('a', n), ""), view)), Char('a'))
         == Desk(Along(w, row, n + 1), Edit(Line(Repeat('a', n + 1), ""), view))
  {
    hide Repeat, Along, Prints, Advances;
    AlongPrints(w, row, n);
    assert Repeat('a', n) + "" == Repeat('a', n);
  }

  lemma {:induction false} TypedAlong(w: nat, row: nat, h: seq<string>, view: nat, n: nat)
    requires w < NUM_COLS && row < TEXT_ROWS && n <= LINE_MAX && NUM_COLS * row + w + n <= CELLS
    ensures Play(w, h, Start(w, row, view), Times(Char('a'), n))
         == Desk(Along(w, row, n), Edit(Line(Repeat('a', n), ""), view))
  {
    hide Play, Pressed, Repeat;
    var d := Start(w, row, view);
    RepeatNone('a');
    if n == 0 {
      PlayNothing(w, h, d);
    } else {
      TypedAlong(w, row, h, view, n - 1);
      PlaySnoc(w, h, d, Times(Char('a'), n - 1), Char('a'));
      AlongNext(w, row, h, view, n - 1);
    }
  }

  /** The keys that fill the page to its last cell above the status bar. */
  function Filling(w: nat, row: nat): seq<Key>
    requires w < NUM_COLS && row <= TEXT_ROWS
  {
    Times(Char('a'), if row == TEXT_ROWS then NUM_COLS else CELLS - NUM_COLS * row - w)
  }

  /** Once the window's last cell is filled the position wraps around to the first
      one, and Backspace then leaves the page. */
  lemma FillingWraps(w: nat, row: nat, h: seq<string>, view: nat)
    requires w < NUM_COLS && row <= TEXT_ROWS && (w > 0 ==> row < TEXT_ROWS)
    requires NUM_COLS * row + w + LINE_MAX >= CELLS
    ensures var d := Play(w, h, Start(w, row, view), Filling(w, row));
            Spot(d.seat) == 0 && d.edit.line.left != "" && d.edit.line.right == "" && !StaysOnScreen(d, Backspace)
    ensures forall k :: k in Filling(w, row) ==> Typable(k)
  {
    hide Play, Times, Repeat;
    if row == TEXT_ROWS {
      TypedBelow(h, view, NUM_COLS);
      TypedInEditor(h, Edit(Line("", ""), view), NUM_COLS);
    } else {
      var n := CELLS - NUM_COLS * row - w;
      TypedAlong(w, row, h, view, n);
      TypedInEditor(h, Edit(Line("", ""), view), n);
    }
  }

  ghost predicate NeverLeaves(w: int, h: seq<string>, d: Desk) {
    forall keys, k :: (forall i :: 0 <= i < |keys| ==> Typable(keys[i])) && Typable(k) ==>
      StaysOnScreen(Play(w, h, d, keys), k)
  }

  /** From a read's start no key leaves the page if and only if the longest line
      from there ends above the status bar. */
  lemma NeverLeavesIff(w: nat, row: nat, h: seq<string>, view: nat)
    requires w < NUM_COLS && row <= TEXT_ROWS && (w > 0 ==> row < TEXT_ROWS)
    requires forall r :: 0 <= r < |h| ==> Plain(h[r])
    ensures NeverLeaves(w, h, Start(w, row, view)) <==> NUM_COLS * row + w + LINE_MAX < CELLS
  {
    hide Play, Times, StaysOnScreen, Filling, Plain, Typable;
    var d := Start(w, row, view);
    if NUM_COLS * row + w + LINE_MAX < CELLS {
      EmptyPlain(d.edit.line);
      forall keys, k | (forall i :: 0 <= i < |keys| ==> Typable(keys[i])) && Typable(k)
        ensures StaysOnScreen(Play(w, h, d, keys), k)
      {
        PlayAligned(w, h, d, keys);
        PressedAligned(w, h, Play(w, h, d, keys), k);
      }
    } else {
      FillingWraps(w, row, h, view);
      BackspaceTypable();
      assert !StaysOnScreen(Play(w, h, d, Filling(w, row)), Backspace);
    }
  }

  lemma EmptyPlain(e: Line)
    ensures e == Line("", "") ==> Plain(e.Text())
  {
  }

  lemma BackspaceTypable()
    ensures Typable(Backspace)
  {
  }
}
