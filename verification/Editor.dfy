/**
 The line editor as text left and right of a cursor, and the command history
 as a bounded queue.
*/
module Editor {
  import opened Buffers

  const LINE_MAX: nat := 127
  const HISTORY_MAX: nat := 20

  datatype Line = Line(left: string, right: string)
  {
    function Text(): string {
      left + right
    }
  }

  /** The keys that edit a line.  Enter ends it. */
  datatype Key = Char(c: char) | Tab | Backspace | Left | Right | Up | Clear

  /** No character that ends a string or a row. */
  predicate Plain(s: string) {
    '\0' !in s && '\n' !in s && '\r' !in s
  }

  /** What the keyboard can send. */
  predicate Typable(k: Key) {
    k.Char? ==> Plain([k.c])
  }

  /** The keys that work on the line alone. */
  function Press(e: Line, k: Key): Line {
    match k
    case Char(c) => if |e.Text()| < LINE_MAX then Line(e.left + [c], e.right) else e
    case Tab => if |e.Text()| + 3 < LINE_MAX then Line(e.left + "    ", e.right) else e
    case Backspace => if e.left != "" then Line(e.left[..|e.left| - 1], e.right) else e
    case Left => if e.left != "" then Line(e.left[..|e.left| - 1], [e.left[|e.left| - 1]] + e.right) else e
    case Right => if e.right != "" then Line(e.left + [e.right[0]], e.right[1..]) else e
    case Clear => Line(e.Text(), "")
    case _ => e
  }

  function Min(a: nat, b: nat): nat {
    if a < b then a else b
  }

  /** The command takes the place of the text left of the cursor, as far as
      there is room. */
  function Recalled(e: Line, command: string): Line {
    Line(command[..Min(|command|, if |e.right| < LINE_MAX then LINE_MAX - |e.right| else 0)], e.right)
  }

  /** A line being edited, and the row of the history looked at last. */
  datatype Edit = Edit(line: Line, view: nat)

  function Row(h: seq<string>, row: nat): string {
    if row < |h| then h[row] else ""
  }

  function Type(h: seq<string>, s: Edit, k: Key): Edit {
    if !k.Up? then Edit(Press(s.line, k), s.view)
    else if s.view == 0 then s
    else Edit(Recalled(s.line, Row(h, s.view - 1)), s.view - 1)
  }

  function TypeAll(h: seq<string>, s: Edit, keys: seq<Key>): Edit {
    if keys == [] then s else Type(h, TypeAll(h, s, keys[..|keys| - 1]), keys[|keys| - 1])
  }

  lemma TypeSnoc(h: seq<string>, s: Edit, keys: seq<Key>, k: Key)
    ensures TypeAll(h, s, keys + [k]) == Type(h, TypeAll(h, s, keys), k)
  {
    assert (keys + [k])[..|keys|] == keys;
  }

  /** The longest the line gets on the way. */
  function Longest(h: seq<string>, s: Edit, keys: seq<Key>): nat {
    var n := |TypeAll(h, s, keys).line.Text()|;
    if keys == [] then n
    else
      var before := Longest(h, s, keys[..|keys| - 1]);
      if n < before then before else n
  }

  lemma {:induction false} LongestIsLongest(h: seq<string>, s: Edit, keys: seq<Key>, n: nat)
    requires n <= |keys|
    ensures |TypeAll(h, s, keys[..n]).line.Text()| <= Longest(h, s, keys)
  {
    if n == |keys| {
      assert keys[..n] == keys;
    } else {
      LongestIsLongest(h, s, keys[..|keys| - 1], n);
      assert keys[..|keys| - 1][..n] == keys[..n];
    }
  }

  /** Where the characters of a line can come from. */
  ghost predicate From(t: string, s: string, h: seq<string>, keys: seq<Key>) {
    forall c :: c in t ==> c in s || c == ' ' || Char(c) in keys || exists r :: 0 <= r < |h| && c in h[r]
  }

  lemma TypeHolds(h: seq<string>, s: Edit, k: Key)
    requires |s.line.Text()| <= LINE_MAX
    ensures |Type(h, s, k).line.Text()| <= LINE_MAX && Type(h, s, k).view <= s.view
    ensures From(Type(h, s, k).line.Text(), s.line.Text(), h, [k])
  {
    var t := Type(h, s, k).line;
    forall c | c in t.Text() && c !in s.line.Text() && c != ' ' && Char(c) !in [k]
      ensures exists r :: 0 <= r < |h| && c in h[r]
    {
      assert c in t.left || c in t.right;
      assert c in Row(h, s.view - 1);
    }
  }

  lemma TypePlain(h: seq<string>, s: Edit, k: Key)
    requires |s.line.Text()| <= LINE_MAX && Plain(s.line.Text()) && Typable(k)
    requires forall r :: 0 <= r < |h| ==> Plain(h[r])
    ensures Plain(Type(h, s, k).line.Text()) && |Type(h, s, k).line.Text()| <= LINE_MAX
  {
    TypeHolds(h, s, k);
  }

  /** No sequence of keys makes the line longer than 127 characters, and only
      typed characters, blanks and recalled commands get into it. */
  lemma {:induction false} LineBounded(h: seq<string>, s: Edit, keys: seq<Key>)
    requires |s.line.Text()| <= LINE_MAX
    ensures |TypeAll(h, s, keys).line.Text()| <= Longest(h, s, keys) <= LINE_MAX
    ensures From(TypeAll(h, s, keys).line.Text(), s.line.Text(), h, keys)
  {
    hide Type;
    if keys != [] {
      var n := |keys| - 1;
      LineBounded(h, s, keys[..n]);
      TypeHolds(h, TypeAll(h, s, keys[..n]), keys[n]);
    }
  }

  /** Moving the cursor does not change the line. */
  lemma MovesKeepText(e: Line, k: Key)
    requires k.Left? || k.Right? || k.Clear?
    ensures Press(e, k).Text() == e.Text()
  {
  }

  /** A character and then Backspace is no change, and so are Left and Right. */
  lemma Undone(e: Line, c: char)
    ensures |e.Text()| < LINE_MAX ==> Press(Press(e, Char(c)), Backspace) == e
    ensures e.left != "" ==> Press(Press(e, Left), Right) == e
    ensures e.right != "" ==> Press(Press(e, Right), Left) == e
  {
  }

  /** A character goes in at the cursor up to the 127th; without a character
      there, Backspace, Left and Right do nothing; Ctrl-L puts the cursor behind
      the line. */
  lemma PressLaw(e: Line, c: char)
    ensures Press(e, Char(c)).Text() == if |e.Text()| < 127 then e.left + [c] + e.right else e.Text()
    ensures |e.Text()| >= 127 ==> Press(e, Char(c)) == e
    ensures e.left == "" ==> Press(e, Backspace) == Press(e, Left) == e
    ensures e.right == "" ==> Press(e, Right) == e
    ensures Press(e, Clear).right == ""
  {
  }

  /** Tab types four blanks if the line has room for all of them, or none. */
  lemma TabIsBlanks(e: Line)
    ensures Press(e, Tab) == if |e.Text()| <= 123 then Press(Press(Press(Press(e, Char(' ')), Char(' ')), Char(' ')), Char(' '))
                             else e
  {
    if |e.Text()| <= 123 {
      assert e.left + "    " == e.left + [' '] + [' '] + [' '] + [' '];
    }
  }

  /** Up goes one row back and puts as much of its command as has room in place
      of the text left of the cursor; in the first row it does nothing. */
  lemma UpLaw(h: seq<string>, s: Edit)
    requires |s.line.right| <= 127
    ensures s.view == 0 ==> Type(h, s, Up) == s
    ensures s.view > 0 ==>
      var r, command := Type(h, s, Up), if s.view <= |h| then h[s.view - 1] else "";
      && r.view == s.view - 1 && r.line.right == s.line.right && r.line.left <= command
      && |r.line.Text()| <= 127 && (r.line.left == command || |r.line.Text()| == 127)
  {
  }

  // ---------------------------------------------------------------- history

  /** The commands kept after reading one more line.  A full queue gives up its
      oldest command even to an empty line. */
  function Remember(h: seq<string>, line: string): seq<string> {
    var room := if |h| >= HISTORY_MAX then h[1..] else h;
    if line == "" then room else room + [line]
  }

  function RememberAll(lines: seq<string>): (h: seq<string>)
    ensures |h| <= HISTORY_MAX
  {
    if lines == [] then [] else Remember(RememberAll(lines[..|lines| - 1]), lines[|lines| - 1])
  }

  /** The commands among the lines. */
  function Commands(lines: seq<string>): seq<string> {
    if lines == [] then []
    else Commands(lines[..|lines| - 1]) + if lines[|lines| - 1] == "" then [] else [lines[|lines| - 1]]
  }

  /** The last cap of all commands. */
  predicate Recent(h: seq<string>, all: seq<string>, cap: nat) {
    |h| == Min(cap, |all|) && h == all[|all| - |h|..]
  }

  lemma RecentStep(h: seq<string>, all: seq<string>, cap: nat, line: string)
    requires HISTORY_MAX - 1 <= cap <= HISTORY_MAX && Recent(h, all, cap)
    ensures Recent(Remember(h, line), all + if line == "" then [] else [line],
                   if line == "" then HISTORY_MAX - 1 else HISTORY_MAX)
  {
    var room := if |h| >= HISTORY_MAX then h[1..] else h;
    var from := |all| - |room|;
    assert room == all[from..];
    if line == "" {
      assert all + [] == all;
    } else {
      assert (all + [line])[from..] == all[from..] + [line];
    }
  }

  /** The history is the last 20 commands, or the last 19 after an empty line. */
  lemma {:induction false} HistoryIsRecent(lines: seq<string>)
    ensures Recent(RememberAll(lines), Commands(lines),
                   if lines != [] && lines[|lines| - 1] == "" then HISTORY_MAX - 1 else HISTORY_MAX)
  {
    if lines != [] {
      hide Recent, Remember;
      var before := lines[..|lines| - 1];
      HistoryIsRecent(before);
      RecentStep(RememberAll(before), Commands(before),
                 if before != [] && before[|before| - 1] == "" then HISTORY_MAX - 1 else HISTORY_MAX, lines[|lines| - 1]);
    }
  }

  /** Looking back from the newest row, the k-th Up brings the k-th most recent
      command, and leaves the text right of the cursor alone. */
  lemma {:induction false} UpRecalls(h: seq<string>, s: Edit, ups: seq<Key>)
    requires s.view == |h| && 1 <= |ups| <= |h| && forall i :: 0 <= i < |ups| ==> ups[i] == Up
    requires forall i :: 0 <= i < |h| ==> |h[i]| + |s.line.right| <= LINE_MAX
    ensures TypeAll(h, s, ups) == Edit(Line(h[|h| - |ups|], s.line.right), |h| - |ups|)
  {
    if |ups| > 1 {
      UpRecalls(h, s, ups[..|ups| - 1]);
    } else {
      assert TypeAll(h, s, ups[..0]) == s;
    }
  }

  lemma RecallNothing(e: Line, command: string)
    ensures e.left == "" ==> Recalled(e, command[..0]) == e
    ensures Recalled(e, command) == Recalled(Line("", e.right), command)
  {
  }

  /** Recalling a command types it character by character. */
  lemma RecallSnoc(e: Line, command: string, n: nat)
    requires n < |command| && |e.right| <= LINE_MAX
    ensures Press(Recalled(e, command[..n]), Char(command[n])) == Recalled(e, command[..n + 1])
    ensures |Recalled(e, command[..n + 1]).Text()| <= |Recalled(e, command).Text()|
  {
    if |Recalled(e, command[..n]).Text()| < LINE_MAX {
      assert command[..n] + [command[n]] == command[..n + 1];
    } else {
      var room := LINE_MAX - |e.right|;
      assert command[..n][..room] == command[..n + 1][..room];
    }
  }

  lemma RecallStep(e: Line, command: string, n: nat)
    requires n < |command| && |e.right| <= LINE_MAX
    ensures var r := Recalled(e, command[..n]);
            r.right == e.right && Recalled(e, command[..n + 1]) == if |r.Text()| < LINE_MAX then Line(r.left + [command[n]], r.right) else r
  {
    RecallSnoc(e, command, n);
  }

  // ---------------------------------------------------------------- the command buffer

  const ROW_SIZE: nat := 128

  function CellOf(h: seq<string>, row: nat, col: nat): char {
    if col < |Row(h, row)| then Row(h, row)[col] else '\0'
  }

  /** The command buffer holds the history, one zero-terminated command a row,
      and zeros below it. */
  ghost predicate Holds(buf: seq<char>, h: seq<string>) {
    && |buf| == HISTORY_MAX * ROW_SIZE && |h| <= HISTORY_MAX
    && (forall r :: 0 <= r < |h| ==> 1 <= |h[r]| <= LINE_MAX && Plain(h[r]))
    && (forall k :: 0 <= k < |buf| ==> buf[k] == CellOf(h, k / ROW_SIZE, k % ROW_SIZE))
  }

  lemma HeldCell(buf: seq<char>, h: seq<string>, row: nat, col: nat)
    requires Holds(buf, h) && row < HISTORY_MAX && col < ROW_SIZE
    ensures ROW_SIZE * row + col < |buf| && buf[ROW_SIZE * row + col] == CellOf(h, row, col)
    ensures col < |Row(h, row)| ==> Plain([CellOf(h, row, col)])
    ensures |Row(h, row)| <= LINE_MAX && |h| <= HISTORY_MAX
  {
    var k := ROW_SIZE * row + col;
    assert k / ROW_SIZE == row && k % ROW_SIZE == col;
  }

  lemma ZerosHold(buf: seq<char>)
    requires |buf| == HISTORY_MAX * ROW_SIZE && forall k :: 0 <= k < |buf| ==> buf[k] == '\0'
    ensures Holds(buf, [])
  {
  }

  lemma HeldPlain(buf: seq<char>, h: seq<string>)
    requires Holds(buf, h)
    ensures forall r :: 0 <= r < |h| ==> Plain(h[r])
  {
  }

  /** Scrolling the buffer forgets the oldest command. */
  lemma ScrollHolds(buf: seq<char>, h: seq<string>)
    requires Holds(buf, h) && h != []
    ensures Holds(Scrolled(buf, ROW_SIZE, |buf|), h[1..])
  {
    hide Scrolled, Row;
    var r := Scrolled(buf, ROW_SIZE, |buf|);
    forall k | 0 <= k < |r| ensures r[k] == CellOf(h[1..], k / ROW_SIZE, k % ROW_SIZE) {
      RowBelow(h, k / ROW_SIZE);
      ScrolledCell(buf, ROW_SIZE, |buf|, k);
      if k < |buf| - ROW_SIZE {
        assert (k + ROW_SIZE) / ROW_SIZE == k / ROW_SIZE + 1 && (k + ROW_SIZE) % ROW_SIZE == k % ROW_SIZE;
      } else {
        assert k / ROW_SIZE == HISTORY_MAX - 1;
      }
    }
  }

  lemma RowBelow(h: seq<string>, row: nat)
    requires h != [] && |h| <= HISTORY_MAX
    ensures Row(h[1..], row) == Row(h, row + 1) && (row == HISTORY_MAX - 1 ==> Row(h, row + 1) == "")
  {
  }

  /** Writing a command into the first free row remembers it. */
  lemma WriteHolds(buf: seq<char>, h: seq<string>, line: string)
    requires Holds(buf, h) && |h| < HISTORY_MAX && 1 <= |line| <= LINE_MAX && Plain(line)
    ensures var at := ROW_SIZE * |h|;
            at + |line| <= |buf| && Holds(Written(buf, at, line), h + [line])
  {
    var r := Written(buf, ROW_SIZE * |h|, line);
    forall k | 0 <= k < |r| ensures r[k] == CellOf(h + [line], k / ROW_SIZE, k % ROW_SIZE) {
      if k / ROW_SIZE != |h| {
        assert Row(h + [line], k / ROW_SIZE) == Row(h, k / ROW_SIZE);
      }
    }
  }
}
