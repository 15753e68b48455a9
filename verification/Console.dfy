/**
 Three terminals on one screen.  Each has a page of video memory of its own;
 while it is on the screen, the visible page stands in for it.
*/
module Console {
  import opened Editor
  import opened Paper
  import opened Screen
  import opened Sessions
  import opened Terminal
  import opened Typing

  // ---------------------------------------------------------------- a terminal and its page

  /** Everything is in range, and no access has left the page or the history
      buffer. */
  ghost predicate Sound(term: Terminal)
    reads term, term.commandBuffer
  {
    term.EditOk() && term.Placed() && term.HistoryOk() && !term.strayed && OnScreen(term.Here())
  }

  /** The terminal is in the session's state, apart from its page. */
  ghost predicate Holding(term: Terminal, s: Session)
    reads term, term.liveBuffer, term.liveBufferStore, term.commandBuffer
  {
    && Sound(term)
    && term.output == s.output && term.history == RememberAll(s.lines) && term.viewCommandRow == s.view
    && term.liveBuffer[..][..term.bytesWritten] == s.prompt && term.Edited() == s.line && term.Here() == s.seat
    && Plain(s.line.Text()) && (s.untouched ==> s.line == EMPTY)
  }

  /** What Enter has stored for the process, and what the process waits for:
      `from` is its read's variable for the length of the prompt. */
  ghost predicate Waiting(term: Terminal, from: int, s: Session)
    requires term.Ok()
    reads term, term.liveBufferStore
  {
    && term.readInProgress == !s.phase.Idle?
    && match s.phase
       case Idle => term.bytesReadStore == 0 && (term.liveBufferStore[0] == '\n' <==> s.stale)
       case Reading(f) =>
         from == f == |s.prompt| && term.bytesReadStore == 0 && term.liveBufferStore[0] != '\n'
       case Ready(stored, f) =>
         && from == f && (f == |s.prompt| || s.prompt == "")
         && |stored| == term.bytesReadStore < SCREEN_SIZE && term.liveBufferStore[..|stored|] == stored
         && term.liveBufferStore[|stored|] == '\n'
         && Plain(LineFrom(stored, f)) && |LineFrom(stored, f)| <= LINE_MAX
  }

  /** What is known of the page. */
  ghost predicate Seen(term: Terminal, page: array<char>, s: Session)
    requires term.EditOk()
    reads term, page, term.liveBuffer
  {
    && term.PageOk(page)
    && (s.tidy && s.untouched ==> term.Synced(page))
    && (s.tidy && s.Reach() ==> term.Drawn(page))
    && (s.tidy ==> s.untouched || s.Reach())
  }

  /** The terminal and its page are in the session's state. */
  ghost predicate Plays(term: Terminal, page: array<char>, from: int, s: Session)
    reads term, page, term.liveBuffer, term.liveBufferStore, term.commandBuffer
  {
    Holding(term, s) && Waiting(term, from, s) && Seen(term, page, s)
  }

  /** The page shows the output and the line. */
  ghost predicate ShowsAll(page: seq<char>, s: Session) {
    Window(page, Render(s.output) + s.line.Text(), Top(s.output))
  }

  lemma PlaysShows(term: Terminal, page: array<char>, from: int, s: Session)
    requires Plays(term, page, from, s) && s.tidy
    ensures ShowsAll(page[..], s)
  {
    hide Render, Top, Window, RowOf, Holds, InReach, RememberAll;
    if !s.Reach() {
      assert Render(s.output) + s.line.Text() == Render(s.output);
    }
  }

  lemma PlaysSafe(term: Terminal, page: array<char>, from: int, s: Session)
    requires Plays(term, page, from, s)
    ensures !term.strayed
  {
  }

  /** With the page in order and nothing typed yet, the line can be typed if and
      only if the next row is not below the window. */
  lemma ReachIff(term: Terminal, page: array<char>, from: int, s: Session)
    requires Plays(term, page, from, s) && s.tidy && s.untouched
    ensures s.Reach() <==> Room(s.output, 0)
  {
    hide RowOf, LineIn, Holds, RememberAll, Render, Top, Shows, InReach, DrawnBy;
    Position(term.output, term.rowIndex, term.bytesWritten, term.screenX, term.screenY, term.cursorLoc, page[..]);
    EmptyLineIsEmpty(term, s);
    if term.rowIndex < TEXT_ROWS {
      term.ReadStartsInReach(page);
    }
    if s.Reach() {
      ReachRow(|s.prompt|, s.AtDesk());
    }
  }

  lemma ReachRow(w: int, d: Desk)
    requires InReach(w, d)
    ensures 0 <= d.seat.row < TEXT_ROWS
  {
  }

  /** The screen fields are functions of the output. */
  lemma Position(s: string, row: int, col: int, x: int, y: int, cursor: int, page: seq<char>)
    requires TrackedBy(s, row, col, x, y, cursor, page) && col < NUM_COLS
    ensures Room(s, 0) <==> row < TEXT_ROWS
  {
    hide Render, Top, Shows;
  }

  /** Nothing typed yet, and the page in order: the line is drawn if it can be
      typed. */
  lemma CanType(term: Terminal, page: array<char>)
    requires term.NoLine() && term.Synced(page) && 0 <= term.viewCommandRow
    ensures InReach(term.bytesWritten, term.AtDesk()) ==> term.Drawn(page)
  {
    hide RowOf, TrackedBy, DrawnBy, LineIn, InReach;
    if InReach(term.bytesWritten, term.AtDesk()) {
      ReachRow(term.bytesWritten, term.AtDesk());
      term.ReadStartsDrawn(page);
    }
  }

  /** terminal_write, for a process of this terminal. */
  method WriteOn(term: Terminal, page: array<char>, text: string, ghost from: int, ghost s: Session)
    requires Plays(term, page, from, s) && Allowed(s, Wrote(text))
    modifies term, page, term.historyBuffer, term.liveBuffer, term.liveBufferStore
    ensures Plays(term, page, from, AfterWrite(s, text))
  {
    hide TrackedBy, DrawnBy, LineIn, RowOf, Holds, RememberAll, EndsFull, InReach, NextPrompt, Room, Shows, WritesAll, OnScreen;
    if s.untouched {
      EmptyLineIsEmpty(term, s);
    }
    var n := term.TerminalWrite(text, page);
    EmptyLine(term.liveBuffer[..], term.bytesWritten);
    if AfterWrite(s, text).tidy {
      CanType(term, page);
    }
  }

  lemma EmptyLineIsEmpty(term: Terminal, s: Session)
    requires Holding(term, s) && s.line == EMPTY
    ensures term.bytesRead == term.liveBufferLocation == term.bytesWritten
  {
    hide Holds, RememberAll;
    assert |s.line.left| == 0 && |s.line.right| == 0;
  }

  /** A process begins to read. */
  method BeginOn(term: Terminal, ghost page: array<char>, ghost from: int, ghost s: Session) returns (prompt: int)
    requires Plays(term, page, from, s) && s.phase.Idle?
    modifies term`readInProgress
    ensures Plays(term, page, prompt, Act(s, Began))
  {
    hide TrackedBy, DrawnBy, LineIn, RowOf, Holds, RememberAll, InReach, Room;
    var ok;
    ok, prompt := term.BeginRead(0);
  }

  lemma IgnoredIdles(term: Terminal, s: Session, k: Key)
    requires Holding(term, s) && Ignored(s, k)
    ensures Act(s, Typed(k)) == s && (term.Idles(k) || (s.phase.Idle? && Gated(k)))
  {
    hide Holds, RememberAll;
    assert |s.line.left| == term.liveBufferLocation - term.bytesWritten;
    assert |s.line.right| == term.bytesRead - term.liveBufferLocation;
  }

  /** What a key makes of the line, from wherever it is typed. */
  lemma KeyReaches(w: int, h: seq<string>, d: Desk, k: Key)
    requires 0 <= w < NUM_COLS && |d.edit.line.Text()| <= LINE_MAX
    requires k.Clear? || (InReach(w, d) && OnScreen(d.seat) && StaysOnScreen(d, k))
    ensures var r := Pressed(w, h, d, k);
            && InReach(w, r) && OnScreen(r.seat) && r.edit == Type(h, d.edit, k) && 0 <= r.seat.row < TEXT_ROWS
    ensures !k.Clear? ==> Rowed(d.seat, w + |d.edit.line.Text()|)
  {
    if k.Clear? {
      SeatedCleared(w, w + |d.edit.line.Text()|);
    } else {
      PressedInReach(w, h, d, k);
      PressedOnScreen(w, h, d, k);
      ReachRow(w, Pressed(w, h, d, k));
      ReachRowed(w, d);
    }
  }

  lemma RoomIsFit(term: Terminal, page: array<char>, n: nat)
    requires term.EditOk() && term.Drawn(page)
    ensures term.Fits(n) <==> Room(term.output, n)
  {
    hide Render, Window, RowOf;
  }

  lemma CleanRow(term: Terminal, s: Session)
    requires Holding(term, s) && Clean(s.prompt)
    ensures Clean(term.liveBuffer[..][..term.bytesRead])
  {
    hide InReach, Holds, RememberAll;
    LineText(term.liveBuffer[..], term.bytesWritten, term.liveBufferLocation, term.bytesRead);
    CleanParts(s.prompt, s.line.Text());
  }

  /** What a key that is not ignored is to the session and to the terminal. */
  lemma KeyWorks(term: Terminal, page: array<char>, k: Key, s: Session)
    requires Holding(term, s) && Seen(term, page, s) && Allowed(s, Typed(k)) && !Ignored(s, k)
    ensures var d, r := Pressed(term.bytesWritten, term.history, term.AtDesk(), k), Act(s, Typed(k));
            && d == r.AtDesk() && r.Reach() && OnScreen(r.seat) && Plain(r.line.Text())
            && 0 <= r.seat.row < TEXT_ROWS && (!s.phase.Idle? || !Gated(k))
            && r == s.(line := r.line, view := r.view, seat := r.seat, untouched := false,
                       output := if k.Clear? then s.prompt else s.output, tidy := r.tidy)
    ensures k.Clear? || (term.OnPage() && StaysOnScreen(term.AtDesk(), k))
    ensures Act(s, Typed(k)).tidy ==>
      || (k.Clear? && Clean(term.liveBuffer[..][..term.bytesRead]))
      || (!k.Clear? && term.Drawn(page) && term.Fits(|Type(term.history, term.AtDesk().edit, k).line.Text()|))
  {
    hide TrackedBy, DrawnBy, LineIn, RowOf, Holds, RememberAll, InReach, Room, Type, Pressed, Clean, Plain, Rowed, OnScreen,
         StaysOnScreen;
    var d := term.AtDesk();
    LineLength(term);
    KeyReaches(term.bytesWritten, term.history, d, k);
    HeldPlain(term.commandBuffer[..], term.history);
    PressedPlain(term.bytesWritten, term.history, d, k);
    if s.tidy && s.Reach() {
      RoomIsFit(term, page, |Type(term.history, d.edit, k).line.Text()|);
    }
    if Clean(s.prompt) {
      CleanRow(term, s);
    }
  }

  lemma LineLength(term: Terminal)
    requires term.EditOk()
    ensures term.bytesRead == term.bytesWritten + |term.Edited().Text()|
  {
    LineText(term.liveBuffer[..], term.bytesWritten, term.liveBufferLocation, term.bytesRead);
  }

  /** A key at the keyboard, while this terminal is visible. */
  method TypeOn(term: Terminal, page: array<char>, k: Key, ghost from: int, ghost s: Session)
    requires Plays(term, page, from, s) && Allowed(s, Typed(k))
    modifies term, page, term.historyBuffer, term.liveBuffer
    ensures Plays(term, page, from, Act(s, Typed(k)))
  {
    hide TrackedBy, DrawnBy, LineIn, RowOf, Holds, RememberAll, InReach, Room, Type, Pressed, Clean, Plain, AfterKey, Typable,
         Rowed, OnScreen, StaysOnScreen;
    if Ignored(s, k) {
      IgnoredIdles(term, s, k);
    } else {
      KeyWorks(term, page, k, s);
    }
    hide Act, Ignored;
    term.KeyDown(k, page);
    assert Holding(term, Act(s, Typed(k)));
    assert Waiting(term, from, Act(s, Typed(k)));
    assert Seen(term, page, Act(s, Typed(k)));
    hide Holding, Waiting, Seen;
  }

  /** Enter at the keyboard, while this terminal is visible. */
  method EnterOn(term: Terminal, page: array<char>, ghost from: int, ghost s: Session)
    requires Plays(term, page, from, s) && Allowed(s, Entered)
    modifies term, page, term.historyBuffer, term.liveBuffer, term.liveBufferStore
    ensures Plays(term, page, from, Act(s, Entered))
  {
    hide TrackedBy, DrawnBy, LineIn, RowOf, Holds, RememberAll, InReach, Room, Steady, Plain, StoresInRange, OnScreen, Enters,
         LineFrom;
    EnterReaches(term, s);
    if !s.phase.Idle? {
      StoredIsPlain(s.prompt, s.line.Text(), s.phase.from);
    }
    ghost var r := Act(s, Entered);
    term.EnterDown(page);
    EmptyLine(term.liveBuffer[..], term.bytesWritten);
    if term.readInProgress && r.tidy {
      CanType(term, page);
    }
    assert Sound(term);
    assert term.output == r.output && term.Here() == r.seat;
    assert term.liveBuffer[..][..term.bytesWritten] == r.prompt && term.Edited() == r.line;
    assert Holding(term, r);
    assert Waiting(term, from, r);
    assert Seen(term, page, r);
    hide Holding, Waiting, Seen;
  }

  /** What Enter stores, and where it leaves the position. */
  lemma EnterReaches(term: Terminal, s: Session)
    requires Holding(term, s)
    ensures term.liveBuffer[..][..term.bytesRead] == s.Stored() && term.bytesRead == |s.Stored()|
    ensures StoresInRange(s.seat.row, |s.Stored()|) ==>
      var r := Enters(s.seat, |s.Stored()|);
      OnScreen(r) && 0 <= r.row && (s.Stored() != "" ==> r.row <= TEXT_ROWS)
  {
    hide Holds, RememberAll;
    LineText(term.liveBuffer[..], term.bytesWritten, term.liveBufferLocation, term.bytesRead);
    HistoryStoresIff(s.seat.row, |s.Stored()|);
  }

  lemma StoredIsPlain(prompt: string, text: string, from: nat)
    requires Plain(text) && |text| <= LINE_MAX && (from == |prompt| || prompt == "")
    ensures Plain(LineFrom(prompt + text, from)) && |LineFrom(prompt + text, from)| <= LINE_MAX
  {
    if from == |prompt| {
      assert from < |prompt + text| ==> (prompt + text)[from..] == text;
    } else {
      assert prompt + text == text;
    }
  }

  /** The read returns the stored line. */
  method ReturnOn(term: Terminal, ghost page: array<char>, from: int, ghost s: Session) returns (line: string)
    requires Plays(term, page, from, s) && s.phase.Ready?
    modifies term, term.liveBufferStore, term.commandBuffer
    ensures Plays(term, page, from, Act(s, Returned))
    ensures Act(s, Returned).lines == s.lines + [line]
  {
    hide TrackedBy, DrawnBy, LineIn, RowOf, Holds, RememberAll, InReach, Plain, Remember, Act, LineFrom;
    StoredIsLine(term, from, s);
    ghost var d, text := term.AtDesk(), term.StoredLine(from);
    var buf := new char[CHAR_BUFFER_SIZE];
    var length := term.EndRead(from, buf);
    line := buf[..length][..length - 1];
    ReachView(|s.prompt|, d, term.viewCommandRow);
    assert Holding(term, Act(s, Returned));
    assert Waiting(term, from, Act(s, Returned));
    assert Seen(term, page, Act(s, Returned));
    hide Holding, Waiting, Seen;
  }

  lemma ReachView(w: int, d: Desk, view: nat)
    ensures InReach(w, d) <==> InReach(w, Desk(d.seat, Edit(d.edit.line, view)))
  {
  }

  /** What the return makes of the session, with the stored line. */
  lemma StoredIsLine(term: Terminal, from: int, s: Session)
    requires term.Ok() && Waiting(term, from, s) && s.phase.Ready?
    ensures var text, r := term.StoredLine(from), Act(s, Returned);
            && r.lines == s.lines + [text] && RememberAll(r.lines) == Remember(RememberAll(s.lines), text)
            && r.view == (if text != "" then |RememberAll(r.lines)| else s.view)
            && r == s.(lines := r.lines, view := r.view, stale := term.bytesReadStore == 0, phase := Idle)
            && Plain(text) && |text| <= LINE_MAX
  {
    hide Plain, Remember;
    var text := LineFrom(s.phase.stored, s.phase.from);
    assert (s.lines + [text])[..|s.lines|] == s.lines;
    var n := |s.phase.stored|;
    assert term.liveBufferStore[..][..n] == term.liveBufferStore[..n];
    assert from < n ==> term.liveBufferStore[..][from..n] == term.liveBufferStore[..n][from..];
  }

  /** Another page with the same 24 rows will do as well. */
  lemma SamePage(term: Terminal, page: array<char>, other: array<char>, from: int, s: Session)
    requires Plays(term, page, from, s) && term.PageOk(other) && other[..CELLS] == page[..CELLS]
    ensures Plays(term, other, from, s)
  {
    hide TrackedBy, DrawnBy, LineIn, RowOf, Holds, RememberAll, InReach;
    if term.Synced(page) {
      TextRowsMatter(term.output, term.rowIndex, term.bytesWritten, term.screenX, term.screenY, term.cursorLoc,
                     page[..], other[..]);
    }
    if term.Drawn(page) {
      DrawnRowsMatter(term.output, term.bytesWritten, term.Edited(), term.rowIndex, term.screenX, term.screenY,
                      term.cursorLoc, page[..], other[..]);
    }
  }

  /** memcpy from page to page. */
  method CopyPage(to: array<char>, from: array<char>)
    requires to.Length == from.Length && to != from
    modifies to
    ensures to[..] == from[..]
  {
    var i := 0;
    while i < from.Length
      invariant 0 <= i <= from.Length && to[..i] == from[..i]
    {
      to[i] := from[i];
      i := i + 1;
    }
    assert to[..] == to[..i] && from[..] == from[..i];
  }

  /** Clear the screen. */
  method ClearScreen(page: array<char>)
    requires page.Length >= CELLS
    modifies page
    ensures forall k :: 0 <= k < CELLS ==> page[k] == ' '
    ensures page[CELLS..] == old(page[CELLS..])
  {
    var i := 0;
    while i < (NUM_ROWS - STATUS_BAR_HEIGHT) * NUM_COLS
      invariant 0 <= i <= CELLS && page[CELLS..] == old(page[CELLS..]) && forall k :: 0 <= k < i ==> page[k] == ' '
    {
      page[i] := ' ';
      i := i + 1;
    }
  }

  /** A terminal as three_term_init leaves it. */
  method NewTerminal(ghost s: Session) returns (term: Terminal, page: array<char>)
    requires Booted(s)
    ensures fresh(page) && fresh(term.Repr()) && page !in term.Repr() && page.Length == PAGE_CELLS
    ensures Plays(term, page, 0, s) && forall k :: 0 <= k < CELLS ==> page[k] == ' '
  {
    hide RememberAll, RowOf, Holds, TrackedBy, DrawnBy, LineIn, InReach, Room;
    page := new char[PAGE_CELLS];
    term := new Terminal();
    term.TerminalInit(page);
    NothingRemembered(s.lines);
    EmptyLine(term.liveBuffer[..], term.bytesWritten);
    CanType(term, page);
    assert term.liveBuffer[..][..0] == s.prompt;
  }


  lemma NothingRemembered(lines: seq<string>)
    requires lines == []
    ensures RememberAll(lines) == []
  {
  }

  ghost predicate Disjoint(visible: array<char>, backups: seq<array<char>>, terminals: seq<Terminal>) {
    && |backups| == |terminals| == NUM_TERMINALS
    && visible.Length == PAGE_CELLS && (forall t :: 0 <= t < NUM_TERMINALS ==> backups[t].Length == PAGE_CELLS)
    && (forall t :: 0 <= t < NUM_TERMINALS ==> backups[t] != visible)
    && (forall t, u :: 0 <= t < u < NUM_TERMINALS ==> backups[t] != backups[u])
    && (forall t :: 0 <= t < NUM_TERMINALS ==> visible !in terminals[t].Repr())
    && (forall t, u :: 0 <= t < NUM_TERMINALS && 0 <= u < NUM_TERMINALS ==> backups[u] !in terminals[t].Repr())
    && (forall t, u :: 0 <= t < u < NUM_TERMINALS ==> terminals[t].Repr() !! terminals[u].Repr())
  }

  lemma DisjointThree(visible: array<char>, p: array<char>, q: array<char>, r: array<char>, a: Terminal, b: Terminal, c: Terminal)
    requires visible.Length == p.Length == q.Length == r.Length == PAGE_CELLS
    requires visible != p && visible != q && visible != r && p != q && p != r && q != r
    requires a.Repr() !! b.Repr() && a.Repr() !! c.Repr() && b.Repr() !! c.Repr()
    requires {visible, p, q, r} !! a.Repr() + b.Repr() + c.Repr()
    ensures Disjoint(visible, [p, q, r], [a, b, c])
  {
    var terminals, backups := [a, b, c], [p, q, r];
    forall t, u | 0 <= t < NUM_TERMINALS && 0 <= u < NUM_TERMINALS
      ensures backups[u] !in terminals[t].Repr() && visible !in terminals[t].Repr()
    {
      assert backups[u] in {visible, p, q, r} && visible in {visible, p, q, r};
      assert terminals[t].Repr() <= a.Repr() + b.Repr() + c.Repr();
    }
  }

  class Console {
    const visible: array<char>
    const backups: seq<array<char>>
    const terminals: seq<Terminal>
    var currentTerm: nat
    /** For every terminal, its last read's local_bytes_written. */
    var prompts: seq<int>

    /** The state that the console's run has reached. */
    ghost var m: State

    /** The console, its pages and its terminals are all different objects. */
    ghost predicate Apart() {
      && Disjoint(visible, backups, terminals)
      && forall t :: 0 <= t < NUM_TERMINALS ==> this as object !in terminals[t].Repr()
    }

    ghost function Everything(): set<object>
      requires Apart()
    {
      {this, visible} + {backups[0], backups[1], backups[2]}
      + terminals[0].Repr() + terminals[1].Repr() + terminals[2].Repr()
    }

    /** A terminal's logical page. */
    function Page(t: nat): array<char>
      requires Apart() && t < NUM_TERMINALS
      reads `currentTerm
    {
      if t == currentTerm then visible else backups[t]
    }

    /** Every terminal and its logical page are in their session's state. */
    ghost predicate Valid()
      reads if Apart() then Everything() else {this}
    {
      && Apart() && Proper(m) && m.visible == currentTerm && |prompts| == NUM_TERMINALS
      && (forall t :: 0 <= t < NUM_TERMINALS ==> Plays(terminals[t], Page(t), prompts[t], m.sessions[t]))
    }

    method Write(t: nat, text: string)
      requires Valid() && t < NUM_TERMINALS && Allowed(m.sessions[t], Wrote(text))
      modifies `m, Page(t), terminals[t].Repr()
      ensures Valid() && m == Step(old(m), Call(t, Wrote(text)))
    {
      hide Plays, AfterWrite;
      var page := if t == currentTerm then visible else backups[t];
      WriteOn(terminals[t], page, text, prompts[t], m.sessions[t]);
      m := Step(m, Call(t, Wrote(text)));
    }

    /** A process of terminal t begins to read, whether it is visible or not. */
    method Begin(t: nat)
      requires Valid() && t < NUM_TERMINALS && Allowed(m.sessions[t], Began)
      modifies `m, `prompts, terminals[t].Repr()
      ensures Valid() && m == Step(old(m), Call(t, Began))
    {
      hide Plays, Act;
      var prompt := BeginOn(terminals[t], Page(t), prompts[t], m.sessions[t]);
      prompts := prompts[t := prompt];
      m := Step(m, Call(t, Began));
    }

    /** The read of a process of terminal t returns. */
    method Return(t: nat) returns (line: string)
      requires Valid() && t < NUM_TERMINALS && Allowed(m.sessions[t], Returned)
      modifies `m, terminals[t].Repr()
      ensures Valid() && m == Step(old(m), Call(t, Returned))
      ensures m.sessions[t].lines == old(m.sessions[t]).lines + [line]
    {
      hide Plays, Act;
      line := ReturnOn(terminals[t], Page(t), prompts[t], m.sessions[t]);
      m := Step(m, Call(t, Returned));
    }

    method Press(k: Key)
      requires Valid() && Allowed(m.sessions[m.visible], Typed(k))
      modifies `m, visible, terminals[currentTerm].Repr()
      ensures Valid() && m == Step(old(m), Hit(Typed(k)))
    {
      hide Plays, Act, Allowed;
      TypeOn(terminals[currentTerm], visible, k, prompts[currentTerm], m.sessions[currentTerm]);
      m := Step(m, Hit(Typed(k)));
    }

    method Enter()
      requires Valid() && Allowed(m.sessions[m.visible], Entered)
      modifies `m, visible, terminals[currentTerm].Repr()
      ensures Valid() && m == Step(old(m), Hit(Entered))
    {
      hide Plays, Act, Allowed;
      EnterOn(terminals[currentTerm], visible, prompts[currentTerm], m.sessions[currentTerm]);
      m := Step(m, Hit(Entered));
    }

    method DrawStatusBar(bar: string)
      requires visible.Length == PAGE_CELLS && |bar| == NUM_COLS
      modifies visible
      ensures visible[..CELLS] == old(visible[..CELLS]) && visible[CELLS..CELLS + COLS] == bar
    {
      var col := 0;
      while col < NUM_COLS
        invariant 0 <= col <= NUM_COLS
        invariant visible[..CELLS] == old(visible[..CELLS]) && visible[CELLS..CELLS + col] == bar[..col]
      {
        visible[NUM_COLS * (NUM_ROWS - STATUS_BAR_HEIGHT) + col] := bar[col];
        col := col + 1;
      }
      assert bar[..col] == bar;
    }

    /** terminal_switch: save the visible page, bring in the other terminal's,
        and draw the status bar below its 24 rows.  Every logical page keeps
        its rows. */
    method Switch(t: nat, bar: string)
      requires Valid() && t < NUM_TERMINALS && |bar| == NUM_COLS
      modifies `currentTerm, `m, visible, backups[currentTerm]
      ensures Valid() && m == Step(old(m), Op.Switch(t, bar))
      ensures forall u :: 0 <= u < NUM_TERMINALS ==> Page(u)[..CELLS] == old(Page(u)[..CELLS])
      ensures t != old(currentTerm) ==> visible[CELLS..CELLS + COLS] == bar
    {
      hide Plays;
      if t == currentTerm {
        return;
      }
      Exchange(t, bar);
      currentTerm := t;
      m := Step(m, Op.Switch(t, bar));
    }

    /** Both pages on the move keep their rows, so both terminals can go on. */
    method Exchange(t: nat, bar: string)
      requires Valid() && t < NUM_TERMINALS && t != currentTerm && |bar| == NUM_COLS
      modifies visible, backups[currentTerm]
      ensures backups[currentTerm][..CELLS] == old(visible[..CELLS])
      ensures visible[..CELLS] == old(backups[t][..CELLS]) && visible[CELLS..CELLS + COLS] == bar
      ensures forall u :: 0 <= u < NUM_TERMINALS ==>
        Plays(terminals[u], if u == t then visible else backups[u], prompts[u], m.sessions[u])
    {
      hide Plays;
      CopyPage(backups[currentTerm], visible);
      SamePage(terminals[currentTerm], visible, backups[currentTerm], prompts[currentTerm],
               m.sessions[currentTerm]);
      CopyPage(visible, backups[t]);
      DrawStatusBar(bar);
      SamePage(terminals[t], backups[t], visible, prompts[t], m.sessions[t]);
    }

    /** One step of a run, and the line if it is the return of a read. */
    method Do(op: Op) returns (line: string)
      requires Valid() && Possible(op) && AllowedStep(m, op)
      modifies Everything()
      ensures Valid() && m == Step(old(m), op)
      ensures op.Call? && op.a.Returned? ==> m.sessions[op.t].lines == old(m.sessions[op.t]).lines + [line]
    {
      hide Plays, Allowed, Act;
      line := "";
      match op
      case Call(t, Wrote(text)) => Write(t, text);
      case Call(t, Began) => Begin(t);
      case Call(t, Returned) => line := Return(t);
      case Hit(Typed(k)) => Press(k);
      case Hit(Entered) => Enter();
      case Switch(t, bar) => Switch(t, bar);
    }

    /** A whole run.  Every terminal's reads have returned the lines, and every
        logical page shows the output and the line, that the terminal's own
        actions alone would have made of it. */
    method DoAll(ops: seq<Op>) returns (got: seq<seq<string>>)
      requires Valid() && (forall op :: op in ops ==> Possible(op)) && AllowedRun(m, ops)
      modifies Everything()
      ensures Valid() && m == Run(old(m), ops) && |got| == NUM_TERMINALS
      ensures forall t :: 0 <= t < NUM_TERMINALS ==>
        var s := ActAll(old(m.sessions[t]), Own(old(m), ops, t));
        && s.lines == old(m.sessions[t]).lines + got[t]
        && (s.tidy ==> ShowsAll(Page(t)[..], s))
        && !terminals[t].strayed
    {
      hide Allowed, AllowedStep, AllowedRun, Plays, Step, ShowsAll, ActAll, Own;
      got := [[], [], []];
      var i := 0;
      while i < |ops|
        invariant 0 <= i <= |ops| && Valid() && m == Run(old(m), ops[..i]) && |got| == NUM_TERMINALS
        invariant forall t :: 0 <= t < NUM_TERMINALS ==> m.sessions[t].lines == old(m.sessions[t]).lines + got[t]
      {
        AllowedPrefix(old(m), ops, i + 1);
        assert ops[..i + 1][..i] == ops[..i];
        StepLines(m, ops[i]);
        var line := Do(ops[i]);
        if ops[i].Call? && ops[i].a.Returned? {
          got := got[ops[i].t := got[ops[i].t] + [line]];
        }
        i := i + 1;
      }
      assert ops[..i] == ops;
      AllShow();
      forall t | 0 <= t < NUM_TERMINALS ensures m.sessions[t] == ActAll(old(m.sessions[t]), Own(old(m), ops, t)) {
        TerminalsAreSeparate(old(m), ops, t);
      }
    }

    lemma AllShow()
      requires Valid()
      ensures forall t :: 0 <= t < NUM_TERMINALS ==>
        !terminals[t].strayed && (m.sessions[t].tidy ==> ShowsAll(Page(t)[..], m.sessions[t]))
    {
      hide Plays, ShowsAll;
      forall t | 0 <= t < NUM_TERMINALS
        ensures !terminals[t].strayed && (m.sessions[t].tidy ==> ShowsAll(Page(t)[..], m.sessions[t]))
      {
        PlaysSafe(terminals[t], Page(t), prompts[t], m.sessions[t]);
        if m.sessions[t].tidy {
          PlaysShows(terminals[t], Page(t), prompts[t], m.sessions[t]);
        }
      }
    }

    /** Put initialised terminals together, the first of them on the screen. */
    constructor (screen: array<char>, pages: seq<array<char>>, terms: seq<Terminal>, ghost s: Session)
      requires Disjoint(screen, pages, terms)
      requires forall t :: 0 <= t < NUM_TERMINALS ==> Plays(terms[t], if t == 0 then screen else pages[t], 0, s)
      ensures Valid() && visible == screen && backups == pages && terminals == terms
      ensures m == State(0, [s, s, s])
    {
      visible, backups, terminals := screen, pages, terms;
      currentTerm, prompts := 0, [0, 0, 0];
      m := State(0, [s, s, s]);
      new;
      hide Plays;
    }
  }

  /** Boot: clear the screen and initialise three terminals. */
  method Boot() returns (console: Console)
    ensures console.Valid()
    ensures console.m.visible == 0 && forall s :: s in console.m.sessions ==> Booted(s)
  {
    hide Plays;
    ghost var s := Session("", "", EMPTY, Seat(0, 0, 0, 0), [], 0, false, true, true, Idle);
    var a, p := NewTerminal(s);
    var b, q := NewTerminal(s);
    var c, r := NewTerminal(s);
    var screen := new char[PAGE_CELLS];
    ClearScreen(screen);
    SamePage(a, p, screen, 0, s);
    DisjointThree(screen, p, q, r, a, b, c);
    hide Disjoint;
    console := new Console(screen, [p, q, r], [a, b, c], s);
  }
}
