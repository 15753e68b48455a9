/**
 One terminal: its screen position, its live line and its page of video
 memory, and the kernel's functions that change them.
*/
module Terminal {
  import opened Buffers
  import opened Editor
  import opened Paper
  import opened Screen
  import opened Typing

  class Terminal {
    const liveBuffer: array<char>
    const liveBufferStore: array<char>
    const commandBuffer: array<char>
    const historyBuffer: array2<char>

    var bytesRead: int
    var bytesReadStore: int
    var bytesWritten: int
    var liveBufferLocation: int
    var rowIndex: int
    var writeCommandRow: int
    var viewCommandRow: int
    var cursorLoc: int
    var screenX: int
    var screenY: int
    var readInProgress: bool

    /** Everything terminal_write has printed since the page was cleared. */
    ghost var output: string
    /** The commands that Up can bring back, oldest first. */
    ghost var history: seq<string>
    /** Some access has left the page or the history buffer.  The memory around
        them is not modelled. */
    ghost var strayed: bool

    ghost predicate Ok()
      reads this
    {
      && liveBuffer.Length == SCREEN_SIZE && liveBufferStore.Length == SCREEN_SIZE
      && commandBuffer.Length == MAX_COMMAND_STORE * CHAR_BUFFER_SIZE
      && historyBuffer.Length0 == TEXT_ROWS && historyBuffer.Length1 == NUM_COLS
      && historyBuffer as object != this
      && liveBuffer != liveBufferStore && liveBuffer != commandBuffer && liveBufferStore != commandBuffer
    }

    /** A page of video memory that is none of the terminal's own buffers. */
    ghost predicate PageOk(page: array<char>)
      reads this
    {
      page.Length == PAGE_CELLS && page != liveBuffer && page != liveBufferStore && page != commandBuffer
    }

    /** Enough for every access of terminal_write to be in range. */
    ghost predicate InRange()
      reads this
    {
      Placed() && rowIndex <= TEXT_ROWS
    }

    /** Enter may leave the row below that. */
    ghost predicate Placed()
      reads this
    {
      0 <= rowIndex && 0 <= bytesWritten < NUM_COLS && (bytesWritten > 0 ==> rowIndex < TEXT_ROWS)
    }

    ghost predicate Tracks(page: array<char>)
      reads this, page
    {
      TrackedBy(output, rowIndex, bytesWritten, screenX, screenY, cursorLoc, page[..])
    }

    /** The live buffer holds the row being printed. */
    ghost predicate LiveRow()
      requires Ok() && 0 <= bytesWritten <= NUM_COLS
      reads this, liveBuffer
    {
      RowOf(output, liveBuffer[..][..bytesWritten])
    }

    ghost predicate Synced(page: array<char>)
      requires Ok()
      reads this, page, liveBuffer
    {
      Tracks(page) && bytesWritten < NUM_COLS && LiveRow()
    }

    /** The live buffer holds the row printed so far, then the line being
        typed, with the cursor in or after the line. */
    ghost predicate EditOk()
      reads this
    {
      && Ok() && 0 <= bytesWritten < NUM_COLS
      && bytesWritten <= liveBufferLocation <= bytesRead <= bytesWritten + LINE_MAX
    }

    ghost function Edited(): Line
      requires EditOk()
      reads this, liveBuffer
    {
      LineIn(liveBuffer[..], bytesWritten, liveBufferLocation, bytesRead)
    }

    /** The page shows the output and the line, and this is where the cursor
        is. */
    ghost predicate DrawnAt(page: array<char>, cursor: int)
      requires EditOk()
      reads this, page, liveBuffer
    {
      LiveRow() && DrawnBy(output, bytesWritten, Edited(), rowIndex, screenX, screenY, cursor, page[..])
    }

    ghost predicate Drawn(page: array<char>)
      requires EditOk()
      reads this, page, liveBuffer
    {
      DrawnAt(page, cursorLoc)
    }

    /** A line of n characters ends above the status bar. */
    ghost predicate Fits(n: int)
      reads this
    {
      NUM_COLS * rowIndex + bytesWritten + n < CELLS
    }

    /** Where the editing position is. */
    ghost function Here(): Seat
      reads this
    {
      Seat(rowIndex, screenX, screenY, cursorLoc)
    }

    /** The line and its position are where all cells that a key touches are on
        the page, unless it goes back past the first one. */
    ghost predicate OnPage()
      reads this
    {
      Rowed(Here(), bytesRead) && OnScreen(Here())
    }

    ghost function AtDesk(): Desk
      requires EditOk() && 0 <= viewCommandRow
      reads this, liveBuffer
    {
      Desk(Here(), Edit(Edited(), viewCommandRow))
    }

    /** The command buffer holds the history. */
    ghost predicate HistoryOk()
      requires Ok()
      reads this, commandBuffer
    {
      Holds(commandBuffer[..], history) && writeCommandRow == |history| && 0 <= viewCommandRow <= MAX_COMMAND_STORE
    }

    /** No line yet. */
    ghost predicate NoLine()
      reads this
    {
      EditOk() && bytesRead == liveBufferLocation == bytesWritten
    }

    /** The state in which a read starts: no line yet, and none stored. */
    ghost predicate Fresh()
      reads this
    {
      NoLine() && bytesReadStore == 0
    }

    /** The line with these keys typed fits on the page all the way. */
    ghost predicate FitsAll(page: array<char>, keys: seq<Key>)
      requires Fresh() && 0 <= viewCommandRow
      reads this, page, liveBuffer
    {
      Drawn(page) && Fits(Longest(history, Edit(Line("", ""), viewCommandRow), keys))
    }

    // -------------------------------------------------------------- set-up

    /** A terminal before it is initialised: static storage, all zeros. */
    constructor ()
      ensures Ok() && HistoryOk() && history == [] && viewCommandRow == 0 && !strayed
      ensures fresh(Repr())
    {
      liveBuffer := new char[SCREEN_SIZE];
      liveBufferStore := new char[SCREEN_SIZE];
      commandBuffer := new char[MAX_COMMAND_STORE * CHAR_BUFFER_SIZE](_ => '\0');
      historyBuffer := new char[TEXT_ROWS, NUM_COLS];
      writeCommandRow, viewCommandRow, history, strayed := 0, 0, [], false;
      new;
      ZerosHold(commandBuffer[..]);
      hide Holds;
    }

    method ClearHistory()
      requires Ok()
      modifies historyBuffer
      ensures forall r, c :: 0 <= r < TEXT_ROWS && 0 <= c < NUM_COLS ==> historyBuffer[r, c] == '\0'
    {
      forall r, c | 0 <= r < TEXT_ROWS && 0 <= c < NUM_COLS {
        historyBuffer[r, c] := '\0';
      }
    }

    method ClearBuffers()
      requires Ok()
      modifies historyBuffer, liveBuffer, liveBufferStore
      ensures liveBufferStore[0] == '\0'
    {
      ClearHistory();
      var idx := 0;
      while idx < SCREEN_SIZE
        modifies liveBuffer, liveBufferStore
        invariant 0 <= idx <= SCREEN_SIZE && (idx > 0 ==> liveBufferStore[0] == '\0')
      {
        liveBuffer[idx] := '\0';
        liveBufferStore[idx] := '\0';
        idx := idx + 1;
      }
    }

    /** Clear the terminal and its page. */
    method TerminalInit(page: array<char>)
      requires Ok() && PageOk(page) && HistoryOk()
      modifies page, historyBuffer, liveBuffer, liveBufferStore, `bytesRead, `bytesReadStore, `bytesWritten, `liveBufferLocation,
               `rowIndex, `cursorLoc, `screenX, `screenY, `readInProgress, `output
      ensures Fresh() && Synced(page) && HistoryOk() && output == "" && InRange() && bytesWritten == 0 && Here() == Seat(0, 0, 0, 0)
      ensures !readInProgress && liveBufferStore[0] == '\0'
      ensures page[CELLS..] == old(page[CELLS..]) && forall k :: 0 <= k < CELLS ==> page[k] == ' '
    {
      hide Window, TrackedBy, Holds, RowOf;
      ClearBuffers();
      bytesRead, bytesReadStore, bytesWritten, liveBufferLocation := 0, 0, 0, 0;
      rowIndex, cursorLoc, screenX, screenY, readInProgress := 0, 0, 0, 0, false;
      output := "";
      ClearMulti(page);
      StartTracked(output, page[..]);
      assert liveBuffer[..][..0] == output;
    }

    /** The terminal and its buffers. */
    ghost function Repr(): set<object> {
      {this, liveBuffer, liveBufferStore, commandBuffer, historyBuffer}
    }

    /** After any write a read can start with everything on the page, unless the
        next row is below the window. */
    lemma ReadStartsDrawn(page: array<char>)
      requires NoLine() && Synced(page) && rowIndex < TEXT_ROWS
      ensures Drawn(page)
    {
      hide RowOf, TrackedBy, DrawnBy, LineIn;
      EmptyLine(liveBuffer[..], bytesWritten);
      StartsDrawn(output, rowIndex, bytesWritten, screenX, screenY, cursorLoc, page[..]);
    }

    /** A read after a write has the editor's effect for all keys if and only if
        it starts above the window's lower edge. */
    lemma ReadIsEditorIff(page: array<char>)
      requires Fresh() && Synced(page) && 0 <= viewCommandRow
      ensures LikeTheEditor(bytesWritten, history, AtDesk()) <==> rowIndex < TEXT_ROWS
    {
      hide RowOf, LineIn, LikeTheEditor, Render, Window, Top;
      EmptyLine(liveBuffer[..], bytesWritten);
      assert AtDesk() == Start(bytesWritten, rowIndex, viewCommandRow);
      LikeTheEditorIff(bytesWritten, rowIndex, history, viewCommandRow);
    }

    lemma ReadIsEditor(keys: seq<Key>)
      requires Fresh() && 0 <= viewCommandRow && InReach(bytesWritten, AtDesk())
      ensures Play(bytesWritten, history, AtDesk(), keys).edit == TypeAll(history, Edit(Line("", ""), viewCommandRow), keys)
    {
      hide LineIn, InReach, TypeAll, Play;
      EmptyLine(liveBuffer[..], bytesWritten);
      PlayIsType(bytesWritten, history, AtDesk(), keys);
    }

    /** After a write, or with the line drawn, a read above the window's lower
        edge is in reach. */
    lemma ReadStartsInReach(page: array<char>)
      requires NoLine() && 0 <= viewCommandRow
      ensures (Synced(page) && rowIndex < TEXT_ROWS) || Drawn(page) ==> InReach(bytesWritten, AtDesk())
    {
      hide RowOf, TrackedBy, DrawnBy, LineIn, InReach;
      EmptyLine(liveBuffer[..], bytesWritten);
      if Synced(page) && rowIndex < TEXT_ROWS {
        ReadStartsDrawn(page);
      }
      if Drawn(page) {
        DrawnInReach(output, bytesWritten, Edited(), rowIndex, screenX, screenY, cursorLoc, page[..], viewCommandRow);
      }
    }

    /** One with room for 127 characters is aligned, so that no access of it will
        leave the page or the history buffer. */
    lemma ReadStartsAligned(page: array<char>)
      requires NoLine() && 0 <= viewCommandRow && Synced(page)
      ensures NUM_COLS * rowIndex + bytesWritten + LINE_MAX < CELLS <==> Aligned(bytesWritten, AtDesk())
    {
      hide RowOf, LineIn, Render, Window, Top;
      EmptyLine(liveBuffer[..], bytesWritten);
      assert AtDesk() == Start(bytesWritten, rowIndex, viewCommandRow);
    }

    /** While the line is drawn, video cell 80 * row + i looks like cell i of the
        live buffer, and cursor and screen position name the cell the next
        character goes to. */
    lemma ScreenMirrorsLine(page: array<char>, i: nat)
      requires EditOk() && Drawn(page) && PageOk(page) && i < bytesRead
      ensures 0 <= rowIndex && NUM_COLS * rowIndex + i < CELLS
      ensures LooksLike(page[NUM_COLS * rowIndex + i], liveBuffer[i])
      ensures cursorLoc == NUM_COLS * screenY + screenX == NUM_COLS * rowIndex + liveBufferLocation
    {
      hide Render, Top;
      ghost var at, sheet := NUM_COLS * rowIndex + i, Render(output) + Edited().Text();
      assert page[..][at] == page[at];
      assert Cell(sheet, COLS * Top(output) + at) == sheet[|Render(output)| - bytesWritten + i];
      LineText(liveBuffer[..], bytesWritten, liveBufferLocation, bytesRead);
      ghost var row := liveBuffer[..][..bytesWritten];
      if i < bytesWritten {
        assert row[i] == Render(output)[|Render(output)| - bytesWritten + i];
      } else {
        assert Edited().Text()[i - bytesWritten] == liveBuffer[..][i];
      }
    }

    lemma DrawnIsClean(page: array<char>)
      requires EditOk()
      ensures Drawn(page) ==> Clean(liveBuffer[..][..bytesRead]) && rowIndex >= 0
    {
      if Drawn(page) {
        LineText(liveBuffer[..], bytesWritten, liveBufferLocation, bytesRead);
        DrawnClean(output, bytesWritten, Edited(), rowIndex, screenX, screenY, cursorLoc, page[..],
                   liveBuffer[..][..bytesWritten]);
      }
    }

    /** Any line fits that has the room for 127 characters. */
    lemma AnyLineFits(page: array<char>, keys: seq<Key>)
      requires Fresh() && Synced(page) && 0 <= viewCommandRow
      requires rowIndex < TEXT_ROWS && NUM_COLS * rowIndex + bytesWritten + LINE_MAX < CELLS
      ensures FitsAll(page, keys)
    {
      ReadStartsDrawn(page);
      LineBounded(history, Edit(Line("", ""), viewCommandRow), keys);
    }

    // -------------------------------------------------------------- cells

    method ClearMulti(page: array<char>)
      requires page.Length >= CELLS
      modifies page, `screenX, `screenY
      ensures Window(page[..], [], 0) && page[CELLS..] == old(page[CELLS..]) && forall k :: 0 <= k < CELLS ==> page[k] == ' '
      ensures screenX == screenY == 0
    {
      var i := 0;
      while i < (NUM_ROWS - STATUS_BAR_HEIGHT) * NUM_COLS
        invariant 0 <= i <= CELLS && page[CELLS..] == old(page[CELLS..]) && forall k :: 0 <= k < i ==> page[k] == ' '
      {
        page[i] := ' ';
        i := i + 1;
      }
      BlankWindow(page[..]);
      screenX, screenY := 0, 0;
    }

    method SetcMulti(x: int, y: int, c: char, page: array<char>)
      modifies page, `strayed
      ensures page[..] == Stored(old(page[..]), NUM_COLS * y + x, c)
      ensures strayed == (old(strayed) || !(0 <= NUM_COLS * y + x < page.Length))
    {
      strayed := strayed || !(0 <= NUM_COLS * y + x < page.Length);
      if 0 <= NUM_COLS * y + x < page.Length {
        page[NUM_COLS * y + x] := c;
      }
    }

    method GetcMulti(x: int, y: int, page: array<char>) returns (c: char)
      modifies `strayed
      ensures c == Fetched(page[..], NUM_COLS * y + x)
      ensures strayed == (old(strayed) || !(0 <= NUM_COLS * y + x < page.Length))
    {
      strayed := strayed || !(0 <= NUM_COLS * y + x < page.Length);
      c := if 0 <= NUM_COLS * y + x < page.Length then page[NUM_COLS * y + x] else '\0';
    }

    /** Print one character at the screen position and advance it. */
    method PutcMulti(c: char, page: array<char>)
      modifies page, `strayed, `screenX, `screenY
      ensures var newline := c == '\n' || c == '\r';
              var x := if newline then 0 else old(screenX) + 1;
              var y := if newline then old(screenY) + 1 else old(screenY);
              && screenX == CRem(x, NUM_COLS) && screenY == CRem(y + CDiv(x, NUM_COLS), TEXT_ROWS)
              && page[..] == if newline then old(page[..])
                             else Stored(old(page[..]), NUM_COLS * old(screenY) + old(screenX), c)
      ensures Here() == Puts(old(Here()), c)
      ensures strayed == (old(strayed) || (c != '\n' && c != '\r' && !(0 <= Spot(old(Here())) < page.Length)))
    {
      if c == '\n' || c == '\r' {
        screenY := screenY + 1;
        screenX := 0;
      } else {
        SetcMulti(screenX, screenY, c, page);
        screenX := screenX + 1;
      }
      screenY := CRem(screenY + CDiv(screenX, NUM_COLS), NUM_ROWS - STATUS_BAR_HEIGHT);
      screenX := CRem(screenX, NUM_COLS);
    }

    // -------------------------------------------------------------- scrolling

    /** Move the page up a row. */
    method ScrollRows(page: array<char>)
      requires page.Length == PAGE_CELLS
      modifies page
      ensures page[..] == Scrolled(old(page[..]), COLS, CELLS)
    {
      hide Slid, Written, Repeat;
      ghost var cells, last := page[..], CELLS - COLS;
      SlideStep(cells, COLS, 0);
      var idx := 0;
      while idx < NUM_COLS * (TEXT_ROWS - 1)
        invariant 0 <= idx <= last && page[..] == Slid(cells, COLS, idx)
      {
        SlideStep(cells, COLS, idx);
        page[idx] := page[idx + NUM_COLS];
        idx := idx + 1;
      }
      ghost var slid := page[..];
      WriteStep(slid, last, [], '\0');
      RepeatNone('\0');
      idx := 0;
      while idx < NUM_COLS
        invariant 0 <= idx <= NUM_COLS && page[..] == Written(slid, last, Repeat('\0', idx))
      {
        WriteStep(slid, last, Repeat('\0', idx), '\0');
        page[NUM_COLS * (TEXT_ROWS - 1) + idx] := '\0';
        idx := idx + 1;
      }
    }

    /** Scroll, and start again in the last row. */
    method TerminalScroll(page: array<char>)
      requires Ok() && PageOk(page)
      modifies page, historyBuffer, `rowIndex, `screenX, `screenY, `cursorLoc
      ensures page[..] == Scrolled(old(page[..]), COLS, CELLS)
      ensures rowIndex == old(rowIndex) - 1 && screenX == 0 && screenY == TEXT_ROWS - 1
      ensures cursorLoc == NUM_COLS * rowIndex
    {
      hide Scrolled;
      ScrollRows(page);
      forall r, c | 0 <= r < TEXT_ROWS && 0 <= c < NUM_COLS {
        historyBuffer[r, c] := page[NUM_COLS * r + c];
      }
      rowIndex := rowIndex - 1;
      screenX := 0;
      screenY := NUM_ROWS - STATUS_BAR_HEIGHT - 1;
      cursorLoc := NUM_COLS * rowIndex;
    }

    // -------------------------------------------------------------- writing

    /** The next character has a cell on the screen, and everything names it. */
    ghost predicate Ready(page: array<char>)
      reads this, page
    {
      var n := |Render(output)|;
      && 0 <= rowIndex < TEXT_ROWS && 0 <= bytesWritten < NUM_COLS
      && screenX == bytesWritten && screenY == rowIndex && cursorLoc == NUM_COLS * rowIndex + bytesWritten
      && n == COLS * (TopFor(n) + rowIndex) + bytesWritten
      && (TopFor(n) > 0 ==> rowIndex == TEXT_ROWS - 1)
      && '\r' !in output && Window(page[..], Render(output), TopFor(n))
    }

    /** Wrap a full row and scroll if the cell is below the window. */
    method MakeRoom(page: array<char>)
      requires Ok() && PageOk(page)
      requires 0 <= rowIndex <= TEXT_ROWS && 0 <= bytesWritten <= NUM_COLS && (bytesWritten > 0 ==> rowIndex < TEXT_ROWS)
      modifies page, historyBuffer, `rowIndex, `screenX, `screenY, `cursorLoc, `bytesWritten
      ensures 0 <= rowIndex < TEXT_ROWS && 0 <= bytesWritten < NUM_COLS
      ensures bytesWritten == old(bytesWritten) % NUM_COLS
      ensures Here() == MakesRoom(old(Here()), old(bytesWritten))
      ensures old(Tracks(page)) ==> Ready(page)
    {
      hide Render, Window, Scrolled, Top, TopFor;
      if bytesWritten >= NUM_COLS {
        rowIndex := rowIndex + 1;
        bytesWritten := 0;
      }
      ghost var top := Top(output);
      if rowIndex >= NUM_ROWS - STATUS_BAR_HEIGHT {
        if old(Tracks(page)) {
          WindowScrolls(page[..], Render(output), top);
        }
        top := top + 1;
        TerminalScroll(page);
      }
      if old(Tracks(page)) {
        TopForIs(|Render(output)|, top, rowIndex, bytesWritten);
      }
    }

    /** Print one character of the output. */
    method WriteParser(c: char, page: array<char>)
      requires Ok() && PageOk(page)
      requires 0 <= rowIndex <= TEXT_ROWS && 0 <= bytesWritten <= NUM_COLS && (bytesWritten > 0 ==> rowIndex < TEXT_ROWS)
      modifies page, historyBuffer, `strayed, `rowIndex, `screenX, `screenY, `cursorLoc, `bytesWritten
      ensures 0 <= rowIndex < TEXT_ROWS && 0 <= bytesWritten < NUM_COLS
      ensures bytesWritten == old(bytesWritten) % NUM_COLS
      ensures old(Tracks(page)) && c != '\r' ==>
        PrintedBy(output, c, rowIndex, bytesWritten, screenX, screenY, cursorLoc, page[..])
      ensures c == '\r' ==> screenX == 0
      ensures Here() == Puts(MakesRoom(old(Here()), old(bytesWritten)), c)
      ensures old(OnScreen(Here())) ==> OnScreen(Here()) && strayed == old(strayed)
    {
      hide Render, Window, TopFor, Top, Tracks, RestOfRow, MakesRoom, Puts, OnScreen, Spot;
      WritesOnScreen(Here(), bytesWritten, c);
      MakeRoom(page);
      historyBuffer[rowIndex, bytesWritten] := c;
      ghost var before, n := page[..], |Render(output)|;
      PutcMulti(c, page);
      if old(Tracks(page)) {
        RenderSnoc(output, c);
        if c == '\n' {
          WindowNewline(before, Render(output), TopFor(n));
        } else {
          WindowPrints(before, Render(output), TopFor(n), c, NUM_COLS * rowIndex + bytesWritten);
        }
      }
    }

    method ClearLive()
      requires Ok()
      modifies liveBuffer
      ensures forall i :: 0 <= i < CHAR_BUFFER_SIZE ==> liveBuffer[i] == '\0'
      ensures liveBuffer[CHAR_BUFFER_SIZE..] == old(liveBuffer[CHAR_BUFFER_SIZE..])
    {
      var i := 0;
      while i < CHAR_BUFFER_SIZE
        invariant 0 <= i <= CHAR_BUFFER_SIZE && forall k :: 0 <= k < i ==> liveBuffer[k] == '\0'
        invariant liveBuffer[CHAR_BUFFER_SIZE..] == old(liveBuffer[CHAR_BUFFER_SIZE..])
      {
        liveBuffer[i] := '\0';
        i := i + 1;
      }
    }

    /** Keep the character in the live buffer, which starts afresh with every
        row. */
    method KeepLive(c: char)
      requires Ok() && 0 <= bytesWritten < NUM_COLS
      modifies liveBuffer
      ensures liveBuffer[..][..bytesWritten + 1] == old(liveBuffer[..][..bytesWritten]) + [c]
    {
      if bytesWritten % NUM_COLS == 0 {
        ClearLive();
        liveBuffer[0] := c;
      } else {
        liveBuffer[bytesWritten] := c;
      }
    }

    /** Move on past a character. */
    method Advance(c: char)
      requires Ok()
      modifies liveBuffer, `rowIndex, `cursorLoc, `bytesWritten
      ensures bytesWritten == if c == '\n' then 0 else old(bytesWritten) + 1
      ensures rowIndex == if c == '\n' then old(rowIndex) + 1 else old(rowIndex)
      ensures cursorLoc == if c == '\n' then (CDiv(old(cursorLoc), NUM_COLS) + 1) * NUM_COLS else old(cursorLoc) + 1
      ensures screenX == old(screenX) && screenY == old(screenY)
      ensures c != '\n' ==> liveBuffer[..] == old(liveBuffer[..])
    {
      if c == '\n' {
        bytesWritten := 0;
        cursorLoc := (CDiv(cursorLoc, NUM_COLS) + 1) * NUM_COLS;
        rowIndex := rowIndex + 1;
        ClearLive();
      } else {
        bytesWritten := bytesWritten + 1;
        cursorLoc := cursorLoc + 1;
      }
    }

    /** One round of terminal_write's loop.  A carriage return moves the screen
        position to the start of a row, but not the column counted here. */
    method WriteOne(c: char, page: array<char>)
      requires Ok() && PageOk(page)
      requires 0 <= rowIndex <= TEXT_ROWS && 0 <= bytesWritten <= NUM_COLS && (bytesWritten > 0 ==> rowIndex < TEXT_ROWS)
      modifies page, historyBuffer, `strayed, liveBuffer, `rowIndex, `screenX, `screenY, `cursorLoc, `bytesWritten, `output
      ensures 0 <= rowIndex <= TEXT_ROWS && 0 <= bytesWritten <= NUM_COLS && (bytesWritten > 0 ==> rowIndex < TEXT_ROWS)
      ensures output == old(output) + [c]
      ensures old(Tracks(page)) && c != '\r' ==> Tracks(page)
      ensures c == '\r' ==> (screenX == bytesWritten % NUM_COLS <==> bytesWritten == NUM_COLS)
      ensures old(LiveRow()) ==> LiveRow()
      ensures Here() == Writes(old(Here()), old(bytesWritten), c)
      ensures old(OnScreen(Here())) ==> OnScreen(Here()) && strayed == old(strayed)
      ensures liveBuffer[..][..bytesWritten] == KeepChar(old(liveBuffer[..][..bytesWritten]), c)
    {
      hide TrackedBy, PrintedBy, RowOf, MakesRoom, Puts, OnScreen;
      WritesOnScreen(Here(), bytesWritten, c);
      ghost var tracks, lives := Tracks(page) && c != '\r', LiveRow();
      ghost var live, s := liveBuffer[..][..bytesWritten % NUM_COLS], output + [c];
      RowGrows(output, live, c);
      RowStarts(output);
      RowStarts(s);
      WriteParser(c, page);
      KeepLive(c);
      if tracks {
        NextTracked(output, c, rowIndex, bytesWritten, screenX, screenY, cursorLoc, page[..]);
      }
      Advance(c);
      output := s;
      if c == '\n' {
        assert |liveBuffer[..][..bytesWritten]| == 0;
      }
    }

    /** Write a buffer to the terminal.  Every access is in range.  Unless the
        buffer holds a carriage return, the page shows the whole output, and
        row, column and cursor agree with it again afterwards if and only if
        the output does not fill its last row exactly. */
    method TerminalWrite(buf: string, page: array<char>) returns (n: int)
      requires Ok() && PageOk(page) && Placed() && (buf != "" ==> InRange())
      modifies page, historyBuffer, liveBuffer, liveBufferStore, `rowIndex, `screenX, `screenY, `cursorLoc, `bytesWritten,
               `output, `bytesRead, `bytesReadStore, `liveBufferLocation, `strayed
      ensures Placed() && (buf != "" || old(InRange()) ==> InRange()) && n == |buf| && output == old(output) + buf
      ensures bytesRead == liveBufferLocation == bytesWritten && bytesReadStore == 0 && liveBufferStore[0] == '\0'
      ensures liveBuffer[..][..bytesWritten] == NextPrompt(old(liveBuffer[..][..bytesWritten]), buf)
      ensures Here() == WritesAll(old(Here()), old(liveBuffer[..][..bytesWritten]), buf)
      ensures old(OnScreen(Here())) ==> OnScreen(Here()) && strayed == old(strayed)
      ensures old(Synced(page)) && '\r' !in buf ==>
        && Shows(page[..], output)
        && (Synced(page) <==> !EndsFull(output))
    {
      hide TrackedBy, RowOf, Kept, KeepChar, Writes, WritesAll, OnScreen;
      ghost var row := liveBuffer[..][..bytesWritten];
      KeptNothing(row, buf[..0]);
      WritesNothing(Here(), row, buf[..0]);
      var idx := 0;
      while idx < |buf|
        invariant 0 <= idx <= |buf| && output == old(output) + buf[..idx]
        invariant 0 <= rowIndex && 0 <= bytesWritten <= NUM_COLS && (bytesWritten > 0 ==> rowIndex < TEXT_ROWS)
        invariant buf != "" || old(InRange()) ==> rowIndex <= TEXT_ROWS
        invariant liveBuffer[..][..bytesWritten] == Kept(row, buf[..idx])
        invariant Here() == WritesAll(old(Here()), row, buf[..idx])
        invariant old(OnScreen(Here())) ==> OnScreen(Here()) && strayed == old(strayed)
        invariant old(Synced(page)) && '\r' !in buf[..idx] ==> Tracks(page) && LiveRow()
      {
        KeptSnoc(row, buf[..idx], buf[idx]);
        WritesSnoc(old(Here()), row, buf[..idx], buf[idx]);
        WriteOne(buf[idx], page);
        assert buf[..idx + 1] == buf[..idx] + [buf[idx]];
        idx := idx + 1;
      }
      assert buf[..idx] == buf;
      if old(Synced(page)) && '\r' !in buf {
        EndOfWrite(output, rowIndex, bytesWritten, screenX, screenY, cursorLoc, page[..]);
      }
      liveBufferStore[0] := '\0';
      bytesReadStore := 0;
      bytesRead := bytesWritten % NUM_COLS;
      bytesWritten := bytesWritten % NUM_COLS;
      liveBufferLocation := bytesRead;
      n := |buf|;
    }

    // -------------------------------------------------------------- editing

    /** Copy a character of the line, in the live buffer and on the page. */
    method CopyCell(from: int, to: int, page: array<char>)
      requires Ok() && PageOk(page) && 0 <= from < SCREEN_SIZE && 0 <= to < SCREEN_SIZE
      modifies page, liveBuffer, `strayed
      ensures liveBuffer[..] == old(liveBuffer[..])[to := old(liveBuffer[..])[from]]
      ensures page[..] == Stored(old(page[..]), NUM_COLS * rowIndex + to, Fetched(old(page[..]), NUM_COLS * rowIndex + from))
      ensures 0 <= rowIndex && NUM_COLS * rowIndex + from < page.Length && NUM_COLS * rowIndex + to < page.Length ==>
        strayed == old(strayed)
    {
      liveBuffer[to] := liveBuffer[from];
      var c := GetcMulti(from, rowIndex, page);
      SetcMulti(to, rowIndex, c, page);
    }

    /** Make room for a character at the cursor, in the live buffer and on the
        page. */
    method ShiftTail(page: array<char>)
      requires EditOk() && PageOk(page)
      modifies page, liveBuffer, `strayed
      ensures liveBuffer[..] == ShiftedRight(old(liveBuffer[..]), liveBufferLocation, bytesRead)
      ensures 0 <= rowIndex && NUM_COLS * rowIndex + bytesRead < page.Length ==>
        && page[..] == ShiftedRight(old(page[..]), NUM_COLS * rowIndex + liveBufferLocation, NUM_COLS * rowIndex + bytesRead)
        && strayed == old(strayed)
    {
      hide ShiftedRight, Stored, Fetched;
      ghost var base, live, cells := NUM_COLS * rowIndex, liveBuffer[..], page[..];
      ghost var onPage := 0 <= base && base + bytesRead < page.Length;
      var idx := bytesRead - 1;
      NoShift(live, bytesRead);
      if onPage { NoShift(cells, base + bytesRead); }
      while idx >= liveBufferLocation
        modifies page, liveBuffer, `strayed
        invariant liveBufferLocation - 1 <= idx < bytesRead
        invariant liveBuffer[..] == ShiftedRight(live, idx + 1, bytesRead)
        invariant onPage ==> page[..] == ShiftedRight(cells, base + idx + 1, base + bytesRead) && strayed == old(strayed)
      {
        GapStep(live, idx + 1, bytesRead);
        if onPage { StoredGapStep(cells, base + idx + 1, base + bytesRead); }
        CopyCell(idx, idx + 1, page);
        idx := idx - 1;
      }
    }

    /** Put a character at the cursor and print it at the screen position. */
    method PlaceChar(c: char, page: array<char>)
      requires EditOk() && PageOk(page)
      modifies page, liveBuffer, `strayed, `screenX, `screenY
      ensures liveBuffer[..] == ShiftedRight(old(liveBuffer[..]), liveBufferLocation, bytesRead)[liveBufferLocation := c]
      ensures Here() == Puts(old(Here()), c)
      ensures Clean([c]) && 0 <= rowIndex && NUM_COLS * rowIndex + bytesRead < page.Length ==>
        page[..] == Stored(ShiftedRight(old(page[..]), NUM_COLS * rowIndex + liveBufferLocation, NUM_COLS * rowIndex + bytesRead),
                           NUM_COLS * old(screenY) + old(screenX), c)
      ensures 0 <= rowIndex && NUM_COLS * rowIndex + bytesRead < page.Length && 0 <= Spot(old(Here())) < page.Length ==>
        strayed == old(strayed)
    {
      hide ShiftedRight, Stored;
      ShiftTail(page);
      liveBuffer[liveBufferLocation] := c;
      PutcMulti(c, page);
    }

    /** Type a character at the cursor and print it there. */
    method InsertChar(c: char, page: array<char>, ghost cursor: int)
      requires EditOk() && PageOk(page) && bytesRead < bytesWritten + LINE_MAX
      modifies page, liveBuffer, `strayed, `screenX, `screenY, `bytesRead, `liveBufferLocation
      ensures EditOk() && bytesRead == old(bytesRead) + 1 && liveBufferLocation == old(liveBufferLocation) + 1
      ensures liveBuffer[..][..bytesWritten] == old(liveBuffer[..][..bytesWritten])
      ensures Edited() == Line(old(Edited()).left + [c], old(Edited()).right) && Here() == Puts(old(Here()), c)
      ensures old(DrawnAt(page, cursor)) && Clean([c]) && old(Fits(|Edited().Text()| + 1)) ==> DrawnAt(page, cursor + 1)
      ensures old(0 <= rowIndex && NUM_COLS * rowIndex + bytesRead < page.Length && 0 <= Spot(Here()) < page.Length) ==>
        strayed == old(strayed)
    {
      hide RowOf, DrawnBy, ShiftedRight, Stored, LineIn;
      ghost var fits := DrawnAt(page, cursor) && Clean([c]) && Fits(|Edited().Text()| + 1);
      ghost var l, n, e, x, y := liveBufferLocation, bytesRead, Edited(), screenX, screenY;
      ghost var live, cells := liveBuffer[..], page[..];
      if fits {
        InsertDrawn(output, bytesWritten, e, rowIndex, x, y, cursor, cells, c);
        StoredAt(ShiftedRight(cells, cursor, NUM_COLS * rowIndex + n), cursor, c);
      }
      LineInserts(live, bytesWritten, l, n, c);
      PlaceChar(c, page);
      bytesRead := bytesRead + 1;
      liveBufferLocation := liveBufferLocation + 1;
    }

    method MoveCursor()
      modifies `cursorLoc
      ensures cursorLoc == Clamp(old(cursorLoc))
    {
      if cursorLoc <= 0 {
        cursorLoc := 0;
      }
    }

    /** Scroll if the line is about to run below the window.  A line that is
        drawn on the page never does. */
    method ScrollForLine(page: array<char>, ghost cursor: int)
      requires EditOk() && PageOk(page)
      modifies page, historyBuffer, `rowIndex, `screenX, `screenY, `cursorLoc
      ensures Here() == Scrolls(old(Here()), bytesRead)
      ensures page[..] == if (if bytesRead >= NUM_COLS then 1 else 0) + old(rowIndex) >= TEXT_ROWS
                          then Scrolled(old(page[..]), COLS, CELLS) else old(page[..])
      ensures old(DrawnAt(page, cursor)) ==>
        DrawnAt(page, cursor) && rowIndex == old(rowIndex) && cursorLoc == old(cursorLoc) && cursor >= 0
    {
      var lineEstimate := if bytesRead >= NUM_COLS then 1 else 0;
      if lineEstimate + rowIndex >= NUM_ROWS - STATUS_BAR_HEIGHT {
        TerminalScroll(page);
        cursorLoc := cursorLoc + NUM_COLS;
      }
    }

    /** Scroll if need be, and type a character. */
    method PrintTyped(c: char, page: array<char>, ghost cursor: int)
      requires EditOk() && PageOk(page) && bytesRead < bytesWritten + LINE_MAX
      modifies page, historyBuffer, liveBuffer, `strayed, `rowIndex, `screenX, `screenY, `cursorLoc, `bytesRead, `liveBufferLocation
      ensures EditOk() && bytesRead == old(bytesRead) + 1 && liveBuffer[..][..bytesWritten] == old(liveBuffer[..][..bytesWritten])
      ensures Edited() == Line(old(Edited()).left + [c], old(Edited()).right)
      ensures Here() == Prints(old(Here()), old(bytesRead), c)
      ensures old(DrawnAt(page, cursor)) && Clean([c]) && old(Fits(|Edited().Text()| + 1)) ==>
        DrawnAt(page, cursor + 1) && rowIndex == old(rowIndex) && cursorLoc == old(cursorLoc) && cursor >= 0
      ensures old(OnPage()) ==> OnPage() && strayed == old(strayed)
    {
      hide RowOf, DrawnBy, LineIn, Scrolled, Scrolls, Puts, Rowed, OnScreen, Spot;
      if OnPage() { PrintsOnPage(Here(), bytesRead, c); }
      ScrollForLine(page, cursor);
      InsertChar(c, page, cursor);
    }

    method OutputChar(c: char, page: array<char>)
      requires EditOk() && PageOk(page)
      modifies page, historyBuffer, liveBuffer, `strayed, `rowIndex, `screenX, `screenY, `cursorLoc, `bytesRead, `liveBufferLocation
      ensures EditOk() && liveBuffer[..][..bytesWritten] == old(liveBuffer[..][..bytesWritten])
      ensures Edited() == Press(old(Edited()), Char(c))
      ensures Here() == if |old(Edited()).Text()| < LINE_MAX then Advances(Prints(old(Here()), old(bytesRead), c), 1) else old(Here())
      ensures old(Drawn(page)) && Clean([c]) && old(Fits(|Press(Edited(), Char(c)).Text()|)) ==>
        Drawn(page) && rowIndex == old(rowIndex)
      ensures old(OnPage()) ==> OnPage() && strayed == old(strayed)
    {
      hide RowOf, DrawnBy, LineIn, Prints;
      if bytesRead < CHAR_BUFFER_SIZE - 1 + bytesWritten {
        PrintTyped(c, page, cursorLoc);
        cursorLoc := cursorLoc + 1;
        MoveCursor();
      }
    }

    method Tab(page: array<char>)
      requires EditOk() && PageOk(page)
      modifies page, historyBuffer, liveBuffer, `strayed, `rowIndex, `screenX, `screenY, `cursorLoc, `bytesRead, `liveBufferLocation
      ensures EditOk() && liveBuffer[..][..bytesWritten] == old(liveBuffer[..][..bytesWritten])
      ensures Edited() == Press(old(Edited()), Key.Tab)
      ensures Here() == if |old(Edited()).Text()| + 3 < LINE_MAX then Advances(Tabs(old(Here()), old(bytesRead), 4), 4) else old(Here())
      ensures old(Drawn(page)) && old(Fits(|Press(Edited(), Key.Tab).Text()|)) ==> Drawn(page) && rowIndex == old(rowIndex)
      ensures old(OnPage()) ==> strayed == old(strayed)
    {
      hide RowOf, DrawnBy, LineIn, Prints, Tabs, Rowed, OnScreen;
      ghost var e, n := Edited(), bytesRead;
      if bytesRead + 3 < CHAR_BUFFER_SIZE - 1 + bytesWritten {
        var tabCounter := 0;
        TabsStep(old(Here()), n, 0);
        while tabCounter < 4
          invariant 0 <= tabCounter <= 4 && EditOk() && bytesRead == n + tabCounter
          invariant liveBuffer[..][..bytesWritten] == old(liveBuffer[..][..bytesWritten])
          invariant Edited() == Line(e.left + "    "[..tabCounter], e.right)
          invariant Here() == Tabs(old(Here()), n, tabCounter)
          invariant old(OnPage()) ==> OnPage() && strayed == old(strayed)
          invariant old(Drawn(page)) && old(Fits(|Edited().Text()| + 4)) ==>
            DrawnAt(page, cursorLoc + tabCounter) && rowIndex == old(rowIndex) && (tabCounter > 0 ==> cursorLoc >= 0)
        {
          TabsStep(old(Here()), n, tabCounter);
          PrintTyped(' ', page, cursorLoc + tabCounter);
          assert "    "[..tabCounter] + " " == "    "[..tabCounter + 1];
          tabCounter := tabCounter + 1;
        }
        cursorLoc := cursorLoc + 4;
        MoveCursor();
      }
    }

    /** Move everything after the cursor one to the left. */
    method PullTail(page: array<char>)
      requires EditOk() && PageOk(page)
      modifies page, liveBuffer, `strayed
      ensures liveBuffer[..] == ShiftedLeft(old(liveBuffer[..]), liveBufferLocation, bytesRead + 1)
      ensures 0 <= rowIndex && NUM_COLS * rowIndex + bytesRead + 1 < page.Length ==>
        && page[..] == ShiftedLeft(old(page[..]), NUM_COLS * rowIndex + liveBufferLocation, NUM_COLS * rowIndex + bytesRead + 1)
        && strayed == old(strayed)
    {
      hide ShiftedLeft, Stored, Fetched;
      ghost var base, live, cells := NUM_COLS * rowIndex, liveBuffer[..], page[..];
      ghost var onPage := 0 <= base && base + bytesRead + 1 < page.Length;
      var idx := liveBufferLocation;
      NoShift(live, idx);
      if onPage { NoShift(cells, base + idx); }
      while idx < bytesRead + 1
        modifies page, liveBuffer, `strayed
        invariant liveBufferLocation <= idx <= bytesRead + 1
        invariant liveBuffer[..] == ShiftedLeft(live, liveBufferLocation, idx)
        invariant onPage ==> page[..] == ShiftedLeft(cells, base + liveBufferLocation, base + idx) && strayed == old(strayed)
      {
        CloseStep(live, liveBufferLocation, idx);
        if onPage { StoredCloseStep(cells, base + liveBufferLocation, base + idx); }
        CopyCell(idx + 1, idx, page);
        idx := idx + 1;
      }
    }

    /** Close the gap at the cursor and clear the cell the line ended in. */
    method CloseGap(page: array<char>)
      requires EditOk() && PageOk(page)
      modifies page, liveBuffer, `strayed
      ensures liveBuffer[..] == ShiftedLeft(old(liveBuffer[..]), liveBufferLocation, bytesRead + 1)[bytesRead + 1 := '\0']
      ensures 0 <= rowIndex && NUM_COLS * rowIndex + bytesRead + 1 < page.Length ==>
        && page[..] == Stored(ShiftedLeft(old(page[..]), NUM_COLS * rowIndex + liveBufferLocation,
                                          NUM_COLS * rowIndex + bytesRead + 1),
                              NUM_COLS * rowIndex + bytesRead + 1, '\0')
        && strayed == old(strayed)
    {
      hide ShiftedLeft, Stored;
      PullTail(page);
      liveBuffer[bytesRead + 1] := '\0';
      SetcMulti(bytesRead + 1, rowIndex, '\0', page);
    }

    method StepBack()
      modifies `screenX, `screenY
      ensures Here() == Steps(old(Here()))
    {
      if screenX == 0 {
        screenX := NUM_COLS - 1;
        screenY := screenY - 1;
      } else {
        screenX := screenX - 1;
      }
    }

    /** Take the character at the cursor out of the live buffer and off the
        page, after the counters have been taken back. */
    method RemoveCell(page: array<char>)
      requires EditOk() && PageOk(page)
      modifies page, liveBuffer, `strayed, `screenX, `screenY
      ensures Here() == Steps(old(Here()))
      ensures liveBuffer[..] ==
        if liveBufferLocation < bytesRead
        then ShiftedLeft(old(liveBuffer[..]), liveBufferLocation, bytesRead + 1)[bytesRead + 1 := '\0']
        else old(liveBuffer[..])[liveBufferLocation := '\0']
      ensures var base := NUM_COLS * rowIndex;
        0 <= base && base + bytesRead + 1 < page.Length ==>
        page[..] == (if liveBufferLocation < bytesRead
          then Stored(ShiftedLeft(old(page[..]), base + liveBufferLocation, base + bytesRead + 1), base + bytesRead + 1, '\0')
          else Stored(old(page[..]), NUM_COLS * screenY + screenX, '\0'))
      ensures 0 <= rowIndex && NUM_COLS * rowIndex + bytesRead + 1 < page.Length && 0 <= Spot(Here()) < page.Length ==>
        strayed == old(strayed)
      ensures liveBufferLocation == bytesRead && Spot(Here()) < 0 ==> strayed
    {
      hide ShiftedLeft, Stored;
      ghost var live := liveBuffer[..];
      liveBuffer[liveBufferLocation] := '\0';
      StepBack();
      if liveBufferLocation < bytesRead {
        ClosedAnyway(live, liveBufferLocation, bytesRead + 1);
        CloseGap(page);
      } else {
        SetcMulti(screenX, screenY, '\0', page);
      }
    }

    /** Delete the character before the cursor. */
    method EraseChar(page: array<char>)
      requires EditOk() && PageOk(page) && liveBufferLocation > bytesWritten
      modifies page, liveBuffer, `strayed, `screenX, `screenY, `bytesRead, `liveBufferLocation
      ensures EditOk() && bytesRead == old(bytesRead) - 1 && liveBufferLocation == old(liveBufferLocation) - 1
      ensures liveBuffer[..][..bytesWritten] == old(liveBuffer[..][..bytesWritten])
      ensures Edited() == Press(old(Edited()), Key.Backspace) && Here() == Steps(old(Here()))
      ensures old(Drawn(page)) ==> DrawnAt(page, cursorLoc - 1) && cursorLoc > 0
      ensures old(OnPage()) && Spot(old(Here())) > 0 ==> strayed == old(strayed)
      ensures old(OnPage()) && Spot(old(Here())) == 0 && old(liveBufferLocation == bytesRead) ==> strayed
    {
      hide RowOf, DrawnBy, ShiftedLeft, Stored, LineIn, Press, Rowed, OnScreen, Spot;
      if OnPage() && Spot(Here()) > 0 { DeletesOnPage(Here(), bytesRead); }
      StepsOff(Here());
      ghost var l, n, cells := liveBufferLocation, bytesRead, page[..];
      if l < n {
        LineDeletes(liveBuffer[..], bytesWritten, l, n);
      } else {
        LineDeletesLast(liveBuffer[..], bytesWritten, n);
      }
      if Drawn(page) {
        DeleteDrawn(output, bytesWritten, Edited(), rowIndex, screenX, screenY, cursorLoc, cells);
        StoredAt(ShiftedLeft(cells, cursorLoc - 1, NUM_COLS * rowIndex + n), NUM_COLS * rowIndex + n, '\0');
        StoredAt(cells, cursorLoc - 1, '\0');
      }
      bytesRead := bytesRead - 1;
      liveBufferLocation := liveBufferLocation - 1;
      RemoveCell(page);
    }

    method Backspace(page: array<char>)
      requires EditOk() && PageOk(page)
      modifies page, liveBuffer, `strayed, `screenX, `screenY, `cursorLoc, `bytesRead, `liveBufferLocation
      ensures EditOk() && liveBuffer[..][..bytesWritten] == old(liveBuffer[..][..bytesWritten])
      ensures Edited() == Press(old(Edited()), Key.Backspace)
      ensures Here() == if old(Edited()).left != "" then Deletes(old(Here())) else old(Here())
      ensures old(Drawn(page)) ==> Drawn(page)
      ensures old(liveBufferLocation) == bytesWritten ==> unchanged(this, page, liveBuffer)
      ensures old(OnPage()) && (Spot(old(Here())) > 0 || old(liveBufferLocation) == bytesWritten) ==>
        OnPage() && strayed == old(strayed)
      ensures old(OnPage()) && Spot(old(Here())) == 0 && old(bytesWritten < liveBufferLocation == bytesRead) ==> strayed
    {
      hide RowOf, DrawnBy, LineIn, Rowed, OnScreen, Spot;
      if OnPage() && Spot(Here()) > 0 && liveBufferLocation > bytesWritten { DeletesOnPage(Here(), bytesRead); }
      if liveBufferLocation > bytesWritten {
        EraseChar(page);
        if cursorLoc > 0 {
          cursorLoc := cursorLoc - 1;
          MoveCursor();
        }
      }
    }

    method CursorLeft(ghost page: array<char>)
      requires EditOk() && PageOk(page)
      modifies `screenX, `screenY, `cursorLoc, `liveBufferLocation
      ensures EditOk() && Edited() == Press(old(Edited()), Left)
      ensures Here() == if old(Edited()).left != "" then Moves(old(Here()), -1) else old(Here())
      ensures old(Drawn(page)) ==> Drawn(page)
      ensures old(liveBufferLocation) == bytesWritten ==> unchanged(this)
    {
      hide RowOf, DrawnBy, LineIn;
      if liveBufferLocation > bytesWritten {
        LineMovesLeft(liveBuffer[..], bytesWritten, liveBufferLocation, bytesRead);
        if Drawn(page) {
          MoveDrawn(output, bytesWritten, Edited(), rowIndex, screenX, screenY, cursorLoc, page[..], Left);
        }
        cursorLoc := cursorLoc - 1;
        screenX := CRem(cursorLoc, NUM_COLS);
        screenY := CDiv(cursorLoc, NUM_COLS);
        MoveCursor();
        liveBufferLocation := liveBufferLocation - 1;
      }
    }

    /** Right is refused in the screen's last corner, where the cursor of a line
        drawn on the page never is. */
    method CursorRight(ghost page: array<char>)
      requires EditOk() && PageOk(page)
      modifies `screenX, `screenY, `cursorLoc, `liveBufferLocation
      ensures EditOk() && Edited() == if Corner(old(Here())) then old(Edited()) else Press(old(Edited()), Right)
      ensures Here() == if !Corner(old(Here())) && old(Edited()).right != "" then Moves(old(Here()), 1) else old(Here())
      ensures old(Drawn(page)) ==> Drawn(page) && !Corner(old(Here()))
      ensures old(liveBufferLocation) == bytesRead ==> unchanged(this)
    {
      hide RowOf, DrawnBy, LineIn;
      if Drawn(page) {
        DrawnAbove(output, bytesWritten, Edited(), rowIndex, screenX, screenY, cursorLoc, page[..]);
      }
      if !(screenY == NUM_ROWS - 1 && screenX == NUM_COLS - 1) && liveBufferLocation < bytesRead {
        LineMovesRight(liveBuffer[..], bytesWritten, liveBufferLocation, bytesRead);
        if Drawn(page) {
          MoveDrawn(output, bytesWritten, Edited(), rowIndex, screenX, screenY, cursorLoc, page[..], Right);
        }
        cursorLoc := cursorLoc + 1;
        screenX := CRem(cursorLoc, NUM_COLS);
        screenY := CDiv(cursorLoc, NUM_COLS);
        MoveCursor();
        liveBufferLocation := liveBufferLocation + 1;
      }
    }

    /** Print the live buffer from the top of a cleared page. */
    method PrintLive(page: array<char>)
      requires EditOk() && PageOk(page) && cursorLoc == screenX == screenY == 0 && Window(page[..], [], 0)
      modifies page, historyBuffer, `strayed, `screenX, `screenY, `cursorLoc
      ensures cursorLoc == bytesRead && screenX == bytesRead % NUM_COLS && screenY == bytesRead / NUM_COLS
      ensures Clean(liveBuffer[..][..bytesRead]) ==> Window(page[..], liveBuffer[..][..bytesRead], 0)
      ensures rowIndex == 0 ==> strayed == old(strayed)
    {
      hide Window;
      ghost var live := liveBuffer[..];
      var idx := 0;
      while idx < bytesRead
        modifies page, historyBuffer, `strayed, `screenX, `screenY, `cursorLoc
        invariant 0 <= idx <= bytesRead
        invariant cursorLoc == idx && screenX == idx % NUM_COLS && screenY == idx / NUM_COLS
        invariant rowIndex == 0 ==> strayed == old(strayed)
        invariant Clean(live[..bytesRead]) ==> Window(page[..], live[..idx], 0)
      {
        if Clean(live[..bytesRead]) {
          assert live[..bytesRead][idx] == live[idx];
          WindowPrints(page[..], live[..idx], 0, live[idx], idx);
          assert live[..idx] + [live[idx]] == live[..idx + 1];
        }
        StoreHistory(rowIndex, idx, liveBuffer[idx]);
        PutcMulti(liveBuffer[idx], page);
        cursorLoc := cursorLoc + 1;
        screenX := CRem(cursorLoc, NUM_COLS);
        screenY := CDiv(cursorLoc, NUM_COLS);
        MoveCursor();
        idx := idx + 1;
      }
    }

    /** Ctrl-L: clear the page and print the row and the line again at its top.
        This puts the screen in order whatever state it was in. */
    method BufferClear(page: array<char>)
      requires EditOk() && PageOk(page)
      modifies page, historyBuffer, `strayed, `rowIndex, `screenX, `screenY, `cursorLoc, `liveBufferLocation, `output
      ensures EditOk() && Edited() == Press(old(Edited()), Clear)
      ensures Here() == Cleared(bytesRead) && output == liveBuffer[..][..bytesWritten]
      ensures OnPage() && strayed == old(strayed)
      ensures Clean(liveBuffer[..][..bytesRead]) ==> Drawn(page)
    {
      hide RowOf, DrawnBy, LineIn, Window, Clean;
      cursorLoc := 0;
      MoveCursor();
      ClearHistory();
      ClearMulti(page);
      rowIndex := 0;
      PrintLive(page);
      ghost var row, t := liveBuffer[..][..bytesWritten], Edited().Text();
      LineText(liveBuffer[..], bytesWritten, liveBufferLocation, bytesRead);
      liveBufferLocation := bytesRead;
      output := row;
      if Clean(liveBuffer[..][..bytesRead]) {
        CleanParts(row, t);
        ClearedDrawn(row, t, page[..]);
      }
    }

    // -------------------------------------------------------------- history

    /** Delete everything left of the cursor. */
    method EraseLine(page: array<char>)
      requires EditOk() && PageOk(page)
      modifies page, liveBuffer, `strayed, `screenX, `screenY, `cursorLoc, `bytesRead, `liveBufferLocation
      ensures EditOk() && liveBuffer[..][..bytesWritten] == old(liveBuffer[..][..bytesWritten])
      ensures Edited() == Line("", old(Edited()).right) && Here() == DeletesAll(old(Here()), |old(Edited()).left|)
      ensures old(Drawn(page)) ==> Drawn(page)
      ensures old(OnPage() && Spot(Here()) >= liveBufferLocation - bytesWritten) ==> OnPage() && strayed == old(strayed)
    {
      hide RowOf, DrawnBy, LineIn, Rowed, OnScreen, Spot;
      ghost var stays := OnPage() && Spot(Here()) >= liveBufferLocation - bytesWritten;
      ghost var e := Edited();
      var idx := 0;
      while idx < CHAR_BUFFER_SIZE
        modifies page, liveBuffer, `strayed, `screenX, `screenY, `cursorLoc, `bytesRead, `liveBufferLocation
        invariant 0 <= idx <= CHAR_BUFFER_SIZE && EditOk()
        invariant liveBuffer[..][..bytesWritten] == old(liveBuffer[..][..bytesWritten])
        invariant Edited().right == e.right && Edited().left <= e.left
        invariant Here() == DeletesAll(old(Here()), |e.left| - |Edited().left|)
        invariant |Edited().left| <= CHAR_BUFFER_SIZE - 1 - idx || Edited().left == ""
        invariant old(Drawn(page)) ==> Drawn(page)
        invariant stays ==> OnPage() && Spot(Here()) >= liveBufferLocation - bytesWritten && strayed == old(strayed)
      {
        if stays && liveBufferLocation > bytesWritten { DeletesOnPage(Here(), bytesRead); }
        Backspace(page);
        idx := idx + 1;
      }
    }

    /** Type a row of the command buffer. */
    method TypeRow(row: int, page: array<char>)
      requires EditOk() && PageOk(page) && HistoryOk() && 0 <= row < MAX_COMMAND_STORE
      requires Edited().left == ""
      modifies page, historyBuffer, liveBuffer, `strayed, `rowIndex, `screenX, `screenY, `cursorLoc, `bytesRead, `liveBufferLocation
      ensures EditOk() && liveBuffer[..][..bytesWritten] == old(liveBuffer[..][..bytesWritten])
      ensures Edited() == Recalled(old(Edited()), Row(history, row))
      ensures Here() == Types(old(Here()), old(bytesRead), Edited().left)
      ensures old(Drawn(page)) && old(Fits(|Recalled(Edited(), Row(history, row)).Text()|)) ==>
        Drawn(page) && rowIndex == old(rowIndex)
      ensures old(OnPage()) ==> OnPage() && strayed == old(strayed)
    {
      hide RowOf, DrawnBy, LineIn, Holds, Press, Recalled, Types, Prints, Advances, Rowed, OnScreen;
      ghost var e, command := Edited(), Row(history, row);
      ghost var fits := Drawn(page) && Fits(|Recalled(e, command).Text()|);
      var idx := 0;
      HeldCell(commandBuffer[..], history, row, 0);
      RecallNothing(e, command);
      TypesNothing(Here(), bytesRead, e.left);
      while idx < CHAR_BUFFER_SIZE && commandBuffer[CHAR_BUFFER_SIZE * row + idx] != '\0'
        modifies page, historyBuffer, liveBuffer, `strayed, `rowIndex, `screenX, `screenY, `cursorLoc, `bytesRead, `liveBufferLocation
        invariant 0 <= idx <= |command| <= LINE_MAX && EditOk()
        invariant liveBuffer[..][..bytesWritten] == old(liveBuffer[..][..bytesWritten])
        invariant Edited() == Recalled(e, command[..idx]) && Here() == Types(old(Here()), old(bytesRead), Edited().left)
        invariant old(OnPage()) ==> OnPage() && strayed == old(strayed)
        invariant fits ==> Drawn(page) && rowIndex == old(rowIndex)
      {
        HeldCell(commandBuffer[..], history, row, idx);
        RecallSnoc(e, command, idx);
        RecallStep(e, command, idx);
        TypesSnoc(old(Here()), old(bytesRead), Edited().left, command[idx]);
        OutputChar(commandBuffer[CHAR_BUFFER_SIZE * row + idx], page);
        idx := idx + 1;
      }
      HeldCell(commandBuffer[..], history, row, idx);
      assert command[..idx] == command;
    }

    /** Up: the previous command takes the place of the text left of the
        cursor. */
    method PrevCommand(page: array<char>)
      requires EditOk() && PageOk(page) && HistoryOk()
      modifies page, historyBuffer, liveBuffer, `strayed, `rowIndex, `screenX, `screenY, `cursorLoc, `bytesRead, `liveBufferLocation,
               `viewCommandRow
      ensures EditOk() && HistoryOk() && liveBuffer[..][..bytesWritten] == old(liveBuffer[..][..bytesWritten])
      ensures AtDesk() == Pressed(bytesWritten, history, old(AtDesk()), Up)
      ensures old(Drawn(page)) && old(Fits(|Type(history, Edit(Edited(), viewCommandRow), Up).line.Text()|)) ==>
        Drawn(page) && rowIndex == old(rowIndex)
      ensures old(OnPage() && (viewCommandRow > 0 ==> Spot(Here()) >= liveBufferLocation - bytesWritten)) ==>
        OnPage() && strayed == old(strayed)
      ensures old(viewCommandRow) == 0 ==> unchanged(this, page, liveBuffer)
    {
      hide RowOf, DrawnBy, LineIn, Holds, Types, DeletesAll, Recalled, Row, Pressed, Rowed, OnScreen, Spot;
      PressedUp(bytesWritten, history, AtDesk());
      if viewCommandRow > 0 {
        RecallNothing(Edited(), Row(history, viewCommandRow - 1));
        viewCommandRow := viewCommandRow - 1;
        EraseLine(page);
        TypeRow(viewCommandRow, page);
      }
    }

    // -------------------------------------------------------------- enter

    /** A store into the history buffer, whose rows lie behind each other; memory
        behind the last one is not modelled. */
    method StoreHistory(row: int, col: int, c: char)
      requires Ok()
      modifies historyBuffer, `strayed
      ensures forall r, k :: 0 <= r < TEXT_ROWS && 0 <= k < NUM_COLS ==>
        historyBuffer[r, k] == if NUM_COLS * r + k == NUM_COLS * row + col then c else old(historyBuffer[r, k])
      ensures strayed == (old(strayed) || !(0 <= NUM_COLS * row + col < CELLS))
    {
      var at := NUM_COLS * row + col;
      strayed := strayed || !(0 <= at < CELLS);
      if 0 <= at < TEXT_ROWS * NUM_COLS {
        historyBuffer[at / NUM_COLS, at % NUM_COLS] := c;
      }
    }

    /** Keep the live buffer in the history buffer, from row_index on. */
    method KeepHistory()
      requires EditOk()
      modifies historyBuffer, `strayed
      ensures forall r, k :: 0 <= r < TEXT_ROWS && 0 <= k < NUM_COLS ==>
        var idx := NUM_COLS * r + k - NUM_COLS * rowIndex;
        historyBuffer[r, k] == if 0 <= idx < bytesRead then liveBuffer[idx] else old(historyBuffer[r, k])
      ensures strayed == (old(strayed) || !StoresInRange(rowIndex, bytesRead))
    {
      var i := 0;
      while i < bytesRead
        modifies historyBuffer, `strayed
        invariant 0 <= i <= bytesRead
        invariant strayed == (old(strayed) || !StoresInRange(rowIndex, i))
        invariant forall r, k :: 0 <= r < TEXT_ROWS && 0 <= k < NUM_COLS ==>
          var idx := NUM_COLS * r + k - NUM_COLS * rowIndex;
          historyBuffer[r, k] == if 0 <= idx < i then liveBuffer[idx] else old(historyBuffer[r, k])
      {
        StoresNext(rowIndex, i);
        if i >= NUM_COLS && rowIndex + 1 < NUM_ROWS - STATUS_BAR_HEIGHT {
          StoreHistory(rowIndex + 1, i - NUM_COLS, liveBuffer[i]);
        } else {
          StoreHistory(rowIndex, i, liveBuffer[i]);
        }
        i := i + 1;
      }
    }

    /** Hand the live buffer over to terminal_read and clear it. */
    method StoreLine()
      requires EditOk()
      modifies liveBuffer, liveBufferStore, `bytesReadStore, `bytesRead, `liveBufferLocation
      ensures bytesReadStore == old(bytesRead) && bytesRead == liveBufferLocation == 0
      ensures liveBufferStore[..bytesReadStore] == old(liveBuffer[..][..bytesRead])
      ensures liveBufferStore[bytesReadStore] == '\n'
      ensures forall i :: 0 <= i < bytesReadStore ==> liveBuffer[i] == '\0'
    {
      var idx := 0;
      while idx < bytesRead
        modifies liveBufferStore
        invariant 0 <= idx <= bytesRead && liveBufferStore[..idx] == liveBuffer[..][..idx]
      {
        liveBufferStore[idx] := liveBuffer[idx];
        idx := idx + 1;
      }
      liveBufferStore[bytesRead] := '\n';
      idx := 0;
      while idx < bytesRead
        modifies liveBuffer
        invariant 0 <= idx <= bytesRead && forall i :: 0 <= i < idx ==> liveBuffer[i] == '\0'
      {
        liveBuffer[idx] := '\0';
        idx := idx + 1;
      }
      bytesReadStore := bytesRead;
      bytesRead := 0;
      liveBufferLocation := bytesRead;
    }

    method StartRow(page: array<char>)
      modifies page, `strayed, `screenX, `screenY, `cursorLoc, `bytesWritten
      ensures page[..] == old(page[..]) && screenX == 0 && screenY == CRem(old(screenY) + 1, TEXT_ROWS)
      ensures bytesWritten == if old(bytesWritten) > 0 then 0 else old(bytesWritten)
      ensures cursorLoc == Clamp(NextRow(old(cursorLoc))) && strayed == old(strayed)
    {
      PutcMulti('\n', page);
      if bytesWritten > 0 {
        bytesWritten := 0;
      }
      cursorLoc := (CDiv(cursorLoc, NUM_COLS) + 1) * NUM_COLS;
      MoveCursor();
    }

    /** Enter.  If the page shows the line, it still does, as output, and the
        fields agree with it again if and only if the line with its prompt is
        shorter than a row, or a second row has begun, is not full, and holds
        the cursor. */
    method NewLine(page: array<char>)
      requires EditOk() && PageOk(page)
      modifies page, historyBuffer, `strayed, liveBuffer, liveBufferStore, `bytesReadStore, `bytesRead, `liveBufferLocation,
               `bytesWritten, `rowIndex, `screenX, `screenY, `cursorLoc, `output
      ensures bytesReadStore == old(bytesRead) && bytesRead == liveBufferLocation == bytesWritten == 0
      ensures liveBufferStore[..bytesReadStore] == old(liveBuffer[..][..bytesRead])
      ensures liveBufferStore[bytesReadStore] == '\n'
      ensures strayed == (old(strayed) || !old(StoresInRange(rowIndex, bytesRead)))
      ensures old(StoresInRange(rowIndex, bytesRead)) ==> Here() == Enters(old(Here()), old(bytesRead))
      ensures page[..] == old(page[..]) && output == old(output) + old(Edited()).Text() + "\n"
      ensures old(Drawn(page)) ==>
        && StoresInRange(old(rowIndex), old(bytesRead)) && InRange() && Shows(page[..], output)
        && (Synced(page) <==> Steady(old(bytesWritten), old(Edited())))
    {
      hide RowOf, DrawnBy, TrackedBy, LineIn, StoresInRange, Seated;
      ghost var e, drawn := Edited(), Drawn(page);
      if drawn {
        EnterTracked(output, bytesWritten, e, rowIndex, screenX, screenY, cursorLoc, page[..]);
        HistoryStoresIff(rowIndex, bytesRead);
      }
      RowStarts(output + e.Text() + "\n");
      KeepHistory();
      rowIndex := if bytesRead > NUM_COLS then rowIndex + 2 else rowIndex + 1;
      StoreLine();
      StartRow(page);
      output := output + e.Text() + "\n";
    }

    // -------------------------------------------------------------- reading

    /** Keys with nothing to do. */
    ghost predicate Idles(k: Key)
      reads this
    {
      || ((k.Left? || k.Backspace?) && liveBufferLocation == bytesWritten)
      || (k.Right? && liveBufferLocation == bytesRead)
      || (k.Up? && viewCommandRow == 0)
    }

    /** Every key refines its effect on the line and on the position fields, in
        whatever state the terminal is. */
    method PressKey(k: Key, page: array<char>)
      requires EditOk() && PageOk(page) && HistoryOk() && Typable(k)
      modifies page, historyBuffer, `strayed, liveBuffer, `rowIndex, `screenX, `screenY, `cursorLoc, `bytesRead, `liveBufferLocation,
               `viewCommandRow, `output
      ensures EditOk() && HistoryOk() && liveBuffer[..][..bytesWritten] == old(liveBuffer[..][..bytesWritten])
      ensures AtDesk() == Pressed(bytesWritten, history, old(AtDesk()), k)
      ensures output == if k.Clear? then liveBuffer[..][..bytesWritten] else old(output)
      ensures old(Drawn(page)) && old(Fits(|Type(history, AtDesk().edit, k).line.Text()|)) ==>
        Drawn(page) && rowIndex <= old(rowIndex)
      ensures k.Clear? && Clean(old(liveBuffer[..][..bytesRead])) ==> Drawn(page)
      ensures old(Idles(k)) ==> unchanged(this, page, liveBuffer)
      ensures old(OnPage() && StaysOnScreen(AtDesk(), k)) || k.Clear? ==> strayed == old(strayed)
    {
      hide RowOf, DrawnBy, LineIn, Holds, Prints, Tabs, Deletes, Moves, Types, DeletesAll;
      match k
      case Char(c) => OutputChar(c, page);
      case Tab => Tab(page);
      case Backspace => Backspace(page);
      case Left => CursorLeft(page);
      case Right => CursorRight(page);
      case Up => PrevCommand(page);
      case Clear =>
        DrawnIsClean(page);
        BufferClear(page);
    }

    /** A key at the keyboard.  Without a read in progress only the cursor keys
        do anything. */
    method KeyDown(k: Key, page: array<char>)
      requires EditOk() && PageOk(page) && HistoryOk() && Typable(k)
      modifies page, historyBuffer, `strayed, liveBuffer, `rowIndex, `screenX, `screenY, `cursorLoc, `bytesRead, `liveBufferLocation,
               `viewCommandRow, `output
      ensures EditOk() && HistoryOk() && liveBuffer[..][..bytesWritten] == old(liveBuffer[..][..bytesWritten])
      ensures !readInProgress && !(k.Left? || k.Right? || k.Up?) ==> unchanged(this, page, liveBuffer)
      ensures old(Idles(k)) ==> unchanged(this, page, liveBuffer)
      ensures readInProgress || k.Left? || k.Right? || k.Up? ==>
        && AtDesk() == Pressed(bytesWritten, history, old(AtDesk()), k)
        && output == (if k.Clear? then liveBuffer[..][..bytesWritten] else old(output))
        && (old(Drawn(page)) && old(Fits(|Type(history, AtDesk().edit, k).line.Text()|)) ==> Drawn(page))
        && (old(OnPage() && StaysOnScreen(AtDesk(), k)) || k.Clear? ==> strayed == old(strayed))
        && (k.Clear? && Clean(old(liveBuffer[..][..bytesRead])) ==> Drawn(page))
    {
      hide DrawnBy, LineIn, Holds, Type, Pressed, Clean, Typable;
      if Gated(k) && !readInProgress {
        return;
      }
      PressKey(k, page);
    }

    /** Enter at the keyboard, which only a read in progress lets through. */
    method EnterDown(page: array<char>)
      requires EditOk() && PageOk(page)
      modifies page, historyBuffer, `strayed, liveBuffer, liveBufferStore, `bytesReadStore, `bytesRead, `liveBufferLocation,
               `bytesWritten, `rowIndex, `screenX, `screenY, `cursorLoc, `output
      ensures !readInProgress ==> unchanged(this, page, liveBuffer, liveBufferStore)
      ensures readInProgress ==>
        && bytesReadStore == old(bytesRead) && bytesRead == liveBufferLocation == bytesWritten == 0
        && liveBufferStore[..bytesReadStore] == old(liveBuffer[..][..bytesRead])
        && liveBufferStore[bytesReadStore] == '\n'
        && strayed == (old(strayed) || !old(StoresInRange(rowIndex, bytesRead)))
        && (old(StoresInRange(rowIndex, bytesRead)) ==> Here() == Enters(old(Here()), old(bytesRead)))
        && output == old(output) + old(Edited()).Text() + "\n"
        && (old(Drawn(page)) ==> (Synced(page) <==> Steady(old(bytesWritten), old(Edited()))))
    {
      hide DrawnBy, TrackedBy, LineIn, StoresInRange, Shows;
      if !readInProgress {
        return;
      }
      NewLine(page);
    }

    /** Scroll the command buffer up a row. */
    method CommandBufferScroll()
      requires Ok()
      modifies commandBuffer, `writeCommandRow
      ensures commandBuffer[..] == Scrolled(old(commandBuffer[..]), ROW_SIZE, commandBuffer.Length)
      ensures writeCommandRow == MAX_COMMAND_STORE - 1
    {
      hide Slid, Written, Repeat;
      ghost var cells, last := commandBuffer[..], ROW_SIZE * (MAX_COMMAND_STORE - 1);
      SlideStep(cells, ROW_SIZE, 0);
      var row := 0;
      while row < MAX_COMMAND_STORE - 1
        modifies commandBuffer
        invariant 0 <= row <= MAX_COMMAND_STORE - 1
        invariant commandBuffer[..] == Slid(cells, ROW_SIZE, ROW_SIZE * row)
      {
        var idx := 0;
        while idx < CHAR_BUFFER_SIZE
          modifies commandBuffer
          invariant 0 <= idx <= CHAR_BUFFER_SIZE
          invariant commandBuffer[..] == Slid(cells, ROW_SIZE, ROW_SIZE * row + idx)
        {
          SlideStep(cells, ROW_SIZE, ROW_SIZE * row + idx);
          commandBuffer[CHAR_BUFFER_SIZE * row + idx] := commandBuffer[CHAR_BUFFER_SIZE * (row + 1) + idx];
          idx := idx + 1;
        }
        row := row + 1;
      }
      ghost var slid := commandBuffer[..];
      WriteStep(slid, last, [], '\0');
      RepeatNone('\0');
      var idx := 0;
      while idx < CHAR_BUFFER_SIZE
        modifies commandBuffer
        invariant 0 <= idx <= CHAR_BUFFER_SIZE
        invariant commandBuffer[..] == Written(slid, last, Repeat('\0', idx))
      {
        WriteStep(slid, last, Repeat('\0', idx), '\0');
        commandBuffer[CHAR_BUFFER_SIZE * (MAX_COMMAND_STORE - 1) + idx] := '\0';
        idx := idx + 1;
      }
      writeCommandRow := MAX_COMMAND_STORE - 1;
    }

    /** The stored line without the prompt, which is `from` characters long. */
    ghost function StoredLine(from: int): string
      requires Ok() && 0 <= from && 0 <= bytesReadStore <= SCREEN_SIZE
      reads this, liveBufferStore
    {
      if from < bytesReadStore then liveBufferStore[..][from..bytesReadStore] else ""
    }

    /** Copy the stored line into the caller's buffer and into a row of the
        command buffer. */
    method CopyLine(from: int, commandLoc: int, buf: array<char>) returns (length: nat)
      requires Ok() && buf != commandBuffer && buf != liveBufferStore && buf.Length >= CHAR_BUFFER_SIZE
      requires 0 <= from && 0 <= bytesReadStore <= SCREEN_SIZE && |StoredLine(from)| <= LINE_MAX
      requires 0 <= commandLoc < MAX_COMMAND_STORE
      modifies buf, commandBuffer
      ensures length == |StoredLine(from)| && buf[..length] == StoredLine(from)
      ensures commandBuffer[..] == Written(old(commandBuffer[..]), CHAR_BUFFER_SIZE * commandLoc, StoredLine(from))
    {
      hide Written;
      ghost var h, at, line := commandBuffer[..], CHAR_BUFFER_SIZE * commandLoc, StoredLine(from);
      WriteStep(h, at, "", '\0');
      var bufIdx, idx := 0, from;
      while idx < bytesReadStore
        modifies buf, commandBuffer
        invariant bufIdx == idx - from && 0 <= bufIdx <= |line| && StoredLine(from) == line
        invariant buf[..bufIdx] == line[..bufIdx]
        invariant commandBuffer[..] == Written(h, at, line[..bufIdx])
      {
        WriteStep(h, at, line[..bufIdx], line[bufIdx]);
        assert line[..bufIdx] + [line[bufIdx]] == line[..bufIdx + 1];
        if bufIdx < bytesReadStore {
          buf[bufIdx] := liveBufferStore[idx];
          if bytesReadStore > from {
            commandBuffer[CHAR_BUFFER_SIZE * commandLoc + bufIdx] := buf[bufIdx];
          }
        }
        bufIdx := bufIdx + 1;
        idx := idx + 1;
      }
      length := bufIdx;
      assert line[..length] == line;
    }

    /** One more key. */
    method NextKey(k: Key, page: array<char>, ghost start: Desk, ghost keys: seq<Key>, ghost used: nat, ghost fits: bool)
      requires EditOk() && PageOk(page) && HistoryOk() && Typable(k) && Plain(Edited().Text())
      requires used < |keys| && keys[used] == k
      requires AtDesk() == Play(bytesWritten, history, start, keys[..used])
      requires fits ==> InReach(bytesWritten, start) && Drawn(page) && Fits(Longest(history, start.edit, keys))
      modifies page, historyBuffer, `strayed, liveBuffer, `rowIndex, `screenX, `screenY, `cursorLoc, `bytesRead, `liveBufferLocation,
               `viewCommandRow, `output
      ensures EditOk() && HistoryOk() && Plain(Edited().Text())
      ensures liveBuffer[..][..bytesWritten] == old(liveBuffer[..][..bytesWritten])
      ensures AtDesk() == Play(bytesWritten, history, start, keys[..used + 1])
      ensures fits ==> Drawn(page) && Fits(Longest(history, start.edit, keys)) && strayed == old(strayed)
      ensures old(Aligned(bytesWritten, AtDesk())) ==> Aligned(bytesWritten, AtDesk()) && strayed == old(strayed)
      ensures output == if k.Clear? then liveBuffer[..][..bytesWritten] else old(output)
    {
      hide RowOf, DrawnBy, LineIn, Holds, Type, Plain, Longest, Pressed, Play, InReach, Aligned, StaysOnScreen, Rowed, OnScreen;
      assert keys[..used + 1] == keys[..used] + [k];
      PlaySnoc(bytesWritten, history, start, keys[..used], k);
      HeldPlain(commandBuffer[..], history);
      PressedPlain(bytesWritten, history, AtDesk(), k);
      if Aligned(bytesWritten, AtDesk()) {
        PressedAligned(bytesWritten, history, AtDesk(), k);
        AlignedStays(bytesWritten, AtDesk());
        ReachRowed(bytesWritten, AtDesk());
      }
      if fits {
        DrawnStays(output, bytesWritten, Edited(), rowIndex, screenX, screenY, cursorLoc, page[..], viewCommandRow, k);
        PlayIsType(bytesWritten, history, start, keys[..used]);
        TypeSnoc(history, start.edit, keys[..used], k);
        LongestIsLongest(history, start.edit, keys, used + 1);
      }
      PressKey(k, page);
    }

    /** The busy wait of terminal_read: the keyboard's interrupts handle the keys
        and then Enter, until a newline ends the stored line. */
    method WaitForLine(keys: seq<Key>, page: array<char>) returns (entered: bool, ghost e: Line)
      requires Fresh() && PageOk(page) && HistoryOk() && forall i :: 0 <= i < |keys| ==> Typable(keys[i])
      modifies page, historyBuffer, `strayed, liveBuffer, liveBufferStore, `rowIndex, `screenX, `screenY, `cursorLoc, `bytesRead,
               `bytesWritten, `bytesReadStore, `liveBufferLocation, `viewCommandRow, `output
      ensures HistoryOk() && 0 <= bytesReadStore < SCREEN_SIZE && liveBufferStore[bytesReadStore] == '\n'
      ensures StoredLine(old(bytesWritten)) == e.Text() && Plain(e.Text()) && |e.Text()| <= LINE_MAX
      ensures entered == (old(liveBufferStore[0]) != '\n')
      ensures !entered ==>
        && e == Line("", "") && viewCommandRow == old(viewCommandRow) && bytesReadStore == 0 && output == old(output)
        && Fresh() && (old(Synced(page)) ==> Synced(page))
      ensures entered ==>
        && bytesReadStore == old(bytesWritten) + |e.Text()| && bytesRead == liveBufferLocation == bytesWritten == 0
        && Edit(e, viewCommandRow) == Play(old(bytesWritten), history, old(AtDesk()), keys).edit
      ensures old(Aligned(bytesWritten, AtDesk()) || FitsAll(page, keys)) ==> strayed == old(strayed)
      ensures entered && old(FitsAll(page, keys)) ==>
        && output == (if Key.Clear in keys then old(liveBuffer[..][..bytesWritten]) else old(output)) + e.Text() + "\n"
        && InRange() && Shows(page[..], output)
        && (Synced(page) <==> Steady(old(bytesWritten), e))
    {
      hide RowOf, DrawnBy, TrackedBy, LineIn, Holds, Type, Shows, Plain, Longest, Play, InReach, Aligned, StoresInRange;
      ghost var start, prompt, fits := AtDesk(), liveBuffer[..][..bytesWritten], FitsAll(page, keys);
      var used := 0;
      e := Line("", "");
      entered := false;
      EmptyLine(liveBuffer[..], bytesWritten);
      PlayNothing(bytesWritten, history, start);
      if fits {
        DrawnInReach(output, bytesWritten, Edited(), rowIndex, screenX, screenY, cursorLoc, page[..], viewCommandRow);
      }
      while liveBufferStore[bytesReadStore] != '\n'
        invariant 0 <= used <= |keys| && !entered && EditOk() && HistoryOk() && bytesReadStore == 0
        invariant bytesWritten == old(bytesWritten) && liveBuffer[..][..bytesWritten] == prompt
        invariant liveBufferStore[0] == old(liveBufferStore[0])
        invariant e == Edited() && Plain(e.Text())
        invariant used == 0 ==> viewCommandRow == old(viewCommandRow) && output == old(output) && e == Line("", "")
        invariant used == 0 ==> Fresh() && (old(Synced(page)) ==> Synced(page))
        invariant used > 0 ==> old(liveBufferStore[0]) != '\n'
        invariant AtDesk() == Play(bytesWritten, history, start, keys[..used])
        invariant old(Aligned(bytesWritten, AtDesk())) ==> Aligned(bytesWritten, AtDesk())
        invariant old(Aligned(bytesWritten, AtDesk())) || fits ==> strayed == old(strayed)
        invariant fits ==> InReach(bytesWritten, start) && Drawn(page) && Fits(Longest(history, start.edit, keys))
        invariant fits ==> output == if Key.Clear in keys[..used] then prompt else old(output)
        decreases |keys| - used
      {
        if used == |keys| {
          assert keys[..used] == keys;
          LineText(liveBuffer[..], bytesWritten, liveBufferLocation, bytesRead);
          if Aligned(bytesWritten, AtDesk()) { AlignedStays(bytesWritten, AtDesk()); }
          NewLine(page);
          entered := true;
          break;
        }
        NextKey(keys[used], page, start, keys, used, fits);
        used := used + 1;
        e := Edited();
      }
    }

    /** A full command buffer gives up its oldest command. */
    method MakeCommandRoom()
      requires Ok() && HistoryOk()
      modifies commandBuffer, `writeCommandRow, `history
      ensures HistoryOk() && |history| < MAX_COMMAND_STORE
      ensures history == if old(|history|) >= HISTORY_MAX then old(history)[1..] else old(history)
    {
      hide Holds, Scrolled;
      HeldCell(commandBuffer[..], history, 0, 0);
      if writeCommandRow >= MAX_COMMAND_STORE {
        ScrollHolds(commandBuffer[..], history);
        CommandBufferScroll();
        history := history[1..];
      }
    }

    /** Hand the stored line over to the caller and remember it. */
    method TakeLine(from: int, buf: array<char>) returns (length: nat)
      requires Ok() && HistoryOk() && 0 <= from && 0 <= bytesReadStore < SCREEN_SIZE
      requires Plain(StoredLine(from)) && |StoredLine(from)| <= LINE_MAX
      requires buf.Length >= CHAR_BUFFER_SIZE && buf != commandBuffer && buf != liveBufferStore
      modifies buf, commandBuffer, liveBufferStore, `bytesReadStore, `writeCommandRow, `viewCommandRow, `history
      ensures length == |old(StoredLine(from))| + 1 && buf[..length] == old(StoredLine(from)) + "\n"
      ensures HistoryOk() && history == Remember(old(history), old(StoredLine(from)))
      ensures viewCommandRow == if old(StoredLine(from)) != "" then |history| else old(viewCommandRow)
      ensures bytesReadStore == 0
      ensures liveBufferStore[0] == if old(bytesReadStore) > 0 then '\0' else old(liveBufferStore[0])
    {
      hide Holds, Written, Plain;
      ghost var line := StoredLine(from);
      MakeCommandRoom();
      WriteStep(commandBuffer[..], CHAR_BUFFER_SIZE * writeCommandRow, "", '\0');
      if line != "" {
        WriteHolds(commandBuffer[..], history, line);
      }
      length := CopyLine(from, writeCommandRow, buf);
      if bytesReadStore > from {
        writeCommandRow := writeCommandRow + 1;
        viewCommandRow := writeCommandRow;
        history := history + [line];
      }
      buf[length] := '\n';
      length := length + 1;
      ClearStore();
      bytesReadStore := 0;
    }

    method ClearStore()
      requires Ok() && 0 <= bytesReadStore <= SCREEN_SIZE
      modifies liveBufferStore
      ensures forall i :: 0 <= i < bytesReadStore ==> liveBufferStore[i] == '\0'
      ensures liveBufferStore[bytesReadStore..] == old(liveBufferStore[bytesReadStore..])
    {
      var idx := 0;
      while idx < bytesReadStore
        invariant 0 <= idx <= bytesReadStore && forall i :: 0 <= i < idx ==> liveBufferStore[i] == '\0'
        invariant liveBufferStore[bytesReadStore..] == old(liveBufferStore[bytesReadStore..])
      {
        liveBufferStore[idx] := '\0';
        idx := idx + 1;
      }
    }

    /** The checks of terminal_read, and the length of the prompt. */
    method BeginRead(bytes: int) returns (ok: bool, from: int)
      modifies `readInProgress
      ensures readInProgress && ok == (bytes >= 0) && (ok ==> from == bytesWritten)
    {
      readInProgress := true;
      ok, from := false, 0;
      if bytes < 0 {
        return;
      }
      ok := true;
      if bytesWritten != 0 {
        from := bytesWritten;
      }
    }

    /** The end of terminal_read, once a newline ends the stored line. */
    method EndRead(from: int, buf: array<char>) returns (length: nat)
      requires Ok() && HistoryOk() && 0 <= from && 0 <= bytesReadStore < SCREEN_SIZE
      requires Plain(StoredLine(from)) && |StoredLine(from)| <= LINE_MAX
      requires buf.Length >= CHAR_BUFFER_SIZE && buf != commandBuffer && buf != liveBufferStore
      modifies buf, commandBuffer, liveBufferStore, `bytesReadStore, `writeCommandRow, `viewCommandRow, `history, `readInProgress
      ensures !readInProgress && length == |old(StoredLine(from))| + 1 && buf[..length] == old(StoredLine(from)) + "\n"
      ensures HistoryOk() && history == Remember(old(history), old(StoredLine(from)))
      ensures viewCommandRow == if old(StoredLine(from)) != "" then |history| else old(viewCommandRow)
      ensures bytesReadStore == 0
      ensures liveBufferStore[0] == if old(bytesReadStore) > 0 then '\0' else old(liveBufferStore[0])
    {
      hide Holds, Plain, Remember;
      length := TakeLine(from, buf);
      readInProgress := false;
    }

    /** The wait of terminal_read and its end. */
    method ReadLine(from: int, keys: seq<Key>, buf: array<char>, page: array<char>)
      returns (length: int, entered: bool, ghost e: Line)
      requires from == bytesWritten && Fresh() && PageOk(page) && HistoryOk() && forall i :: 0 <= i < |keys| ==> Typable(keys[i])
      requires buf.Length >= CHAR_BUFFER_SIZE && buf !in {page, liveBuffer, liveBufferStore, commandBuffer}
      modifies page, historyBuffer, `strayed, liveBuffer, liveBufferStore, commandBuffer, buf, `rowIndex, `screenX, `screenY, `cursorLoc,
               `bytesRead, `bytesWritten, `bytesReadStore, `liveBufferLocation, `writeCommandRow, `viewCommandRow, `output,
               `history, `readInProgress
      ensures !readInProgress && HistoryOk() && Fresh() && Plain(e.Text()) && |e.Text()| <= LINE_MAX
      ensures length == |e.Text()| + 1 && buf[..length] == e.Text() + "\n"
      ensures history == Remember(old(history), e.Text())
      ensures entered == (old(liveBufferStore[0]) != '\n')
      ensures liveBufferStore[0] == '\n' <==> e.Text() == "" && (old(bytesWritten) == 0 || !entered)
      ensures !entered ==>
        e == Line("", "") && output == old(output) && viewCommandRow == old(viewCommandRow) && (old(Synced(page)) ==> Synced(page))
      ensures entered ==>
        var s := Play(old(bytesWritten), old(history), old(AtDesk()), keys).edit;
        e == s.line && viewCommandRow == if e.Text() != "" then |history| else s.view
      ensures old(Aligned(bytesWritten, AtDesk()) || FitsAll(page, keys)) ==> strayed == old(strayed)
      ensures entered && old(FitsAll(page, keys)) ==>
        && output == (if Key.Clear in keys then old(liveBuffer[..][..bytesWritten]) else old(output)) + e.Text() + "\n"
        && InRange() && Shows(page[..], output)
        && (Synced(page) <==> Steady(old(bytesWritten), e))
    {
      hide RowOf, TrackedBy, DrawnBy, LineIn, Holds, TypeAll, Longest, Plain, Shows, Remember, Steady, Play, Aligned;
      entered, e := WaitForLine(keys, page);
      length := EndRead(from, buf);
    }

    /** Read a line: the keys, then Enter.

        The caller gets the line and nothing of the prompt, for all keys.  If
        the read starts above the window's lower edge, it is the line that the
        abstract editor holds.  If the line fits on the page, the page goes on
        showing the whole output, now with the line in it.

        An empty line after an empty prompt leaves its newline behind, and the
        next read does not wait if nothing has been written before. */
    method TerminalRead(keys: seq<Key>, bytes: int, buf: array<char>, page: array<char>) returns (length: int, entered: bool)
      requires Fresh() && PageOk(page) && HistoryOk() && forall i :: 0 <= i < |keys| ==> Typable(keys[i])
      requires buf.Length >= CHAR_BUFFER_SIZE && buf !in {page, liveBuffer, liveBufferStore, commandBuffer}
      modifies page, historyBuffer, `strayed, liveBuffer, liveBufferStore, commandBuffer, buf, `rowIndex, `screenX, `screenY, `cursorLoc,
               `bytesRead, `bytesWritten, `bytesReadStore, `liveBufferLocation, `writeCommandRow, `viewCommandRow, `output,
               `history, `readInProgress
      ensures bytes < 0 ==> length == -1 && readInProgress && unchanged(page, buf, liveBuffer, liveBufferStore, commandBuffer)
      ensures bytes >= 0 ==>
        && !readInProgress && HistoryOk() && Fresh()
        && 1 <= length <= CHAR_BUFFER_SIZE && buf[length - 1] == '\n' && Plain(buf[..length - 1])
        && history == Remember(old(history), buf[..length - 1])
        && (liveBufferStore[0] == '\n' <==> length == 1 && old(bytesWritten == 0 || liveBufferStore[0] == '\n'))
      ensures entered == (bytes >= 0 && old(liveBufferStore[0]) != '\n')
      ensures bytes >= 0 && !entered ==>
        length == 1 && output == old(output) && viewCommandRow == old(viewCommandRow) && (old(Synced(page)) ==> Synced(page))
      ensures entered ==>
        var s := Play(old(bytesWritten), old(history), old(AtDesk()), keys).edit;
        buf[..length - 1] == s.line.Text() && viewCommandRow == if length > 1 then |history| else s.view
      ensures entered && old(InReach(bytesWritten, AtDesk()) || (Synced(page) && rowIndex < TEXT_ROWS)) ==>
        var s := TypeAll(old(history), Edit(Line("", ""), old(viewCommandRow)), keys);
        buf[..length - 1] == s.line.Text() && viewCommandRow == if length > 1 then |history| else s.view
      ensures old(Aligned(bytesWritten, AtDesk()) || FitsAll(page, keys)) ==> strayed == old(strayed)
      ensures entered && old(FitsAll(page, keys)) ==>
        var e := TypeAll(old(history), Edit(Line("", ""), old(viewCommandRow)), keys).line;
        && output == (if Key.Clear in keys then old(liveBuffer[..][..bytesWritten]) else old(output)) + e.Text() + "\n"
        && InRange() && Shows(page[..], output)
        && (Synced(page) <==> Steady(old(bytesWritten), e))
    {
      hide RowOf, TrackedBy, DrawnBy, LineIn, Holds, TypeAll, Longest, Plain, Shows, Remember, Steady, Play, InReach, LikeTheEditor, Aligned;
      ReadStartsInReach(page);
      if InReach(bytesWritten, AtDesk()) { ReadIsEditor(keys); }
      var ok, from := BeginRead(bytes);
      if !ok {
        return -1, false;
      }
      ghost var e;
      length, entered, e := ReadLine(from, keys, buf, page);
      assert buf[..length - 1] == buf[..length][..length - 1] == e.Text();
    }
  }
}
