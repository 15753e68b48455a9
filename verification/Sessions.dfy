/**
 What a run of the console is to each of its terminals: writes, reads, single
 keys and screen switches, as a state machine over values.
*/
module Sessions {
  import opened Editor
  import opened Paper
  import opened Screen
  import opened Typing

  const NUM_TERMINALS: nat := 3

  // ---------------------------------------------------------------- one terminal

  /** Where a terminal's process is: not reading, waiting in a read that began
      after a prompt of `from` characters, or about to return from it with what
      Enter has stored. */
  datatype Phase = Idle | Reading(from: nat) | Ready(stored: string, from: nat)

  /** What a terminal's own actions make of it: what it has shown since it was
      cleared, the row before the line, the line, its position fields, the lines
      read so far, the history row looked at last, and whether an empty line has
      left its newline behind.

      `untouched`: no key has worked on the line since the last write or Enter.
      `tidy`: the page shows the output and the line. */
  datatype Session = Session(output: string, prompt: string, line: Line, seat: Seat, lines: seq<string>, view: nat,
                             stale: bool, untouched: bool, tidy: bool, phase: Phase)
  {
    function AtDesk(): Desk {
      Desk(seat, Edit(line, view))
    }

    /** What Enter stores. */
    function Stored(): string {
      prompt + line.Text()
    }

    /** No cursor key is refused, now or later. */
    predicate Reach() {
      InReach(|prompt|, AtDesk())
    }
  }

  const EMPTY: Line := Line("", "")

  ghost predicate Booted(s: Session) {
    s == Session("", "", EMPTY, Seat(0, 0, 0, 0), [], 0, false, true, true, Idle)
  }

  datatype Action = Wrote(text: string) | Began | Typed(k: Key) | Entered | Returned

  /** A line of n characters after this output ends above the status bar. */
  predicate Room(output: string, n: nat) {
    |Render(output)| + n < COLS * Top(output) + CELLS
  }

  /** Keys that do nothing: most of them while nobody reads, and those that have
      nothing to work on. */
  predicate Ignored(s: Session, k: Key) {
    || (s.phase.Idle? && Gated(k))
    || ((k.Left? || k.Backspace?) && s.line.left == "")
    || (k.Right? && s.line.right == "")
    || (k.Up? && s.view == 0)
  }

  function AfterKey(s: Session, k: Key): Session {
    var d := Pressed(|s.prompt|, RememberAll(s.lines), s.AtDesk(), k);
    var r := s.(line := d.edit.line, view := d.edit.view, seat := d.seat, untouched := false);
    if k.Clear? then r.(output := s.prompt, tidy := Clean(s.prompt))
    else r.(tidy := s.tidy && s.Reach() && Room(s.output, |d.edit.line.Text()|))
  }

  function AfterWrite(s: Session, text: string): Session {
    s.(output := s.output + text, prompt := NextPrompt(s.prompt, text), line := EMPTY,
       seat := WritesAll(s.seat, s.prompt, text), stale := false, untouched := true,
       tidy := s.tidy && s.untouched && '\r' !in text && !EndsFull(s.output + text))
  }

  function AfterEnter(s: Session, from: nat): Session {
    s.(output := s.output + s.line.Text() + "\n", prompt := "", line := EMPTY, seat := Enters(s.seat, |s.Stored()|),
       untouched := true, tidy := s.tidy && s.Reach() && Steady(|s.prompt|, s.line), phase := Ready(s.Stored(), from))
  }

  function LineFrom(stored: string, from: nat): string {
    if from < |stored| then stored[from..] else ""
  }

  function AfterReturn(s: Session, stored: string, from: nat): Session {
    var lines := s.lines + [LineFrom(stored, from)];
    s.(lines := lines, view := if LineFrom(stored, from) != "" then |RememberAll(lines)| else s.view,
       stale := stored == "", phase := Idle)
  }

  function Act(s: Session, a: Action): Session {
    match a
    case Wrote(text) => AfterWrite(s, text)
    case Began => s.(phase := if s.stale then Ready("", |s.prompt|) else Reading(|s.prompt|))
    case Typed(k) => if Ignored(s, k) then s else AfterKey(s, k)
    case Entered => if s.phase.Idle? then s else AfterEnter(s, s.phase.from)
    case Returned => if s.phase.Ready? then AfterReturn(s, s.phase.stored, s.phase.from) else s
  }

  /** A process writes and starts to read when it is not reading, and its read
      returns when a line is stored.  Apart from that, what is not allowed is what
      leaves the terminal's own memory: Enter on a line too long for the history
      buffer, a write with the row below it, Backspace in the first cell of the
      page, and typing where none of this is known, before Ctrl-L. */
  ghost predicate Allowed(s: Session, a: Action) {
    match a
    case Wrote(text) => s.phase.Idle? && (text != "" ==> s.seat.row <= TEXT_ROWS)
    case Began => s.phase.Idle?
    case Typed(k) => Typable(k) && (Ignored(s, k) || k.Clear? || (s.Reach() && StaysOnScreen(s.AtDesk(), k)))
    case Entered => s.phase.Idle? || StoresInRange(s.seat.row, |s.Stored()|)
    case Returned => s.phase.Ready?
  }

  /** While nobody reads, characters, Tab, Backspace, Ctrl-L and Enter do nothing;
      Left, Right and Up work as ever. */
  lemma IdleKeys(s: Session, k: Key)
    requires s.phase.Idle?
    ensures Act(s, Entered) == s
    ensures k.Char? || k.Tab? || k.Backspace? || k.Clear? ==> Act(s, Typed(k)) == s
    ensures k.Left? || k.Right? || k.Up? ==>
      Act(s, Typed(k)).AtDesk() == Pressed(|s.prompt|, RememberAll(s.lines), s.AtDesk(), k)
  {
    hide RememberAll, Room, InReach;
  }

  function ActAll(s: Session, actions: seq<Action>): Session {
    if actions == [] then s else Act(ActAll(s, actions[..|actions| - 1]), actions[|actions| - 1])
  }

  lemma ActSnoc(s: Session, actions: seq<Action>, a: Action)
    ensures ActAll(s, actions + [a]) == Act(ActAll(s, actions), a)
  {
    assert (actions + [a])[..|actions|] == actions;
  }

  // ---------------------------------------------------------------- a read is a line of the editor

  function Keys(keys: seq<Key>): seq<Action> {
    if keys == [] then [] else Keys(keys[..|keys| - 1]) + [Typed(keys[|keys| - 1])]
  }

  lemma KeyIsPressed(s: Session, k: Key)
    requires s.phase.Reading?
    ensures var r := Act(s, Typed(k));
            && r.AtDesk() == Pressed(|s.prompt|, RememberAll(s.lines), s.AtDesk(), k)
            && r.phase == s.phase && r.lines == s.lines && r.prompt == s.prompt
  {
    hide RememberAll, Room, Clean, InReach;
  }

  /** While a read waits, the keys work on the line and its position as they are
      played, */
  lemma {:induction false} KeysArePlayed(s: Session, keys: seq<Key>)
    requires s.phase.Reading?
    ensures var r := ActAll(s, Keys(keys));
            && r.AtDesk() == Play(|s.prompt|, RememberAll(s.lines), s.AtDesk(), keys)
            && r.phase == s.phase && r.lines == s.lines && r.prompt == s.prompt
  {
    hide RememberAll, Act, Pressed;
    if keys != [] {
      var before, k := keys[..|keys| - 1], keys[|keys| - 1];
      KeysArePlayed(s, before);
      ActSnoc(s, Keys(before), Typed(k));
      KeyIsPressed(ActAll(s, Keys(before)), k);
    }
  }

  /** and in reach as in the editor. */
  lemma KeysAreTyped(s: Session, keys: seq<Key>)
    requires s.phase.Reading? && s.Reach()
    ensures var r := ActAll(s, Keys(keys));
            && Edit(r.line, r.view) == TypeAll(RememberAll(s.lines), Edit(s.line, s.view), keys) && r.Reach()
            && r.phase == s.phase && r.lines == s.lines && r.prompt == s.prompt
  {
    hide RememberAll, Act, Play, TypeAll, InReach, Keys, ActAll;
    KeysArePlayed(s, keys);
    PlayIsType(|s.prompt|, RememberAll(s.lines), s.AtDesk(), keys);
  }

  /** A line of 127 characters after a prompt of more than 33, from one of the
      last two rows.  Its Enter would store into what lies behind the history
      buffer: row_index, and then the next terminal. */
  lemma LongLineRefused(s: Session, row: nat)
    requires s.phase.Reading? && 33 < |s.prompt| < NUM_COLS && 21 < row < TEXT_ROWS
    requires s.AtDesk() == Start(|s.prompt|, row, s.view)
    ensures var r := ActAll(s, Keys(Times(Char('a'), LINE_MAX)));
            && !StoresInRange(r.seat.row, |r.Stored()|) && !Allowed(r, Entered)
  {
    hide RememberAll, Act, Play, Keys, ActAll, StoresInRange, Times;
    var keys, h := Times(Char('a'), LINE_MAX), RememberAll(s.lines);
    KeysArePlayed(s, keys);
    OverrunningLine(|s.prompt|, row, h, s.view);
  }

  /** One whole read: a process begins to read, keys are typed, Enter is pressed,
      the read returns.  Whatever lies between these actions on the other
      terminals, it returns the editor's line. */
  lemma ReadReturnsTheLine(s: Session, keys: seq<Key>)
    requires s.phase.Idle? && !s.stale && s.line == EMPTY && s.Reach()
    ensures var r := ActAll(s, [Began] + Keys(keys) + [Entered] + [Returned]);
            && r.lines == s.lines + [TypeAll(RememberAll(s.lines), Edit(EMPTY, s.view), keys).line.Text()]
            && r.phase.Idle? && r.line == EMPTY
  {
    hide Act, ActAll, Keys, RememberAll, TypeAll, InReach;
    var began := Act(s, Began);
    BeginsRead(s);
    BeganFirst(s, Keys(keys));
    KeysAreTyped(began, keys);
    ActSnoc(s, [Began] + Keys(keys), Entered);
    ActSnoc(s, [Began] + Keys(keys) + [Entered], Returned);
    EndsRead(ActAll(began, Keys(keys)));
  }

  lemma BeginsRead(s: Session)
    requires s.phase.Idle? && !s.stale
    ensures Act(s, Began) == s.(phase := Reading(|s.prompt|))
  {
  }

  lemma EndsRead(s: Session)
    requires s.phase == Reading(|s.prompt|)
    ensures var r := Act(Act(s, Entered), Returned);
            r.lines == s.lines + [s.line.Text()] && r.phase.Idle? && r.line == EMPTY
  {
    hide RememberAll, Room, Steady, InReach, Enters;
    assert (s.prompt + s.line.Text())[|s.prompt|..] == s.line.Text();
  }

  lemma {:induction false} BeganFirst(s: Session, actions: seq<Action>)
    ensures ActAll(s, [Began] + actions) == ActAll(Act(s, Began), actions)
  {
    hide Act;
    if actions == [] {
      assert [Began] + actions == [Began];
    } else {
      assert [Began] + actions == [Began] + actions[..|actions| - 1] + [actions[|actions| - 1]];
      ActSnoc(s, [Began] + actions[..|actions| - 1], actions[|actions| - 1]);
      BeganFirst(s, actions[..|actions| - 1]);
    }
  }

  // ---------------------------------------------------------------- the whole console

  /** What a process does on its own terminal, what is typed on the visible one,
      and Alt-F, which also draws the status bar. */
  datatype Op = Call(t: nat, a: Action) | Hit(a: Action) | Switch(t: nat, bar: string)

  datatype State = State(visible: nat, sessions: seq<Session>)

  ghost predicate Proper(c: State) {
    c.visible < NUM_TERMINALS && |c.sessions| == NUM_TERMINALS
  }

  predicate Possible(op: Op) {
    match op
    case Call(t, a) => t < NUM_TERMINALS && (a.Wrote? || a.Began? || a.Returned?)
    case Hit(a) => a.Typed? || a.Entered?
    case Switch(t, bar) => t < NUM_TERMINALS && |bar| == NUM_COLS
  }

  function Step(c: State, op: Op): (r: State)
    requires Proper(c) && Possible(op)
    ensures Proper(r)
  {
    match op
    case Call(t, a) => c.(sessions := c.sessions[t := Act(c.sessions[t], a)])
    case Hit(a) => c.(sessions := c.sessions[c.visible := Act(c.sessions[c.visible], a)])
    case Switch(t, _) => c.(visible := t)
  }

  function Run(c: State, ops: seq<Op>): (r: State)
    requires Proper(c) && forall op :: op in ops ==> Possible(op)
    ensures Proper(r)
  {
    if ops == [] then c else Step(Run(c, ops[..|ops| - 1]), ops[|ops| - 1])
  }

  /** What one step is to terminal t. */
  function OwnPart(op: Op, visible: nat, t: nat): seq<Action> {
    match op
    case Call(u, a) => if u == t then [a] else []
    case Hit(a) => if visible == t then [a] else []
    case Switch(_, _) => []
  }

  /** The part of a run that concerns terminal t. */
  function Own(c: State, ops: seq<Op>, t: nat): seq<Action>
    requires Proper(c) && forall op :: op in ops ==> Possible(op)
  {
    if ops == [] then []
    else Own(c, ops[..|ops| - 1], t) + OwnPart(ops[|ops| - 1], Run(c, ops[..|ops| - 1]).visible, t)
  }

  lemma ActPart(s: Session, actions: seq<Action>, part: seq<Action>)
    requires |part| <= 1
    ensures ActAll(s, actions + part) == if part == [] then ActAll(s, actions) else Act(ActAll(s, actions), part[0])
  {
    hide Act;
    if part == [] {
      assert actions + part == actions;
    } else {
      assert (actions + part)[..|actions|] == actions;
    }
  }

  /** Whatever happens on the other terminals, and however often the screen is
      switched, in the middle of a line or not, a terminal ends up as if it had
      been alone. */
  lemma {:induction false} TerminalsAreSeparate(c: State, ops: seq<Op>, t: nat)
    requires Proper(c) && t < NUM_TERMINALS && forall op :: op in ops ==> Possible(op)
    ensures Run(c, ops).sessions[t] == ActAll(c.sessions[t], Own(c, ops, t))
  {
    hide Act, Step, OwnPart;
    if ops != [] {
      var before, op := ops[..|ops| - 1], ops[|ops| - 1];
      TerminalsAreSeparate(c, before, t);
      StepPart(Run(c, before), op, t);
      ActPart(c.sessions[t], Own(c, before, t), OwnPart(op, Run(c, before).visible, t));
    }
  }

  lemma StepPart(c: State, op: Op, t: nat)
    requires Proper(c) && Possible(op) && t < NUM_TERMINALS
    ensures var part := OwnPart(op, c.visible, t);
            && |part| <= 1
            && Step(c, op).sessions[t] == if part == [] then c.sessions[t] else Act(c.sessions[t], part[0])
  {
    hide Act;
  }

  /** Only the return of a read adds to the lines of a terminal. */
  lemma StepLines(c: State, op: Op)
    requires Proper(c) && Possible(op)
    ensures forall t :: 0 <= t < NUM_TERMINALS && !(op.Call? && op.a.Returned? && op.t == t) ==>
      Step(c, op).sessions[t].lines == c.sessions[t].lines
  {
    hide RememberAll, Pressed, NextPrompt, EndsFull, Room, Steady, Clean, InReach, WritesAll, Enters;
  }

  /** A terminal's read in the middle of anything: if what concerns terminal t is
      one read, it gets the line that the editor makes of its own keys. */
  lemma ReadAmongOthers(c: State, ops: seq<Op>, t: nat, keys: seq<Key>)
    requires Proper(c) && t < NUM_TERMINALS && forall op :: op in ops ==> Possible(op)
    requires var s := c.sessions[t]; s.phase.Idle? && !s.stale && s.line == EMPTY && s.Reach()
    requires Own(c, ops, t) == [Began] + Keys(keys) + [Entered] + [Returned]
    ensures var s := c.sessions[t];
            Run(c, ops).sessions[t].lines
              == s.lines + [TypeAll(RememberAll(s.lines), Edit(EMPTY, s.view), keys).line.Text()]
  {
    hide Act, Run, Own, Keys, ActAll, TypeAll, RememberAll, InReach;
    TerminalsAreSeparate(c, ops, t);
    ReadReturnsTheLine(c.sessions[t], keys);
  }

  ghost predicate AllowedStep(c: State, op: Op)
    requires Proper(c) && Possible(op)
  {
    match op
    case Call(t, a) => Allowed(c.sessions[t], a)
    case Hit(a) => Allowed(c.sessions[c.visible], a)
    case Switch(_, _) => true
  }

  /** Every action of the run is allowed where it happens. */
  ghost predicate AllowedRun(c: State, ops: seq<Op>)
    requires Proper(c) && forall op :: op in ops ==> Possible(op)
  {
    ops == [] || (AllowedRun(c, ops[..|ops| - 1]) && AllowedStep(Run(c, ops[..|ops| - 1]), ops[|ops| - 1]))
  }

  lemma {:induction false} AllowedPrefix(c: State, ops: seq<Op>, n: nat)
    requires Proper(c) && (forall op :: op in ops ==> Possible(op)) && n <= |ops| && AllowedRun(c, ops)
    ensures AllowedRun(c, ops[..n])
  {
    if n == |ops| {
      assert ops[..n] == ops;
    } else {
      AllowedPrefix(c, ops[..|ops| - 1], n);
      assert ops[..|ops| - 1][..n] == ops[..n];
    }
  }
}
