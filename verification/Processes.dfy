/**
 The processes of the kernel as an ideal machine: three terminal slots, each
 with its own stack of processes and its own parked context, of which exactly
 one slot has the processor.  Nothing here mentions PCBs, parent links or page
 entries; `Kernel` shows that the kernel's tables implement this machine.
*/
module Processes {

  const MAX_PROCESSES: nat := 6
  const SLOTS: nat := 3

  const KERNEL_START: int := 0x400000
  const KERNEL_END: int := 0x800000
  const PCB_REGION: int := 0x2000
  const USER_FRAME: int := 0x400000
  const USER_4MB_FLAGS: int := 0x87
  const VIDEO: int := 0xB8000
  const PAGE_4KB: int := 0x1000
  const USER_4KB_FLAGS: int := 7

  /** Where in the kernel a context was saved; it decides what the code does
      once the context is restored. */
  datatype Site = Tick | DefaultTerm | Key | Execute

  /** A saved esp/ebp pair: the kernel entry whose frame it points into, the
      top of the kernel stack it lies on, and the place that saved it. */
  datatype Context = Uninitialised | Saved(entry: int, stack: int, site: Site)

  /** A process, with the context its creator saved when it executed it. */
  datatype Frame = Frame(pid: nat, resume: Context)

  /** `chains[t]` are the processes of terminal t, root shell first, and
      `parked[t]` is the context of the last one while slot t does not have the
      processor.  `settled` is the scheduler's on_default_term flag; `vidmap` is
      the entry behind the user's video page. */
  datatype Machine = Machine(chains: seq<seq<Frame>>, parked: seq<Context>, running: nat, visible: nat,
                             settled: bool, vidmap: int)

  datatype Event =
    | PitTick(entry: int)
    | Exec(entry: int, loadable: bool)
    | Halt(entry: int, status: nat)
    | AltF(entry: int, term: nat)
    | Vidmap(address: int)

  // ---------------------------------------------------------------- memory

  function FrameStart(pid: nat): int {
    KERNEL_END + pid * USER_FRAME
  }

  // The start is 4 MB aligned, so or-ing in the flags is adding them.
  function UserPage(pid: nat): int {
    FrameStart(pid) + USER_4MB_FLAGS
  }

  function PcbAddress(pid: nat): int {
    KERNEL_END - PCB_REGION - pid * PCB_REGION
  }

  function StackTop(pid: nat): int {
    KERNEL_END - 4 - pid * PCB_REGION
  }

  /** The page on which slot t's text is kept while `visible` is shown. */
  function ScreenPage(t: nat, visible: nat): int {
    if t == visible then VIDEO else VIDEO + (t + 1) * PAGE_4KB
  }

  function VidEntry(t: nat, visible: nat): int {
    ScreenPage(t, visible) + USER_4KB_FLAGS
  }

  predicate Apart(a: int, b: int, size: int) {
    a + size <= b || b + size <= a
  }

  /** User frames follow each other from the end of the kernel page up, PCB
      regions from there down, without a gap; a stack top is the last word of
      its process's region. */
  lemma RegionsTileMemory(p: nat)
    ensures FrameStart(0) == 0x80_0000 && FrameStart(p + 1) == FrameStart(p) + 0x40_0000 && UserPage(p) == FrameStart(p) + 0x87
    ensures PcbAddress(0) == 0x80_0000 - 0x2000 && PcbAddress(p + 1) == PcbAddress(p) - 0x2000
    ensures StackTop(p) == PcbAddress(p) + 0x2000 - 4
  {
  }

  /** Every slot in the background has a page of its own behind the visible one,
      whichever other slot is visible; pages of different slots are apart, while
      the same slot is visible or not, and all are apart from the visible page. */
  lemma ScreenPagesAreApart(t: nat, u: nat, visible: nat, other: nat)
    requires t < SLOTS && u < SLOTS && t != u
    ensures ScreenPage(visible, visible) == 0xB8000
    ensures t != visible ==> ScreenPage(t, visible) == 0xB9000 + t * 0x1000
    ensures t != visible && t != other ==> ScreenPage(t, visible) == ScreenPage(t, other)
    ensures Apart(ScreenPage(t, visible), ScreenPage(u, visible), 0x1000)
    ensures t != visible && u != other ==> Apart(ScreenPage(t, visible), ScreenPage(u, other), 0x1000)
    ensures t != visible ==> Apart(ScreenPage(t, visible), 0xB8000, 0x1000)
    ensures VidEntry(t, visible) == ScreenPage(t, visible) + 7 && VidEntry(t, visible) != VidEntry(u, visible)
  {
  }

  /** Distinct processes share neither user frame nor PCB-and-stack region;
      user frames avoid the kernel page, kernel stacks stay inside it, and the
      maps from pids to page entries and stacks are injective. */
  lemma RegionsAreDisjoint(p: nat, q: nat)
    requires p < MAX_PROCESSES && q < MAX_PROCESSES && p != q
    ensures Apart(FrameStart(p), FrameStart(q), USER_FRAME)
    ensures Apart(FrameStart(p), KERNEL_START, USER_FRAME)
    ensures Apart(PcbAddress(p), PcbAddress(q), PCB_REGION)
    ensures KERNEL_START <= PcbAddress(p) < StackTop(p) < PcbAddress(p) + PCB_REGION <= KERNEL_END
    ensures UserPage(p) != UserPage(q) && StackTop(p) != StackTop(q)
  {
    if p < q {
      assert p + 1 <= q;
    } else {
      assert q + 1 <= p;
    }
  }

  // ---------------------------------------------------------------- shape

  ghost function Leaf(m: Machine, t: nat): nat
    requires t < |m.chains| && |m.chains[t]| > 0
  {
    m.chains[t][|m.chains[t]| - 1].pid
  }

  /** A chain of processes rooted at the shell of slot t; every later process
      resumes on the kernel stack of the one below it. */
  ghost predicate Chain(t: nat, frames: seq<Frame>) {
    && |frames| > 0
    && frames[0].pid == t
    && (forall j :: 0 <= j < |frames| ==> frames[j].pid < MAX_PROCESSES)
    && (forall j :: 1 <= j < |frames| ==> frames[j].pid >= SLOTS && ResumesOn(frames[j], frames[j - 1].pid))
  }

  ghost predicate ResumesOn(f: Frame, parent: nat) {
    f.resume.Saved? && f.resume.stack == StackTop(parent) && f.resume.site == Execute
  }

  ghost predicate At(chains: seq<seq<Frame>>, t: int, j: int, p: int) {
    0 <= t < |chains| && 0 <= j < |chains[t]| && chains[t][j].pid == p
  }

  /** No process is at two places. */
  ghost predicate Distinct(chains: seq<seq<Frame>>) {
    forall t, j, u, k, p :: At(chains, t, j, p) && At(chains, u, k, p) ==> t == u && j == k
  }

  /** Three disjoint chains, rooted at 0, 1 and 2. */
  ghost predicate Forest(chains: seq<seq<Frame>>) {
    && |chains| == SLOTS
    && (forall t :: 0 <= t < SLOTS ==> Chain(t, chains[t]))
    && Distinct(chains)
  }

  /** A parked context lies on the kernel stack of its chain's leaf. */
  ghost predicate Suspended(frames: seq<Frame>, c: Context)
    requires |frames| > 0
  {
    c.Saved? && c.stack == StackTop(frames[|frames| - 1].pid) && !c.site.Execute?
  }

  ghost predicate Slots(m: Machine) {
    && Forest(m.chains)
    && |m.parked| == SLOTS && m.running < SLOTS && m.visible < SLOTS
    && (forall t :: 0 <= t < SLOTS && t != m.running ==> Suspended(m.chains[t], m.parked[t]))
  }

  ghost predicate Wf(m: Machine) {
    && Slots(m)
    && (!m.settled ==> m.running == m.visible)
  }

  ghost predicate Used(chains: seq<seq<Frame>>, p: int) {
    exists t, j :: At(chains, t, j, p)
  }

  ghost function FreeFrom(chains: seq<seq<Frame>>, p: nat): (q: nat)
    requires p <= MAX_PROCESSES
    ensures p <= q <= MAX_PROCESSES
    ensures q < MAX_PROCESSES ==> !Used(chains, q)
    ensures forall r :: p <= r < q ==> Used(chains, r)
    decreases MAX_PROCESSES - p
  {
    if p == MAX_PROCESSES || !Used(chains, p) then p else FreeFrom(chains, p + 1)
  }

  /** The least free pid, or MAX_PROCESSES. */
  ghost function FreePid(m: Machine): nat {
    FreeFrom(m.chains, 0)
  }

  lemma RootsUsed(chains: seq<seq<Frame>>, t: nat)
    requires Forest(chains) && t < SLOTS
    ensures At(chains, t, 0, t) && Used(chains, t)
  {
    assert Chain(t, chains[t]);
    assert At(chains, t, 0, t);
  }

  // ---------------------------------------------------------------- steps

  /** Replacing the end of chain t keeps the chains disjoint, as long as it
      moves no process and any pid it adds was free. */
  lemma ReplaceForest(chains: seq<seq<Frame>>, t: nat, frames: seq<Frame>)
    requires Forest(chains) && t < SLOTS && Chain(t, frames)
    requires forall j :: 0 <= j < |frames| ==>
      (j < |chains[t]| && frames[j].pid == chains[t][j].pid)
      || (j == |chains[t]| && !Used(chains, frames[j].pid))
    ensures Forest(chains[t := frames])
  {
    var after: seq<seq<Frame>> := chains[t := frames];
    forall u, j, v, k, p | At(after, u, j, p) && At(after, v, k, p)
      ensures u == v && j == k
    {
      if u != t || j < |chains[t]| { assert At(chains, u, j, p); }
      if v != t || k < |chains[t]| { assert At(chains, v, k, p); }
    }
  }

  lemma FreePidIsNotARoot(m: Machine)
    requires Wf(m)
    ensures FreePid(m) >= SLOTS
  {
    var p := FreePid(m);
    if p < SLOTS { RootsUsed(m.chains, p); assert false; }
  }

  /** The chain of the running slot after it executes or halts. */
  ghost function Pushed(m: Machine, entry: int): seq<Frame>
    requires Wf(m)
  {
    m.chains[m.running] + [Frame(FreePid(m), Saved(entry, StackTop(Leaf(m, m.running)), Execute))]
  }

  ghost function Popped(m: Machine, entry: int): seq<Frame>
    requires Wf(m)
  {
    var frames := m.chains[m.running];
    if |frames| == 1 then [Frame(m.running, Saved(entry, StackTop(m.running), Execute))]
    else frames[..|frames| - 1]
  }

  lemma PushWf(m: Machine, entry: int)
    requires Wf(m) && FreePid(m) < MAX_PROCESSES
    ensures Forest(m.chains[m.running := Pushed(m, entry)])
  {
    FreePidIsNotARoot(m);
    assert Chain(m.running, m.chains[m.running]);
    ReplaceForest(m.chains, m.running, Pushed(m, entry));
  }

  lemma PopWf(m: Machine, entry: int)
    requires Wf(m)
    ensures Forest(m.chains[m.running := Popped(m, entry)])
  {
    assert Chain(m.running, m.chains[m.running]);
    ReplaceForest(m.chains, m.running, Popped(m, entry));
  }

  lemma LeavesDiffer(m: Machine, t: nat, u: nat)
    requires Forest(m.chains) && t < SLOTS && u < SLOTS && t != u
    ensures Leaf(m, t) != Leaf(m, u)
  {
    assert At(m.chains, t, |m.chains[t]| - 1, Leaf(m, t));
    assert At(m.chains, u, |m.chains[u]| - 1, Leaf(m, u));
  }

  /** Which places and pids an execute or a halt adds or removes. */
  lemma PushAt(m: Machine, entry: int, t: int, j: int, q: int)
    requires Wf(m)
    ensures At(m.chains[m.running := Pushed(m, entry)], t, j, q)
       <==> At(m.chains, t, j, q) || (t == m.running && j == |m.chains[t]| && q == FreePid(m))
  {
  }

  lemma PopAt(m: Machine, entry: int, t: int, j: int, q: int)
    requires Wf(m) && |m.chains[m.running]| > 1
    ensures At(m.chains[m.running := Popped(m, entry)], t, j, q)
       <==> At(m.chains, t, j, q) && q != Leaf(m, m.running)
  {
    assert At(m.chains, m.running, |m.chains[m.running]| - 1, Leaf(m, m.running));
  }

  ghost function ExecStep(m: Machine, entry: int, loadable: bool): (n: Machine)
    requires Wf(m)
    ensures Wf(n)
  {
    if !loadable || FreePid(m) == MAX_PROCESSES then m
    else
      PushWf(m, entry);
      m.(chains := m.chains[m.running := Pushed(m, entry)])
  }

  ghost function HaltStep(m: Machine, entry: int): (n: Machine)
    requires Wf(m)
    ensures Wf(n)
  {
    PopWf(m, entry);
    m.(chains := m.chains[m.running := Popped(m, entry)])
  }

  /** Take the processor from the running slot and give it to `to`. */
  ghost function Park(m: Machine, to: nat, entry: int, site: Site): Machine
    requires m.running < |m.chains| && |m.chains[m.running]| > 0 && m.running < |m.parked|
  {
    m.(parked := m.parked[m.running := Saved(entry, StackTop(Leaf(m, m.running)), site)],
       running := to,
       vidmap := VidEntry(to, m.visible))
  }

  ghost predicate Pending(c: Context) {
    c.Saved? && c.site == DefaultTerm
  }

  ghost function PendingCount(parked: seq<Context>): nat {
    if parked == [] then 0 else (if Pending(parked[0]) then 1 else 0) + PendingCount(parked[1..])
  }

  lemma {:induction false} PendingUpdate(parked: seq<Context>, t: nat, c: Context)
    requires t < |parked|
    ensures PendingCount(parked[t := c])
         == PendingCount(parked) - (if Pending(parked[t]) then 1 else 0) + (if Pending(c) then 1 else 0)
  {
    if t == 0 {
      assert parked[t := c][1..] == parked[1..];
    } else {
      assert parked[t := c][1..] == parked[1..][t - 1 := c];
      PendingUpdate(parked[1..], t - 1, c);
    }
  }

  function Next(t: nat): nat {
    (t + 1) % SLOTS
  }

  predicate VidRight(m: Machine) {
    m.vidmap == VidEntry(m.running, m.visible)
  }

  ghost predicate SameEntry(c: Context, d: Context) {
    c.Saved? && d.Saved? && c.entry == d.entry && c.stack == d.stack
  }

  /** All three slots have a context; the running one's was just restored. */
  ghost predicate Resuming(m: Machine) {
    Slots(m) && Suspended(m.chains[m.running], m.parked[m.running])
  }

  /** What the restored code does next.  A context saved inside the very first
      switch to the default terminal is still in the middle of scheduler_step,
      which then marks the terminals as settled and gives the processor on.
      That moves no context and invents none. */
  ghost function Settle(m: Machine): (n: Machine)
    requires Resuming(m)
    ensures Resuming(n) && !Pending(n.parked[n.running])
    ensures n.chains == m.chains && n.visible == m.visible
    ensures forall t :: 0 <= t < SLOTS ==> SameEntry(n.parked[t], m.parked[t])
    ensures VidRight(m) ==> VidRight(n)
    ensures n.settled || n == m
    decreases PendingCount(m.parked)
  {
    var c := m.parked[m.running];
    if !Pending(c) then m
    else
      PendingUpdate(m.parked, m.running, Saved(c.entry, StackTop(Leaf(m, m.running)), Tick));
      Settle(Park(m.(settled := true), Next(m.running), c.entry, Tick))
  }

  ghost function TickStep(m: Machine, entry: int): (n: Machine)
    requires Wf(m)
    ensures Wf(n)
  {
    if !m.settled && m.visible != 0
    then Settle(Park(m.(visible := 0), 0, entry, DefaultTerm))
    else Settle(Park(m.(settled := true), Next(m.running), entry, Tick))
  }

  /** The keyboard is masked unless the running slot is the visible one. */
  ghost function AltFStep(m: Machine, entry: int, term: nat): (n: Machine)
    requires Wf(m) && term < SLOTS
    ensures Wf(n)
  {
    if m.running != m.visible || term == m.visible then m
    else Settle(Park(m.(visible := term), term, entry, Key))
  }

  predicate InUserImage(address: int) {
    0x8000000 <= address <= 0x8400000
  }

  ghost function VidmapStep(m: Machine, address: int): Machine {
    if InUserImage(address) then m.(vidmap := VIDEO + USER_4KB_FLAGS) else m
  }

  ghost predicate Possible(e: Event) {
    e.AltF? ==> e.term < SLOTS
  }

  ghost function Step(m: Machine, e: Event): (n: Machine)
    requires Wf(m) && Possible(e)
    ensures Wf(n)
  {
    match e
    case PitTick(entry) => TickStep(m, entry)
    case Exec(entry, loadable) => ExecStep(m, entry, loadable)
    case Halt(entry, _) => HaltStep(m, entry)
    case AltF(entry, term) => AltFStep(m, entry, term)
    case Vidmap(address) => VidmapStep(m, address)
  }

  // ---------------------------------------------------------------- what a step leaves alone

  /** An execute that fails changes nothing.  One that succeeds gives the running
      chain one process more, with the least free pid, and changes nothing else. */
  lemma ExecLaw(m: Machine, entry: int, loadable: bool)
    requires Wf(m)
    ensures var n, r := Step(m, Exec(entry, loadable)), m.running;
            if !loadable || (forall p :: 0 <= p < MAX_PROCESSES ==> Used(m.chains, p)) then n == m
            else
              && n == m.(chains := n.chains) && |n.chains[r]| == |m.chains[r]| + 1
              && (forall t :: 0 <= t < SLOTS ==> m.chains[t] <= n.chains[t] && (t != r ==> n.chains[t] == m.chains[t]))
              && !Used(m.chains, Leaf(n, r)) && (forall q :: 0 <= q < Leaf(n, r) ==> Used(m.chains, q))
              && HaltResumes(n) == Saved(entry, StackTop(Leaf(m, r)), Execute)
  {
    if loadable && FreePid(m) < MAX_PROCESSES { PushWf(m, entry); }
  }

  /** A halt takes the leaf away, or, of a root, leaves a root of the same pid
      that starts at this halt; nothing else changes. */
  lemma HaltLaw(m: Machine, entry: int, status: nat)
    requires Wf(m)
    ensures var n, r := Step(m, Halt(entry, status)), m.running;
            && n == m.(chains := n.chains)
            && (forall t :: 0 <= t < SLOTS && t != r ==> n.chains[t] == m.chains[t])
            && (if |m.chains[r]| == 1 then |n.chains[r]| == 1 && Leaf(n, r) == r && HaltResumes(n).Saved? && HaltResumes(n).entry == entry
                else |n.chains[r]| == |m.chains[r]| - 1 && n.chains[r] <= m.chains[r])
  {
    assert Chain(m.running, m.chains[m.running]);
  }

  /** While the running slot is not the visible one the keyboard is masked, and
      Alt-F does nothing; nor does Alt-F of the terminal that is shown. */
  lemma AltFLaw(m: Machine, entry: int, term: nat)
    requires Wf(m) && term < SLOTS
    ensures m.running != m.visible || term == m.visible ==> Step(m, AltF(entry, term)) == m
    ensures m.running == m.visible != term ==>
      var n := Step(m, AltF(entry, term));
      && n.visible == term && n.chains == m.chains
      && (!Pending(m.parked[term]) ==> n.running == term && n.settled == m.settled && n.parked[term] == m.parked[term])
  {
  }

  /** A tick before the terminals are settled shows the first one and gives it
      the processor, if it is not shown; any other gives it to the next slot. */
  lemma TickLaw(m: Machine, entry: int)
    requires Wf(m)
    ensures var n, first := Step(m, PitTick(entry)), !m.settled && m.visible != 0;
            var to := if first then 0 else (m.running + 1) % 3;
            && n.chains == m.chains && n.visible == (if first then 0 else m.visible)
            && (!first ==> n.settled)
            && (!Pending(m.parked[to]) ==> n.running == to && n.parked[to] == m.parked[to] && (first ==> !n.settled))
  {
  }

  /** Exactly which terminal is visible after a step: only a tick before the
      terminals are settled, or an Alt-F from the visible slot, changes it. */
  lemma VisibleIs(m: Machine, e: Event)
    requires Wf(m) && Possible(e)
    ensures Step(m, e).visible == if e.PitTick? && !m.settled then 0
                                  else if e.AltF? && m.running == m.visible then e.term
                                  else m.visible
  {
  }

  /** Event i of the run finds the terminals unsettled and is a tick, or is an
      Alt-F that finds the visible slot running. */
  ghost predicate ShowsAt(m: Machine, es: seq<Event>, i: nat)
    requires Wf(m) && AllPossible(es) && i < |es|
  {
    var before := Run(m, es[..i]);
    (es[i].PitTick? && !before.settled) || (es[i].AltF? && before.running == before.visible)
  }

  /** So over a run the visible terminal changes only if there is such an event. */
  lemma {:induction false} VisibleOverRuns(m: Machine, es: seq<Event>)
    requires Wf(m) && AllPossible(es) && forall i :: 0 <= i < |es| ==> !ShowsAt(m, es, i)
    ensures Run(m, es).visible == m.visible
    decreases |es|
  {
    hide Step;
    if es != [] {
      var n := |es| - 1;
      var before := es[..n];
      forall i | 0 <= i < n ensures !ShowsAt(m, before, i) {
        assert before[..i] == es[..i];
        assert !ShowsAt(m, es, i);
      }
      VisibleOverRuns(m, before);
      assert es == before + [es[n]];
      RunSnoc(m, before, es[n]);
      VisibleIs(Run(m, before), es[n]);
      assert !ShowsAt(m, es, n);
    }
  }

  ghost predicate AllPossible(es: seq<Event>) {
    forall i :: 0 <= i < |es| ==> Possible(es[i])
  }

  /** Any sequence of ticks, executes, halts, switches and vidmaps. */
  ghost function Run(m: Machine, es: seq<Event>): (n: Machine)
    requires Wf(m) && AllPossible(es)
    ensures Wf(n)
    decreases |es|
  {
    if es == [] then m else Run(Step(m, es[0]), es[1..])
  }

  lemma {:induction false} RunSnoc(m: Machine, es: seq<Event>, e: Event)
    requires Wf(m) && AllPossible(es) && Possible(e)
    ensures Run(m, es + [e]) == Step(Run(m, es), e)
    decreases |es|
  {
    if es == [] {
      assert ([] + [e])[1..] == [];
    } else {
      assert (es + [e])[1..] == es[1..] + [e];
      RunSnoc(Step(m, es[0]), es[1..], e);
    }
  }

  // ---------------------------------------------------------------- contexts

  predicate Switches(m: Machine, e: Event) {
    e.PitTick? || (e.AltF? && m.running == m.visible && e.term != m.visible)
  }

  /** A step leaves a slot without the processor alone: its processes stay and
      its parked context still comes from the same kernel entry. */
  lemma StepElsewhere(m: Machine, e: Event, t: nat)
    requires Wf(m) && Possible(e) && t < SLOTS && t != m.running
    ensures Step(m, e).chains[t] == m.chains[t]
    ensures SameEntry(Step(m, e).parked[t], m.parked[t])
  {
    if Switches(m, e) { SwitchKeeps(m, e, t); }
  }

  /** A step that takes the processor away parks exactly the entry that
      interrupted the running leaf, on that leaf's own kernel stack. */
  lemma SwitchKeeps(m: Machine, e: Event, t: nat)
    requires Wf(m) && Possible(e) && Switches(m, e) && t < SLOTS
    ensures Step(m, e).chains == m.chains
    ensures SameEntry(Step(m, e).parked[t],
                      if t == m.running then Saved(e.entry, StackTop(Leaf(m, t)), Tick) else m.parked[t])
  {
  }

  /** Slot t does not have the processor before any of the events. */
  ghost predicate Away(m: Machine, es: seq<Event>, t: nat)
    requires Wf(m) && AllPossible(es)
    decreases |es|
  {
    es == [] || (m.running != t && Away(Step(m, es[0]), es[1..], t))
  }

  lemma {:induction false} RunElsewhere(m: Machine, es: seq<Event>, t: nat)
    requires Wf(m) && AllPossible(es) && t < SLOTS && Away(m, es, t)
    requires m.parked[t].Saved?
    ensures Run(m, es).chains[t] == m.chains[t]
    ensures SameEntry(Run(m, es).parked[t], m.parked[t])
    decreases |es|
  {
    if es != [] {
      StepElsewhere(m, es[0], t);
      RunElsewhere(Step(m, es[0]), es[1..], t);
    }
  }

  /** Context integrity.  Slot t loses the processor in step e; whatever runs
      until it gets it back, it gets back the context that step e saved, on the
      kernel stack of the process that was interrupted, which is still the leaf
      of the very same chain. */
  lemma ContextIntegrity(m: Machine, e: Event, es: seq<Event>, t: nat)
    requires Wf(m) && Possible(e) && AllPossible(es) && m.running == t
    requires Step(m, e).running != t
    requires Away(Step(m, e), es, t) && Run(Step(m, e), es).running == t
    ensures Switches(m, e)
    ensures Run(Step(m, e), es).chains[t] == m.chains[t]
    ensures SameEntry(Run(Step(m, e), es).parked[t], Saved(e.entry, StackTop(Leaf(m, t)), Tick))
  {
    SwitchKeeps(m, e, t);
    RunElsewhere(Step(m, e), es, t);
  }

  // ---------------------------------------------------------------- last in, first out

  /** Slot t has more than d processes, now and after every event. */
  ghost predicate StaysAbove(m: Machine, es: seq<Event>, t: nat, d: nat)
    requires Wf(m) && AllPossible(es) && t < SLOTS
    decreases |es|
  {
    |m.chains[t]| > d && (es == [] || StaysAbove(Step(m, es[0]), es[1..], t, d))
  }

  lemma StepPrefix(m: Machine, e: Event, t: nat, d: nat)
    requires Wf(m) && Possible(e) && t < SLOTS && 1 <= d < |m.chains[t]|
    requires d < |Step(m, e).chains[t]|
    ensures Step(m, e).chains[t][..d + 1] == m.chains[t][..d + 1]
  {
    if t != m.running {
      StepElsewhere(m, e, t);
    } else if Switches(m, e) {
      SwitchKeeps(m, e, t);
    }
  }

  lemma {:induction false} RunPrefix(m: Machine, es: seq<Event>, t: nat, d: nat)
    requires Wf(m) && AllPossible(es) && t < SLOTS && d >= 1 && StaysAbove(m, es, t, d)
    ensures |Run(m, es).chains[t]| > d
    ensures Run(m, es).chains[t][..d + 1] == m.chains[t][..d + 1]
    decreases |es|
  {
    if es != [] {
      StepPrefix(m, es[0], t, d);
      RunPrefix(Step(m, es[0]), es[1..], t, d);
    }
  }

  /** The context a halting process leaves to its creator. */
  ghost function HaltResumes(m: Machine): Context
    requires Wf(m)
  {
    m.chains[m.running][|m.chains[m.running]| - 1].resume
  }

  /** Execute creates c; then anything happens, here and on other terminals,
      that does not halt c; when c is the leaf again and halts, the processor
      resumes at the context that very execute saved, on the parent's kernel
      stack, and slot t has exactly the processes it had before the execute. */
  lemma LastInFirstOut(m: Machine, entry: int, es: seq<Event>, haltEntry: int)
    requires Wf(m) && FreePid(m) < MAX_PROCESSES && AllPossible(es)
    requires StaysAbove(ExecStep(m, entry, true), es, m.running, |m.chains[m.running]|)
    requires var n := Run(ExecStep(m, entry, true), es);
             n.running == m.running && |n.chains[n.running]| == |m.chains[m.running]| + 1
    ensures var n := Run(ExecStep(m, entry, true), es);
            && Leaf(n, n.running) == FreePid(m)
            && HaltResumes(n) == Saved(entry, StackTop(Leaf(m, m.running)), Execute)
            && HaltStep(n, haltEntry).chains[m.running] == m.chains[m.running]
  {
    var t, d := m.running, |m.chains[m.running]|;
    var child := ExecStep(m, entry, true);
    RunPrefix(child, es, t, d);
    var n := Run(child, es);
    assert n.chains[t] == n.chains[t][..d + 1] == child.chains[t];
    assert n.chains[t][..d] == m.chains[t];
  }

  // ---------------------------------------------------------------- video and time

  /** A granted vidmap maps the visible page, whichever slot runs; nothing else
      but a context switch changes the entry, and a switch maps the page of the
      slot that gets the processor. */
  lemma VidmapEntry(m: Machine, e: Event)
    requires Wf(m) && Possible(e)
    ensures e.Vidmap? && 0x800_0000 <= e.address <= 0x840_0000 ==> Step(m, e).vidmap == 0xB8007
    ensures !(e.Vidmap? && 0x800_0000 <= e.address <= 0x840_0000) && !Switches(m, e) ==> Step(m, e).vidmap == m.vidmap
    ensures Switches(m, e) ==>
      var n := Step(m, e);
      n.vidmap == if n.running == n.visible then 0xB8007 else 0xB9007 + n.running * 0x1000
  {
  }

  /** Exactly when the user's video page is the page of the running slot's
      screen: every context switch makes it so, a granted vidmap makes it so if
      and only if the running slot is the visible one, and nothing else
      changes it. */
  lemma VidmapExact(m: Machine, e: Event)
    requires Wf(m) && Possible(e)
    ensures VidRight(Step(m, e)) <==>
      (if e.Vidmap? && InUserImage(e.address) then m.running == m.visible
       else Switches(m, e) || VidRight(m))
  {
  }

  ghost predicate Steady(m: Machine) {
    Wf(m) && m.settled && forall t :: 0 <= t < SLOTS ==> !Pending(m.parked[t])
  }

  lemma SteadyTick(m: Machine, entry: int)
    requires Steady(m)
    ensures Steady(TickStep(m, entry)) && TickStep(m, entry).running == Next(m.running)
  {
  }

  function Ticks(entries: seq<int>): seq<Event> {
    seq(|entries|, i requires 0 <= i < |entries| => PitTick(entries[i]))
  }

  /** Once no context is left over from boot, ticks serve the slots in turn. */
  lemma {:induction false} RoundRobin(m: Machine, entries: seq<int>)
    requires Steady(m)
    ensures Steady(Run(m, Ticks(entries)))
    ensures Run(m, Ticks(entries)).running == Later(m.running, |entries|)
    decreases |entries|
  {
    if entries == [] {
      assert Ticks(entries) == [];
    } else {
      assert Ticks(entries)[0] == PitTick(entries[0]);
      assert Ticks(entries)[1..] == Ticks(entries[1..]);
      SteadyTick(m, entries[0]);
      RoundRobin(Step(m, Ticks(entries)[0]), entries[1..]);
      LaterNext(m.running, |entries| - 1);
    }
  }

  function Later(t: nat, n: nat): nat {
    (t + n) % SLOTS
  }

  lemma LaterNext(t: nat, n: nat)
    requires t < SLOTS
    ensures Later(Next(t), n) == Later(t, n + 1)
  {
  }

  /** The state in which the third boot tick leaves the machine. */
  ghost predicate Booted(m: Machine) {
    && Wf(m) && m.running == m.visible == 2 && !m.settled
    && (forall t :: 0 <= t < SLOTS ==> |m.chains[t]| == 1)
    && !Pending(m.parked[0]) && !Pending(m.parked[1])
  }

  /** Three more ticks show the first terminal and leave nothing over: the
      last one resumes the interrupted switch of slot 2 and passes on to 0. */
  lemma BootSettles(m: Machine, a: int, b: int, c: int)
    requires Booted(m)
    ensures var n := Run(m, [PitTick(a), PitTick(b), PitTick(c)]);
            Steady(n) && n.running == n.visible == 0 && n.chains == m.chains
  {
    var one := Step(m, PitTick(a));
    var two := Step(one, PitTick(b));
    assert one == Park(m.(visible := 0), 0, a, DefaultTerm);
    assert two == Park(one.(settled := true), 1, b, Tick);
    var handed := Park(two, 2, c, Tick);
    var three := Park(handed, 0, a, Tick);
    assert three == Settle(handed) by {
      assert !Pending(three.parked[0]);
    }
    calc {
      Run(m, [PitTick(a), PitTick(b), PitTick(c)]);
      { assert [PitTick(a), PitTick(b), PitTick(c)][1..] == [PitTick(b), PitTick(c)]; }
      Run(one, [PitTick(b), PitTick(c)]);
      { assert [PitTick(b), PitTick(c)][1..] == [PitTick(c)]; }
      Run(two, [PitTick(c)]);
      { assert [PitTick(c)][1..] == []; }
      three;
    }
  }

  lemma FreePidIs(m: Machine, p: nat)
    requires p < MAX_PROCESSES && !Used(m.chains, p)
    requires forall q :: 0 <= q < p ==> Used(m.chains, q)
    ensures FreePid(m) == p
  {
  }

  lemma ExecPushes(m: Machine, entry: int, p: nat)
    requires Steady(m) && m.running == m.visible && p < MAX_PROCESSES && !Used(m.chains, p)
    requires forall q :: 0 <= q < p ==> Used(m.chains, q)
    ensures var n, r := Step(m, Exec(entry, true)), m.running;
            && Steady(n) && n.running == n.visible == r
            && |n.chains[r]| == |m.chains[r]| + 1 && n.chains[r][..|m.chains[r]|] == m.chains[r]
            && n.chains[r][|m.chains[r]|].pid == p
            && forall t :: 0 <= t < SLOTS && t != r ==> n.chains[t] == m.chains[t]
  {
    FreePidIs(m, p);
  }

  lemma AltFShows(m: Machine, entry: int, t: nat)
    requires Steady(m) && m.running == m.visible && t < SLOTS && t != m.visible
    ensures var n := Step(m, AltF(entry, t)); Steady(n) && n.running == n.visible == t && n.chains == m.chains
  {
  }

  /** Slots with one, two, three... processes whose pids are listed. */
  ghost predicate PidsAre(frames: seq<Frame>, pids: seq<nat>) {
    |frames| == |pids| && forall j :: 0 <= j < |pids| ==> frames[j].pid == pids[j]
  }

  ghost predicate ChainsAre(m: Machine, a: seq<nat>, b: seq<nat>, c: seq<nat>) {
    |m.chains| == SLOTS && PidsAre(m.chains[0], a) && PidsAre(m.chains[1], b) && PidsAre(m.chains[2], c)
  }

  lemma UsedIn(m: Machine, a: seq<nat>, b: seq<nat>, c: seq<nat>, p: nat)
    requires ChainsAre(m, a, b, c)
    ensures Used(m.chains, p) <==> p in a || p in b || p in c
  {
    if p in a { var j :| 0 <= j < |a| && a[j] == p; assert At(m.chains, 0, j, p); }
    if p in b { var j :| 0 <= j < |b| && b[j] == p; assert At(m.chains, 1, j, p); }
    if p in c { var j :| 0 <= j < |c| && c[j] == p; assert At(m.chains, 2, j, p); }
  }

  lemma PidsPush(frames: seq<Frame>, more: seq<Frame>, pids: seq<nat>, p: nat)
    requires PidsAre(frames, pids) && |more| == |frames| + 1 && more[..|frames|] == frames && more[|frames|].pid == p
    ensures PidsAre(more, pids + [p])
  {
    assert forall j :: 0 <= j < |frames| ==> more[..|frames|][j] == more[j];
  }

  lemma FirstUnlisted(m: Machine, a: seq<nat>, b: seq<nat>, c: seq<nat>, p: nat)
    requires ChainsAre(m, a, b, c) && p !in a + b + c && forall q :: 0 <= q < p ==> q in a + b + c
    ensures !Used(m.chains, p) && forall q :: 0 <= q < p ==> Used(m.chains, q)
  {
    UsedIn(m, a, b, c, p);
    forall q | 0 <= q < p ensures Used(m.chains, q) {
      UsedIn(m, a, b, c, q);
      assert q in a + b + c;
    }
  }

  lemma ExecPid(m: Machine, entry: int, a: seq<nat>, b: seq<nat>, c: seq<nat>, p: nat)
    requires Steady(m) && m.running == m.visible && ChainsAre(m, a, b, c)
    requires p < MAX_PROCESSES && p !in a + b + c && forall q :: 0 <= q < p ==> q in a + b + c
    ensures var n, r := Step(m, Exec(entry, true)), m.running;
            && Steady(n) && n.running == n.visible == r
            && ChainsAre(n, if r == 0 then a + [p] else a, if r == 1 then b + [p] else b, if r == 2 then c + [p] else c)
  {
    hide TickStep, AltFStep, ExecStep, Settle, PidsAre;
    FirstUnlisted(m, a, b, c, p);
    ExecPushes(m, entry, p);
    var r := m.running;
    PidsPush(m.chains[r], Step(m, Exec(entry, true)).chains[r], if r == 0 then a else if r == 1 then b else c, p);
  }

  /** Parent pids are not below child pids: slot 0 executes 3, slot 1 executes
      4, 3 halts, and slot 1's next process is 3, a child of 4. */
  lemma ParentAboveChild(m: Machine, entry: int)
    requires Steady(m) && m.running == m.visible == 0 && ChainsAre(m, [0], [1], [2])
    ensures var e, h := Exec(entry, true), Halt(entry, 0);
            ChainsAre(Step(Step(Step(Step(Step(Step(Step(m, e), AltF(entry, 1)), e), AltF(entry, 0)), h),
                                AltF(entry, 1)), e), [0], [1, 4, 3], [2])
  {
    hide TickStep, AltFStep, ExecStep, Settle, Forest;
    ExecPid(m, entry, [0], [1], [2], 3);
    var m1 := Step(m, Exec(entry, true));
    AltFShows(m1, entry, 1);
    var m2 := Step(m1, AltF(entry, 1));
    ExecPid(m2, entry, [0, 3], [1], [2], 4);
    var m3 := Step(m2, Exec(entry, true));
    AltFShows(m3, entry, 0);
    var m4 := Step(m3, AltF(entry, 0));
    var m5 := Step(m4, Halt(entry, 0));
    AltFShows(m5, entry, 1);
    var m6 := Step(m5, AltF(entry, 1));
    ExecPid(m6, entry, [0], [1, 4], [2], 3);
  }
}
