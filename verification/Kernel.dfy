/**
 The kernel's process tables and the code that changes them: execute, halt,
 the scheduler and terminal switching.  The ghost field `m` is the ideal
 machine of `Processes`; `Valid` says how the tables represent it, and every
 operation is proved to be the step of that machine.
*/
module Kernel {
  import opened Processes

  const KEYBOARD_IRQ: bv8 := 1
  const NUM_IRQS: bv8 := 8
  const HALT_EXCEPTION: int := 256

  datatype Link = Null | To(pcb: nat)

  /** running, pid, parent and the esp/ebp pair of a PCB. */
  datatype Pcb = Pcb(running: bool, pid: nat, parent: Link, context: Context)

  datatype ProcessT = ProcessT(pcb: nat, saved: Context, terminal: nat)

  /** How the processor goes on: back to the caller, into a fresh program, at a
      context a context switch restored, or at the return label of execute. */
  datatype Outcome =
    | Returned(value: int)
    | Entered(pid: nat)
    | Switched(context: Context)
    | Resumed(context: Context, value: int)

  /** How the processor goes on after event e: a switch restores what is parked
      in the slot that gets the processor, a halting child resumes its execute. */
  ghost function OutcomeOf(m: Machine, e: Event): Outcome
    requires Wf(m) && Possible(e)
  {
    match e
    case Exec(_, loadable) =>
      if !loadable then Returned(-1)
      else if FreePid(m) == MAX_PROCESSES then Returned(0)
      else Entered(FreePid(m))
    case Halt(_, status) =>
      if |m.chains[m.running]| == 1 then Entered(m.running)
      else Resumed(HaltResumes(m), if status == HALT_EXCEPTION then HALT_EXCEPTION else status % 256)
    case Vidmap(address) => Returned(if InUserImage(address) then 0 else -1)
    case _ => if Switches(m, e) then Switched(Step(m, e).parked[Step(m, e).running]) else Returned(0)
  }

  /** A call that returns to its caller leaves everything but the video page's
      entry; one that enters a program leaves it as the running leaf; a switch
      restores what is parked in the slot it runs; a halt that resumes takes the
      leaf away and resumes what its creator saved. */
  lemma OutcomeLaw(m: Machine, e: Event)
    requires Wf(m) && Possible(e)
    ensures var n, r := Step(m, e), m.running;
            match OutcomeOf(m, e)
            case Returned(_) => n == m.(vidmap := n.vidmap) && (!e.Vidmap? ==> n == m)
            case Entered(p) => n.running == r && Leaf(n, r) == p && (p == r || !Used(m.chains, p))
            case Switched(c) => n.chains == m.chains && c == n.parked[n.running] && (e.PitTick? || e.AltF?)
            case Resumed(c, _) => n == m.(chains := n.chains) && m.chains[r] == n.chains[r] + [Frame(Leaf(m, r), c)]
    ensures e.Exec? ==> (OutcomeOf(m, e).Returned? <==> Step(m, e) == m)
  {
    hide ExecStep, HaltStep, AltFStep, TickStep, Popped, Chain, Distinct, Park;
    match e
    case Exec(entry, loadable) =>
      ExecLaw(m, entry, loadable);
      FreePidIsNotARoot(m);
    case Halt(entry, status) =>
      HaltLaw(m, entry, status);
      var frames := m.chains[m.running];
      assert |frames| > 1 ==> frames == frames[..|frames| - 1] + [frames[|frames| - 1]];
    case AltF(entry, term) => AltFLaw(m, entry, term);
    case PitTick(entry) => TickLaw(m, entry);
    case Vidmap(_) =>
  }

  /** The outcomes of a run, one for each event. */
  ghost function Outcomes(m: Machine, es: seq<Event>): (os: seq<Outcome>)
    requires Wf(m) && AllPossible(es)
    ensures |os| == |es|
    decreases |es|
  {
    if es == [] then [] else [OutcomeOf(m, es[0])] + Outcomes(Step(m, es[0]), es[1..])
  }

  lemma {:induction false} OutcomesSnoc(m: Machine, es: seq<Event>, e: Event)
    requires Wf(m) && AllPossible(es) && Possible(e)
    ensures Outcomes(m, es + [e]) == Outcomes(m, es) + [OutcomeOf(Run(m, es), e)]
    decreases |es|
  {
    hide OutcomeOf, Step;
    if es == [] {
      assert ([] + [e])[1..] == [];
    } else {
      assert (es + [e])[1..] == es[1..] + [e];
      OutcomesSnoc(Step(m, es[0]), es[1..], e);
    }
  }

  lemma {:induction false} LastOutcome(m: Machine, es: seq<Event>, t: nat)
    requires Wf(m) && AllPossible(es) && es != [] && Away(m, es, t) && Run(m, es).running == t
    ensures Outcomes(m, es)[|es| - 1] == Switched(Run(m, es).parked[t])
    decreases |es|
  {
    if |es| == 1 {
      assert es[1..] == [];
    } else {
      LastOutcome(Step(m, es[0]), es[1..], t);
    }
  }

  /** Slot t is interrupted by e.  When a later event gives it the processor
      back, the context restored by that event is the one e interrupted. */
  lemma RestoredIsSaved(m: Machine, e: Event, es: seq<Event>, t: nat)
    requires Wf(m) && Possible(e) && AllPossible(es) && m.running == t
    requires Step(m, e).running != t
    requires Away(Step(m, e), es, t) && Run(Step(m, e), es).running == t
    ensures es != [] && Switches(m, e)
    ensures var o := Outcomes(m, [e] + es)[|es|];
            o.Switched? && SameEntry(o.context, Saved(e.entry, StackTop(Leaf(m, t)), Tick))
  {
    hide Step, OutcomeOf;
    ContextIntegrity(m, e, es, t);
    LastOutcome(Step(m, e), es, t);
    assert ([e] + es)[1..] == es;
  }

  /** The halt of a child resumes its creator at the execute that created it,
      with the status that execute returns. */
  lemma HaltResumesExecute(m: Machine, entry: int, es: seq<Event>, haltEntry: int, status: nat)
    requires Wf(m) && FreePid(m) < MAX_PROCESSES && AllPossible(es)
    requires StaysAbove(ExecStep(m, entry, true), es, m.running, |m.chains[m.running]|)
    requires var n := Run(ExecStep(m, entry, true), es);
             n.running == m.running && |n.chains[n.running]| == |m.chains[m.running]| + 1
    ensures var events := [Exec(entry, true)] + es + [Halt(haltEntry, status)];
            && Outcomes(m, events)[0] == Entered(FreePid(m))
            && Outcomes(m, events)[|events| - 1]
               == Resumed(Saved(entry, StackTop(Leaf(m, m.running)), Execute), if status == 256 then 256 else status % 256)
  {
    hide ExecStep, HaltStep, TickStep, AltFStep, VidmapStep, StaysAbove, FreePid, HaltResumes;
    LastInFirstOut(m, entry, es, haltEntry);
    var events := [Exec(entry, true)] + es;
    assert events[1..] == es;
    OutcomesSnoc(m, events, Halt(haltEntry, status));
  }

  predicate Masked(mask: bv8, irq: bv8)
    requires irq < NUM_IRQS
  {
    (mask >> irq) & 1 == 1
  }

  lemma ClearBit(mask: bv8, irq: bv8, i: bv8)
    requires irq < NUM_IRQS && i < NUM_IRQS
    ensures Masked(mask & !(1 << irq), i) == (i != irq && Masked(mask, i))
  {
  }

  lemma SetBit(mask: bv8, irq: bv8, i: bv8)
    requires irq < NUM_IRQS && i < NUM_IRQS
    ensures Masked(mask | (1 << irq), i) == (i == irq || Masked(mask, i))
  {
  }

  /** The PCB and the scheduler's record of the process at place j of chain t. */
  ghost predicate Row(chains: seq<seq<Frame>>, pcbs: seq<Pcb>, procs: seq<ProcessT>, t: nat, j: nat)
    requires t < |chains| && j < |chains[t]| && chains[t][j].pid < |pcbs| && chains[t][j].pid < |procs|
  {
    var f := chains[t][j];
    && pcbs[f.pid].running
    && pcbs[f.pid].pid == f.pid
    && pcbs[f.pid].parent == (if j == 0 then Null else To(chains[t][j - 1].pid))
    && pcbs[f.pid].context == f.resume
    && procs[f.pid].pcb == f.pid
    && procs[f.pid].terminal == t
  }

  /** How the tables represent the chains of a machine and the contexts parked
      in the slots that do not have the processor. */
  ghost predicate Represents(m: Machine, pcbs: seq<Pcb>, leaves: seq<nat>, procs: seq<ProcessT>)
    requires Slots(m)
  {
    && |pcbs| == |procs| == MAX_PROCESSES && |leaves| == SLOTS
    && (forall t, j, p :: At(m.chains, t, j, p) ==> Row(m.chains, pcbs, procs, t, j))
    && (forall p {:trigger Used(m.chains, p)} :: 0 <= p < MAX_PROCESSES && pcbs[p].running ==> Used(m.chains, p))
    && (forall t :: 0 <= t < SLOTS ==> leaves[t] == Leaf(m, t))
    && (forall t :: 0 <= t < SLOTS && t != m.running ==> procs[leaves[t]].saved == m.parked[t])
  }

  lemma SettledRepresents(m: Machine, pcbs: seq<Pcb>, leaves: seq<nat>, procs: seq<ProcessT>)
    requires Slots(m) && Represents(m, pcbs, leaves, procs)
    ensures Represents(m.(settled := true), pcbs, leaves, procs)
  {
  }

  lemma Handover(m: Machine, pcbs: seq<Pcb>, leaves: seq<nat>, procs: seq<ProcessT>, to: nat, vid: int)
    requires Slots(m) && Represents(m, pcbs, leaves, procs) && to < SLOTS
    requires Suspended(m.chains[m.running], m.parked[m.running])
    requires procs[leaves[m.running]].saved == m.parked[m.running]
    ensures Slots(m.(running := to, vidmap := vid)) && Represents(m.(running := to, vidmap := vid), pcbs, leaves, procs)
  {
  }

  /** A process and its ancestors, root first. */
  ghost predicate Ancestry(pcbs: seq<Pcb>, walk: seq<nat>) {
    && |walk| > 0
    && (forall j :: 0 <= j < |walk| ==> walk[j] < |pcbs|)
    && pcbs[walk[0]].parent == Null
    && (forall j :: 1 <= j < |walk| ==> pcbs[walk[j]].parent == To(walk[j - 1]))
  }

  /** What a successful execute by the last process of `walk` leaves behind. */
  ghost predicate SpawnedAt(pcbs: seq<Pcb>, leaves: seq<nat>, procs: seq<ProcessT>, walk: seq<nat>, stack: int, entry: int,
                            p: nat, pcbs': seq<Pcb>, leaves': seq<nat>, procs': seq<ProcessT>)
    requires |pcbs| == |procs| == MAX_PROCESSES && Ancestry(pcbs, walk)
  {
    var parent := walk[|walk| - 1];
    && p < MAX_PROCESSES && !pcbs[p].running && (forall q :: 0 <= q < p ==> pcbs[q].running)
    && pcbs' == pcbs[p := Pcb(true, p, if p < SLOTS then Null else To(parent), Saved(entry, stack, Execute))]
    && (p < SLOTS ==> leaves' == leaves && procs' == procs)
    && (p >= SLOTS ==>
          && procs' == procs[p := ProcessT(p, Uninitialised, pcbs'[walk[0]].pid)]
          && leaves' == ReplaceFirst(leaves, pcbs'[parent].pid, p))
  }

  function ReplaceFirst(s: seq<nat>, x: nat, y: nat): seq<nat> {
    if s == [] then [] else if s[0] == x then [y] + s[1..] else [s[0]] + ReplaceFirst(s[1..], x, y)
  }

  lemma {:induction false} ReplaceFirstAt(s: seq<nat>, x: nat, y: nat, i: nat)
    requires i <= |s| && x !in s[..i] && (i < |s| ==> s[i] == x)
    ensures ReplaceFirst(s, x, y) == if i < |s| then s[i := y] else s
  {
    if i == 0 {
      assert s != [] ==> [y] + s[1..] == s[0 := y];
    } else {
      assert s[0] == s[..i][0] && s[1..][..i - 1] == s[..i][1..];
      ReplaceFirstAt(s[1..], x, y, i - 1);
    }
  }

  ghost function Pids(frames: seq<Frame>): seq<nat> {
    seq(|frames|, j requires 0 <= j < |frames| => frames[j].pid)
  }

  /** The running leaf's ancestors in the tables are its chain. */
  lemma ChainIsAncestry(m: Machine, pcbs: seq<Pcb>, leaves: seq<nat>, procs: seq<ProcessT>)
    requires Slots(m) && Represents(m, pcbs, leaves, procs)
    ensures Ancestry(pcbs, Pids(m.chains[m.running]))
  {
    var frames := m.chains[m.running];
    forall j | 0 <= j < |frames| ensures At(m.chains, m.running, j, frames[j].pid) {
    }
  }

  lemma FreeSlotIsFreePid(m: Machine, pcbs: seq<Pcb>, leaves: seq<nat>, procs: seq<ProcessT>, p: nat)
    requires Slots(m) && Represents(m, pcbs, leaves, procs)
    requires p < MAX_PROCESSES && !pcbs[p].running && forall q :: 0 <= q < p ==> pcbs[q].running
    ensures FreePid(m) == p
  {
    assert !Used(m.chains, p);
    FreePidIs(m, p);
  }

  lemma ReplaceLeaf(m: Machine, leaves: seq<nat>, p: nat)
    requires Slots(m) && |leaves| == SLOTS && forall t :: 0 <= t < SLOTS ==> leaves[t] == Leaf(m, t)
    ensures ReplaceFirst(leaves, Leaf(m, m.running), p) == leaves[m.running := p]
  {
    forall t | 0 <= t < m.running ensures leaves[t] != Leaf(m, m.running) {
      LeavesDiffer(m, t, m.running);
    }
    ReplaceFirstAt(leaves, Leaf(m, m.running), p, m.running);
  }

  /** What Spawn did, in terms of the machine. */
  ghost predicate ExecTables(m: Machine, entry: int, pcbs: seq<Pcb>, leaves: seq<nat>, procs: seq<ProcessT>,
                             pcbs': seq<Pcb>, leaves': seq<nat>, procs': seq<ProcessT>)
    requires Wf(m) && |pcbs| == |procs| == MAX_PROCESSES && |leaves| == SLOTS && FreePid(m) < MAX_PROCESSES
  {
    var p, leaf := FreePid(m), Leaf(m, m.running);
    && pcbs' == pcbs[p := Pcb(true, p, To(leaf), Saved(entry, StackTop(leaf), Execute))]
    && procs' == procs[p := ProcessT(p, Uninitialised, m.running)]
    && leaves' == leaves[m.running := p]
  }

  lemma SpawnIsExec(m: Machine, entry: int, pcbs: seq<Pcb>, leaves: seq<nat>, procs: seq<ProcessT>,
                    p: nat, pcbs': seq<Pcb>, leaves': seq<nat>, procs': seq<ProcessT>)
    requires Wf(m) && Represents(m, pcbs, leaves, procs) && Ancestry(pcbs, Pids(m.chains[m.running]))
    requires SpawnedAt(pcbs, leaves, procs, Pids(m.chains[m.running]), StackTop(Leaf(m, m.running)), entry,
                       p, pcbs', leaves', procs')
    ensures p == FreePid(m) && ExecTables(m, entry, pcbs, leaves, procs, pcbs', leaves', procs')
  {
    FreeSlotIsFreePid(m, pcbs, leaves, procs, p);
    FreePidIsNotARoot(m);
    var r, leaf := m.running, Leaf(m, m.running);
    assert pcbs[leaf].running && pcbs[leaf].pid == leaf by {
      assert At(m.chains, r, |m.chains[r]| - 1, leaf);
    }
    assert pcbs[r].running && pcbs[r].pid == r by {
      RootsUsed(m.chains, r);
    }
    ReplaceLeaf(m, leaves, p);
  }

  lemma ExecRows(m: Machine, entry: int, pcbs: seq<Pcb>, leaves: seq<nat>, procs: seq<ProcessT>,
                 pcbs': seq<Pcb>, leaves': seq<nat>, procs': seq<ProcessT>)
    requires Wf(m) && Represents(m, pcbs, leaves, procs) && FreePid(m) < MAX_PROCESSES
    requires ExecTables(m, entry, pcbs, leaves, procs, pcbs', leaves', procs')
    ensures var n := ExecStep(m, entry, true);
            && (forall t, j, q :: At(n.chains, t, j, q) ==> Row(n.chains, pcbs', procs', t, j))
            && (forall q {:trigger Used(n.chains, q)} :: 0 <= q < MAX_PROCESSES && pcbs'[q].running ==> Used(n.chains, q))
  {
    var p, n, r := FreePid(m), ExecStep(m, entry, true), m.running;
    forall t, j, q | At(n.chains, t, j, q) ensures Row(n.chains, pcbs', procs', t, j) {
      PushAt(m, entry, t, j, q);
    }
    forall q | 0 <= q < MAX_PROCESSES && pcbs'[q].running ensures Used(n.chains, q) {
      if q == p {
        PushAt(m, entry, r, |m.chains[r]|, p);
      } else {
        assert Used(m.chains, q);
        var t, j :| At(m.chains, t, j, q);
        PushAt(m, entry, t, j, q);
      }
    }
  }

  lemma ExecRepresents(m: Machine, entry: int, pcbs: seq<Pcb>, leaves: seq<nat>, procs: seq<ProcessT>,
                       pcbs': seq<Pcb>, leaves': seq<nat>, procs': seq<ProcessT>)
    requires Wf(m) && Represents(m, pcbs, leaves, procs) && FreePid(m) < MAX_PROCESSES
    requires ExecTables(m, entry, pcbs, leaves, procs, pcbs', leaves', procs')
    ensures Represents(ExecStep(m, entry, true), pcbs', leaves', procs')
    ensures Leaf(ExecStep(m, entry, true), m.running) == FreePid(m)
  {
    ExecRows(m, entry, pcbs, leaves, procs, pcbs', leaves', procs');
    forall t | 0 <= t < SLOTS && t != m.running ensures leaves'[t] != FreePid(m) {
      assert At(m.chains, t, |m.chains[t]| - 1, leaves[t]);
    }
  }

  lemma SpawnRepresents(m: Machine, entry: int, pcbs: seq<Pcb>, leaves: seq<nat>, procs: seq<ProcessT>,
                        p: nat, pcbs': seq<Pcb>, leaves': seq<nat>, procs': seq<ProcessT>)
    requires Wf(m) && Represents(m, pcbs, leaves, procs) && Ancestry(pcbs, Pids(m.chains[m.running]))
    requires SpawnedAt(pcbs, leaves, procs, Pids(m.chains[m.running]), StackTop(Leaf(m, m.running)), entry,
                       p, pcbs', leaves', procs')
    ensures p == FreePid(m) < MAX_PROCESSES && Leaf(ExecStep(m, entry, true), m.running) == p
    ensures Represents(ExecStep(m, entry, true), pcbs', leaves', procs')
  {
    SpawnIsExec(m, entry, pcbs, leaves, procs, p, pcbs', leaves', procs');
    ExecRepresents(m, entry, pcbs, leaves, procs, pcbs', leaves', procs');
  }

  lemma PopRepresents(m: Machine, entry: int, pcbs: seq<Pcb>, leaves: seq<nat>, procs: seq<ProcessT>,
                      pcbs': seq<Pcb>, leaves': seq<nat>)
    requires Wf(m) && Represents(m, pcbs, leaves, procs) && |m.chains[m.running]| > 1
    requires var frames := m.chains[m.running];
             && pcbs' == pcbs[Leaf(m, m.running) := pcbs[Leaf(m, m.running)].(running := false)]
             && leaves' == leaves[m.running := frames[|frames| - 2].pid]
    ensures Represents(HaltStep(m, entry), pcbs', leaves', procs)
  {
    var n := HaltStep(m, entry);
    forall t, j, q | At(n.chains, t, j, q) ensures Row(n.chains, pcbs', procs, t, j) {
      PopAt(m, entry, t, j, q);
    }
    forall q | 0 <= q < MAX_PROCESSES && pcbs'[q].running ensures Used(n.chains, q) {
      assert Used(m.chains, q);
      var t, j :| At(m.chains, t, j, q);
      PopAt(m, entry, t, j, q);
    }
  }

  /** What the tables say about a leaf that is not a root, and its parent. */
  lemma LeafAndParent(m: Machine, pcbs: seq<Pcb>, leaves: seq<nat>, procs: seq<ProcessT>)
    requires Wf(m) && Represents(m, pcbs, leaves, procs) && |m.chains[m.running]| > 1
    ensures var frames := m.chains[m.running];
            var child, parent := frames[|frames| - 1].pid, frames[|frames| - 2].pid;
            && SLOTS <= child < MAX_PROCESSES && parent < MAX_PROCESSES && child != parent
            && pcbs[child].parent == To(parent) && pcbs[parent].pid == parent
            && pcbs[child].context == HaltResumes(m)
            && ReplaceFirst(leaves, child, parent) == leaves[m.running := parent]
            && Leaf(HaltStep(m, 0), m.running) == parent
  {
    var frames := m.chains[m.running];
    assert Chain(m.running, frames);
    assert At(m.chains, m.running, |frames| - 1, frames[|frames| - 1].pid);
    assert At(m.chains, m.running, |frames| - 2, frames[|frames| - 2].pid);
    ReplaceLeaf(m, leaves, frames[|frames| - 2].pid);
  }

  lemma RootsRun(m: Machine, pcbs: seq<Pcb>, leaves: seq<nat>, procs: seq<ProcessT>)
    requires Slots(m) && Represents(m, pcbs, leaves, procs)
    ensures forall t :: 0 <= t < SLOTS ==> pcbs[t].running && pcbs[t].pid == t && pcbs[t].parent == Null
  {
    RootsUsed(m.chains, 0); RootsUsed(m.chains, 1); RootsUsed(m.chains, 2);
  }

  /** With the root of slot r halted, execute from pid 0 finds pid r again. */
  lemma SpawnIsRespawn(r: nat, stack: int, entry: int, pcbs: seq<Pcb>, leaves: seq<nat>, procs: seq<ProcessT>,
                       p: nat, pcbs': seq<Pcb>, leaves': seq<nat>, procs': seq<ProcessT>)
    requires |pcbs| == |procs| == MAX_PROCESSES && r < SLOTS
    requires forall t :: 0 <= t < SLOTS ==> pcbs[t].running && pcbs[t].pid == t && pcbs[t].parent == Null
    requires var halted := pcbs[r := pcbs[r].(running := false)];
             Ancestry(halted, [0]) && SpawnedAt(halted, leaves, procs, [0], stack, entry, p, pcbs', leaves', procs')
    ensures p == r && leaves' == leaves && procs' == procs
    ensures pcbs' == pcbs[r := Pcb(true, r, Null, Saved(entry, stack, Execute))]
  {
    var halted := pcbs[r := pcbs[r].(running := false)];
    assert !halted[r].running && !halted[p].running;
  }

  lemma RespawnRepresents(m: Machine, entry: int, pcbs: seq<Pcb>, leaves: seq<nat>, procs: seq<ProcessT>, pcbs': seq<Pcb>)
    requires Wf(m) && Represents(m, pcbs, leaves, procs) && |m.chains[m.running]| == 1
    requires pcbs' == pcbs[m.running := Pcb(true, m.running, Null, Saved(entry, StackTop(m.running), Execute))]
    ensures Represents(HaltStep(m, entry), pcbs', leaves, procs)
  {
    var n, r := HaltStep(m, entry), m.running;
    RootsUsed(m.chains, r);
    forall t, j, q | At(n.chains, t, j, q) ensures Row(n.chains, pcbs', procs, t, j) {
      assert At(m.chains, t, j, q);
    }
    forall q | 0 <= q < MAX_PROCESSES && pcbs'[q].running ensures Used(n.chains, q) {
      assert Used(m.chains, q);
      var t, j :| At(m.chains, t, j, q);
      assert At(n.chains, t, j, q);
    }
  }

  lemma AllUsed(m: Machine, pcbs: seq<Pcb>, leaves: seq<nat>, procs: seq<ProcessT>)
    requires Slots(m) && Represents(m, pcbs, leaves, procs)
    requires forall p :: 0 <= p < MAX_PROCESSES ==> pcbs[p].running
    ensures FreePid(m) == MAX_PROCESSES
  {
    forall p | 0 <= p < MAX_PROCESSES ensures Used(m.chains, p) {
      assert pcbs[p].running;
    }
  }

  ghost predicate TickContext(c: Context, t: nat) {
    c.Saved? && c.stack == StackTop(t) && c.site == Tick
  }

  /** The machine that three booted root shells form. */
  ghost function BootMachine(pcbs: seq<Pcb>, procs: seq<ProcessT>, vidPage: int): Machine
    requires |pcbs| == |procs| == MAX_PROCESSES
  {
    Machine([[Frame(0, pcbs[0].context)], [Frame(1, pcbs[1].context)], [Frame(2, pcbs[2].context)]],
            [procs[0].saved, procs[1].saved, procs[2].saved], 2, 2, false, vidPage)
  }

  /** The tables while n root shells run. */
  ghost predicate BootTables(n: nat, pcbs: seq<Pcb>, leaves: seq<nat>, procs: seq<ProcessT>) {
    && n <= SLOTS && |pcbs| == |procs| == MAX_PROCESSES && |leaves| == SLOTS
    && (forall p :: 0 <= p < MAX_PROCESSES ==> pcbs[p].parent == Null && pcbs[p].running == (p < n))
    && (forall t :: 0 <= t < n ==> pcbs[t].pid == leaves[t] == procs[t].pcb == procs[t].terminal == t)
    && (forall t :: 0 <= t < n - 1 ==> TickContext(procs[t].saved, t))
  }

  lemma BootRepresents(pcbs: seq<Pcb>, leaves: seq<nat>, procs: seq<ProcessT>, vidPage: int)
    requires BootTables(SLOTS, pcbs, leaves, procs)
    ensures var m := BootMachine(pcbs, procs, vidPage);
            Booted(m) && Represents(m, pcbs, leaves, procs)
  {
    var m := BootMachine(pcbs, procs, vidPage);
    forall t | 0 <= t < SLOTS ensures Used(m.chains, t) {
      assert At(m.chains, t, 0, t);
    }
  }

  /** Root shell n has its record; the one before it, if any, is parked. */
  ghost predicate RootPrepared(n: nat, entry: int, stack: int, leaves: seq<nat>, procs: seq<ProcessT>,
                               leaves': seq<nat>, procs': seq<ProcessT>)
    requires n < SLOTS && |leaves| == SLOTS && |procs| == MAX_PROCESSES
  {
    && leaves' == leaves[n := n]
    && procs' == (if n == 0 then procs else procs[n - 1 := procs[n - 1].(saved := Saved(entry, stack, Tick))])
                 [n := ProcessT(n, Uninitialised, n)]
  }

  /** One more root shell: the last one is parked, execute finds pid n. */
  lemma BootSpawn(n: nat, entry: int, stack: int, pcbs: seq<Pcb>, leaves: seq<nat>, procs: seq<ProcessT>,
                  leaves': seq<nat>, procs': seq<ProcessT>,
                  p: nat, pcbs'': seq<Pcb>, leaves'': seq<nat>, procs'': seq<ProcessT>)
    requires n < SLOTS && BootTables(n, pcbs, leaves, procs)
    requires RootPrepared(n, entry, stack, leaves, procs, leaves', procs') && (n > 0 ==> stack == StackTop(n - 1))
    requires Ancestry(pcbs, [n]) && SpawnedAt(pcbs, leaves', procs', [n], stack, entry, p, pcbs'', leaves'', procs'')
    ensures p == n && BootTables(n + 1, pcbs'', leaves'', procs'')
  {
    assert !pcbs[n].running && !pcbs[p].running;
  }

  class Kernel {
    const pcb: array<Pcb>
    const multiProcessIdx: array<nat>
    const allProcess: array<ProcessT>

    var numMultiprocess: nat
    var currentMultiprocess: nat
    var onDefaultTerm: bool
    var keyboardDisabled: bool
    var currentProcessPid: nat
    var currentTerm: nat
    var errorReturnValue: int

    var masterMask: bv8
    var slaveMask: bv8
    var userPage: int
    var vidPage: int
    var esp0: int

    ghost var m: Machine

    // -------------------------------------------------------------- representation

    ghost predicate Tables()
      reads this, pcb, multiProcessIdx, allProcess
    {
      && pcb.Length == MAX_PROCESSES && multiProcessIdx.Length == SLOTS && allProcess.Length == MAX_PROCESSES
      && Slots(m) && Represents(m, pcb[..], multiProcessIdx[..], allProcess[..])
    }

    /** What does not depend on which slot has the processor. */
    ghost predicate Common()
      reads this, pcb, multiProcessIdx, allProcess
    {
      && Tables()
      && numMultiprocess == SLOTS
      && currentTerm == m.visible
      && onDefaultTerm == m.settled
      && vidPage == m.vidmap
      && Masked(masterMask, KEYBOARD_IRQ) == keyboardDisabled
    }

    /** The processor, the user page, the kernel stack and the keyboard all
        belong to the leaf of the running slot. */
    ghost predicate Cpu()
      reads this
      requires Slots(m)
    {
      && currentMultiprocess == m.running
      && currentProcessPid == Leaf(m, m.running)
      && userPage == UserPage(currentProcessPid)
      && esp0 == StackTop(currentProcessPid)
      && keyboardDisabled == (m.running != m.visible)
    }

    ghost predicate Valid()
      reads this, pcb, multiProcessIdx, allProcess
    {
      Common() && Cpu() && (!m.settled ==> m.running == m.visible) && errorReturnValue != HALT_EXCEPTION
    }

    /** Between power-on and the third tick: the first `numMultiprocess` root
        shells exist, the last of them is running and shown. */
    ghost predicate Booting()
      reads this, pcb, multiProcessIdx, allProcess
    {
      && pcb.Length == MAX_PROCESSES && multiProcessIdx.Length == SLOTS && allProcess.Length == MAX_PROCESSES
      && numMultiprocess < SLOTS
      && BootTables(numMultiprocess, pcb[..], multiProcessIdx[..], allProcess[..])
      && (numMultiprocess == 0 ==> currentTerm == 0)
      && (numMultiprocess > 0 ==>
            && currentTerm == currentProcessPid == numMultiprocess - 1
            && userPage == UserPage(currentProcessPid) && esp0 == StackTop(currentProcessPid))
      && currentMultiprocess == 2 && !onDefaultTerm && errorReturnValue == 0
      && !keyboardDisabled && !Masked(masterMask, KEYBOARD_IRQ)
    }

    /** The kernel after the initialization calls of entry; PCB memory is
        assumed to be zero. */
    constructor ()
      ensures Booting() && numMultiprocess == 0
      ensures fresh(pcb) && fresh(multiProcessIdx) && fresh(allProcess)
    {
      pcb := new Pcb[MAX_PROCESSES](_ => Pcb(false, 0, Null, Uninitialised));
      multiProcessIdx := new nat[SLOTS](_ => 0);
      allProcess := new ProcessT[MAX_PROCESSES](_ => ProcessT(0, Uninitialised, 0));
      numMultiprocess, currentMultiprocess := 0, 2;
      onDefaultTerm, keyboardDisabled := false, false;
      currentProcessPid, currentTerm, errorReturnValue := 0, 0, 0;
      masterMask, slaveMask := 0xF8, 0xEE;
      userPage, vidPage, esp0 := 0, 0, KERNEL_END;
    }

    // -------------------------------------------------------------- interrupt masks

    method EnableIrq(irq: bv8)
      requires irq < 2 * NUM_IRQS
      modifies this`masterMask, this`slaveMask
      ensures forall i: bv8 :: i < NUM_IRQS ==> Masked(masterMask, i) == (i != irq && Masked(old(masterMask), i))
      ensures forall i: bv8 :: i < NUM_IRQS ==> Masked(slaveMask, i) == (i + NUM_IRQS != irq && Masked(old(slaveMask), i))
    {
      if irq < NUM_IRQS {
        forall i: bv8 | i < NUM_IRQS { ClearBit(masterMask, irq, i); }
        masterMask := masterMask & !(1 << irq);
      } else {
        forall i: bv8 | i < NUM_IRQS { ClearBit(slaveMask, irq - NUM_IRQS, i); }
        slaveMask := slaveMask & !(1 << (irq - NUM_IRQS));
      }
    }

    method DisableIrq(irq: bv8)
      requires irq < 2 * NUM_IRQS
      modifies this`masterMask, this`slaveMask
      ensures forall i: bv8 :: i < NUM_IRQS ==> Masked(masterMask, i) == (i == irq || Masked(old(masterMask), i))
      ensures forall i: bv8 :: i < NUM_IRQS ==> Masked(slaveMask, i) == (i + NUM_IRQS == irq || Masked(old(slaveMask), i))
    {
      if irq < NUM_IRQS {
        forall i: bv8 | i < NUM_IRQS { SetBit(masterMask, irq, i); }
        masterMask := masterMask | (1 << irq);
      } else {
        forall i: bv8 | i < NUM_IRQS { SetBit(slaveMask, irq - NUM_IRQS, i); }
        slaveMask := slaveMask | (1 << (irq - NUM_IRQS));
      }
    }

    // -------------------------------------------------------------- context switch

    /** Typing is only possible while the visible terminal's slot runs. */
    method GateKeyboard(to: nat)
      requires Masked(masterMask, KEYBOARD_IRQ) == keyboardDisabled
      modifies this`masterMask, this`slaveMask, this`keyboardDisabled
      ensures keyboardDisabled == (to != currentTerm) == Masked(masterMask, KEYBOARD_IRQ)
      ensures forall i: bv8 :: i < NUM_IRQS ==>
        (i != KEYBOARD_IRQ ==> Masked(masterMask, i) == Masked(old(masterMask), i)) && Masked(slaveMask, i) == Masked(old(slaveMask), i)
    {
      if to != currentTerm && !keyboardDisabled {
        DisableIrq(KEYBOARD_IRQ);
        keyboardDisabled := true;
      } else if to == currentTerm && keyboardDisabled {
        EnableIrq(KEYBOARD_IRQ);
        keyboardDisabled := false;
      }
    }

    method SaveContext(from: nat, entry: int, stack: int, site: Site)
      requires Tables() && from == m.running
      requires stack == StackTop(Leaf(m, from)) && !site.Execute?
      modifies this`m, allProcess
      ensures m == old(m).(parked := old(m).parked[from := Saved(entry, stack, site)])
      ensures Tables() && allProcess[multiProcessIdx[from]].saved == m.parked[from]
    {
      var leaf := multiProcessIdx[from];
      assert At(m.chains, from, |m.chains[from]| - 1, leaf);
      forall t | 0 <= t < SLOTS ensures At(m.chains, t, |m.chains[t]| - 1, multiProcessIdx[t]) {
      }
      allProcess[leaf] := allProcess[leaf].(saved := Saved(entry, stack, site));
      m := m.(parked := m.parked[from := Saved(entry, stack, site)]);
    }

    /** Make the leaf of slot `to` the current process: its video page, its
        user page, its kernel stack and the keyboard gate. */
    method LoadSlot(to: nat)
      requires to < multiProcessIdx.Length && multiProcessIdx[to] < allProcess.Length
      requires allProcess[multiProcessIdx[to]].pcb < pcb.Length
      requires Masked(masterMask, KEYBOARD_IRQ) == keyboardDisabled
      modifies `currentProcessPid, `vidPage, `userPage, `esp0, `masterMask, `slaveMask, `keyboardDisabled
      ensures currentProcessPid == multiProcessIdx[to]
      ensures vidPage == VidEntry(to, currentTerm) == if to == currentTerm then 0xB8007 else 0xB9007 + to * 0x1000
      ensures userPage == UserPage(pcb[allProcess[multiProcessIdx[to]].pcb].pid)
      ensures esp0 == StackTop(pcb[allProcess[multiProcessIdx[to]].pcb].pid)
      ensures keyboardDisabled == (to != currentTerm) == Masked(masterMask, KEYBOARD_IRQ)
    {
      currentProcessPid := multiProcessIdx[to];
      if currentTerm == to {
        vidPage := VIDEO + USER_4KB_FLAGS;
      } else {
        vidPage := VIDEO + (to + 1) * PAGE_4KB + USER_4KB_FLAGS;
      }
      var toPid := pcb[allProcess[multiProcessIdx[to]].pcb].pid;
      userPage := KERNEL_END + toPid * USER_FRAME + USER_4MB_FLAGS;
      esp0 := KERNEL_END - 4 - toPid * PCB_REGION;
      GateKeyboard(to);
    }

    /** Save the interrupted context for slot `from`, load slot `to`. */
    method Install(from: nat, to: nat, entry: int, stack: int, site: Site) returns (restored: Context)
      requires Common() && from == m.running && to < SLOTS && to != from && currentMultiprocess == to
      requires stack == StackTop(Leaf(m, from)) && !site.Execute?
      modifies this, allProcess
      ensures Common() && Cpu()
      ensures m == Park(old(m), to, entry, site)
      ensures restored == m.parked[to] && unchanged(`errorReturnValue)
    {
      SaveContext(from, entry, stack, site);
      assert var next := multiProcessIdx[to];
        next < MAX_PROCESSES && allProcess[next].pcb == next && pcb[next].pid == next by {
        assert At(m.chains, to, |m.chains[to]| - 1, multiProcessIdx[to]);
      }
      LoadSlot(to);
      Handover(m, pcb[..], multiProcessIdx[..], allProcess[..], to, VidEntry(to, m.visible));
      m := m.(running := to, vidmap := VidEntry(to, m.visible));
      restored := allProcess[multiProcessIdx[to]].saved;
    }

    /** A context switch, and what the code at the restored context does. */
    method ProcessContextSwitch(from: nat, to: nat, entry: int, stack: int, site: Site) returns (resumed: Context)
      requires Common() && from == m.running && to < SLOTS && to != from && currentMultiprocess == to
      requires stack == StackTop(Leaf(m, from)) && !site.Execute?
      modifies this, allProcess
      ensures Common() && Cpu()
      ensures m == Settle(Park(old(m), to, entry, site))
      ensures resumed == m.parked[m.running] && unchanged(`errorReturnValue)
      decreases PendingCount(m.parked[from := Saved(entry, stack, site)]), 0
    {
      resumed := Install(from, to, entry, stack, site);
      if resumed.Saved? && resumed.site == DefaultTerm {
        PendingUpdate(m.parked, to, Saved(resumed.entry, resumed.stack, Tick));
        resumed := PassOn(resumed.entry, resumed.stack);
      }
    }

    /** The end of scheduler_step: the terminals are settled, the next slot's
        turn comes. */
    method PassOn(entry: int, stack: int) returns (resumed: Context)
      requires Common() && Cpu() && stack == StackTop(Leaf(m, m.running))
      modifies this, allProcess
      ensures Common() && Cpu()
      ensures m == Settle(Park(old(m).(settled := true), Next(old(m).running), entry, Tick))
      ensures resumed == m.parked[m.running] && unchanged(`errorReturnValue)
      decreases PendingCount(m.parked[m.running := Saved(entry, stack, Tick)]), 1
    {
      hide Represents, Forest, Settle, Park, PendingCount;
      SettledRepresents(m, pcb[..], multiProcessIdx[..], allProcess[..]);
      onDefaultTerm := true;
      m := m.(settled := true);
      var oldProcess := currentMultiprocess;
      currentMultiprocess := (currentMultiprocess + 1) % numMultiprocess;
      resumed := ProcessContextSwitch(oldProcess, currentMultiprocess, entry, stack, Tick);
    }

    /** Show another terminal; once all terminals run, also give its slot the
        processor. */
    method TerminalSwitch(newTerm: nat, allInitialized: bool, entry: int, site: Site)
      returns (switched: bool, resumed: Context)
      requires newTerm < SLOTS
      requires allInitialized ==> Common() && Cpu() && m.running == m.visible && !site.Execute?
      modifies this, allProcess
      ensures currentTerm == newTerm || switched
      ensures switched == (allInitialized && newTerm != old(currentTerm))
      ensures newTerm == old(currentTerm) ==> unchanged(this, allProcess)
      ensures !switched ==>
        unchanged(allProcess) && unchanged(this`m) && currentTerm == newTerm
        && unchanged(`numMultiprocess, `currentMultiprocess, `onDefaultTerm, `keyboardDisabled, `currentProcessPid,
                     `errorReturnValue, `masterMask, `slaveMask, `userPage, `vidPage, `esp0)
      ensures switched ==>
        && Common() && Cpu()
        && m == Settle(Park(old(m).(visible := newTerm), newTerm, entry, site))
        && resumed == m.parked[m.running] && unchanged(`errorReturnValue)
    {
      switched, resumed := false, Uninitialised;
      if newTerm == currentTerm {
        return;
      }
      var oldTerm := currentTerm;
      currentTerm := newTerm;
      if allInitialized {
        m := m.(visible := newTerm);
        currentMultiprocess := newTerm;
        switched := true;
        resumed := ProcessContextSwitch(oldTerm, newTerm, entry, esp0, site);
      }
    }

    /** Alt-F1..F3.  While the keyboard interrupt is masked the key is not seen. */
    method KeyboardSwitch(entry: int, newTerm: nat) returns (o: Outcome)
      requires Valid() && newTerm < SLOTS
      modifies this, allProcess
      ensures Valid() && m == AltFStep(old(m), entry, newTerm)
      ensures o == if Switches(old(m), AltF(entry, newTerm)) then Switched(m.parked[m.running]) else Returned(0)
      ensures old(Masked(masterMask, KEYBOARD_IRQ)) || newTerm == old(currentTerm) ==>
        o == Returned(0) && unchanged(this, pcb, multiProcessIdx, allProcess)
      ensures !old(Masked(masterMask, KEYBOARD_IRQ)) ==> currentTerm == newTerm
    {
      o := Returned(0);
      if (masterMask >> KEYBOARD_IRQ) & 1 == 0 {
        var switched, resumed := TerminalSwitch(newTerm, true, entry, Key);
        if switched {
          o := Switched(resumed);
        }
      }
    }

    // -------------------------------------------------------------- execute

    /** The first slot scheduling `pid` schedules `by` instead. */
    method ReplaceSlot(pid: nat, heir: nat)
      requires multiProcessIdx.Length == SLOTS
      modifies multiProcessIdx
      ensures multiProcessIdx[..] == ReplaceFirst(old(multiProcessIdx[..]), pid, heir)
    {
      var i := 0;
      while i < SLOTS && multiProcessIdx[i] != pid
        invariant 0 <= i <= SLOTS
        invariant forall k :: 0 <= k < i ==> multiProcessIdx[k] != pid
      {
        i := i + 1;
      }
      ReplaceFirstAt(multiProcessIdx[..], pid, heir, i);
      if i < SLOTS {
        multiProcessIdx[i] := heir;
      }
    }

    /** The part of execute after the file checks.  `walk` is the current
        process's line of ancestors, root first; nothing orders their pids. */
    method Spawn(entry: int, ghost walk: seq<nat>) returns (ok: bool)
      requires pcb.Length == MAX_PROCESSES && multiProcessIdx.Length == SLOTS && allProcess.Length == MAX_PROCESSES
      requires Ancestry(pcb[..], walk) && walk[|walk| - 1] == currentProcessPid
      modifies `currentProcessPid, `userPage, `esp0, pcb, multiProcessIdx, allProcess
      ensures ok <==> exists p :: 0 <= p < MAX_PROCESSES && !old(pcb[p].running)
      ensures !ok ==> unchanged(pcb) && unchanged(multiProcessIdx) && unchanged(allProcess)
                      && unchanged(`currentProcessPid, `userPage, `esp0)
      ensures ok ==> SpawnedAt(old(pcb[..]), old(multiProcessIdx[..]), old(allProcess[..]), walk, old(esp0), entry,
                               currentProcessPid, pcb[..], multiProcessIdx[..], allProcess[..])
      ensures ok ==> userPage == UserPage(currentProcessPid) && esp0 == StackTop(currentProcessPid)
    {
      var stack := esp0;
      var parent := currentProcessPid;
      var root := parent;
      ghost var depth: nat := |walk| - 1;
      while pcb[root].parent.To?
        invariant depth < |walk| && root == walk[depth]
        invariant pcb[root].parent == if depth == 0 then Null else To(walk[depth - 1])
        decreases depth
      {
        root := pcb[root].parent.pcb;
        depth := depth - 1;
      }
      assert root == walk[0];
      ok := false;
      var idx := 0;
      while idx < MAX_PROCESSES
        invariant 0 <= idx <= MAX_PROCESSES
        invariant forall p :: 0 <= p < idx ==> pcb[p].running
      {
        if !pcb[idx].running {
          ok := true;
          break;
        }
        idx := idx + 1;
      }
      if !ok {
        return;
      }
      currentProcessPid := idx;
      pcb[idx] := pcb[idx].(running := true, pid := idx, parent := if idx < SLOTS then Null else To(parent));
      userPage := KERNEL_END + currentProcessPid * USER_FRAME + USER_4MB_FLAGS;
      esp0 := KERNEL_END - 4 - currentProcessPid * PCB_REGION;
      pcb[idx] := pcb[idx].(context := Saved(entry, stack, Execute));
      if currentProcessPid >= SLOTS {
        ReplaceSlot(pcb[parent].pid, currentProcessPid);
        allProcess[currentProcessPid] := ProcessT(currentProcessPid, Uninitialised, pcb[root].pid);
      }
    }

    /** Spawn, for the leaf of the running slot. */
    method SpawnChild(entry: int) returns (ok: bool)
      requires Tables() && Wf(m) && currentProcessPid == Leaf(m, m.running) && esp0 == StackTop(currentProcessPid)
      requires userPage == UserPage(currentProcessPid)
      modifies `m, `currentProcessPid, `userPage, `esp0, pcb, multiProcessIdx, allProcess
      ensures ok == (FreePid(old(m)) < MAX_PROCESSES)
      ensures !ok ==> unchanged(pcb) && unchanged(multiProcessIdx) && unchanged(allProcess)
                      && unchanged(`m, `currentProcessPid, `userPage, `esp0)
      ensures Tables() && m == ExecStep(old(m), entry, true)
      ensures currentProcessPid == Leaf(m, m.running) && (ok ==> currentProcessPid == FreePid(old(m)))
      ensures userPage == UserPage(currentProcessPid) && esp0 == StackTop(currentProcessPid)
    {
      ghost var pcbs, leaves, procs := pcb[..], multiProcessIdx[..], allProcess[..];
      ghost var walk := Pids(m.chains[m.running]);
      ChainIsAncestry(m, pcbs, leaves, procs);
      ok := Spawn(entry, walk);
      if ok {
        SpawnRepresents(m, entry, pcbs, leaves, procs, currentProcessPid, pcb[..], multiProcessIdx[..], allProcess[..]);
        m := ExecStep(m, entry, true);
      } else {
        AllUsed(m, pcbs, leaves, procs);
      }
    }

    /** Execute, called by the running process.  `loadable` says whether the
        command names an executable file. */
    method SysExecute(entry: int, loadable: bool) returns (o: Outcome)
      requires Valid()
      modifies this, pcb, multiProcessIdx, allProcess
      ensures Valid() && m == ExecStep(old(m), entry, loadable)
      ensures o == if !loadable then Returned(-1)
                   else if FreePid(old(m)) == MAX_PROCESSES then Returned(0)
                   else Entered(FreePid(old(m)))
      ensures o.Returned? ==>
        && m == old(m) && pcb[..] == old(pcb[..]) && multiProcessIdx[..] == old(multiProcessIdx[..])
        && allProcess[..] == old(allProcess[..]) && unchanged(`currentProcessPid, `userPage, `esp0, `vidPage)
    {
      hide Represents, Forest;
      if !loadable {
        return Returned(-1);
      }
      var ok := SpawnChild(entry);
      o := if ok then Entered(currentProcessPid) else Returned(0);
    }

    // -------------------------------------------------------------- halt

    method HaltRoot(entry: int)
      requires Common() && Wf(m) && Cpu() && |m.chains[m.running]| == 1 && currentProcessPid == m.running
      modifies `m, `currentProcessPid, `userPage, `esp0, pcb, multiProcessIdx, allProcess
      ensures Common() && Cpu() && m == HaltStep(old(m), entry)
      ensures currentProcessPid == m.running
    {
      hide Forest;
      ghost var pcbs, leaves, procs := pcb[..], multiProcessIdx[..], allProcess[..];
      RootsRun(m, pcbs, leaves, procs);
      pcb[currentProcessPid] := pcb[currentProcessPid].(running := false);
      assert pcb[..] == pcbs[m.running := pcbs[m.running].(running := false)];
      currentProcessPid := 0;
      var ok := Spawn(entry, [0]);
      SpawnIsRespawn(m.running, StackTop(m.running), entry, pcbs, leaves, procs,
                     currentProcessPid, pcb[..], multiProcessIdx[..], allProcess[..]);
      RespawnRepresents(m, entry, pcbs, leaves, procs, pcb[..]);
      m := HaltStep(m, entry);
    }

    /** Give the user page, the kernel stack and the slot back to the parent. */
    method ReturnToParent() returns (resumed: Context)
      requires pcb.Length == MAX_PROCESSES && multiProcessIdx.Length == SLOTS
      requires currentProcessPid < MAX_PROCESSES && pcb[currentProcessPid].parent.To?
      requires var parent := pcb[currentProcessPid].parent.pcb; parent < MAX_PROCESSES && parent != currentProcessPid
      modifies `currentProcessPid, `userPage, `esp0, pcb, multiProcessIdx
      ensures var child := old(currentProcessPid);
              var pid := old(pcb[pcb[child].parent.pcb].pid);
              && pcb[..] == old(pcb[..])[child := old(pcb[child]).(running := false)]
              && userPage == UserPage(pid) && esp0 == StackTop(pid) && currentProcessPid == pid
              && multiProcessIdx[..] == (if child >= SLOTS then ReplaceFirst(old(multiProcessIdx[..]), child, pid)
                                         else old(multiProcessIdx[..]))
              && resumed == old(pcb[child].context)
    {
      var child := currentProcessPid;
      var parent := pcb[child].parent.pcb;
      pcb[child] := pcb[child].(running := false);
      userPage := KERNEL_END + pcb[parent].pid * USER_FRAME + USER_4MB_FLAGS;
      esp0 := KERNEL_END - 4 - pcb[parent].pid * PCB_REGION;
      if currentProcessPid >= SLOTS {
        ReplaceSlot(currentProcessPid, pcb[parent].pid);
      }
      currentProcessPid := pcb[parent].pid;
      resumed := pcb[child].context;
    }

    method HaltChild(entry: int) returns (resumed: Context)
      requires Common() && Wf(m) && Cpu() && |m.chains[m.running]| > 1
      modifies `m, `currentProcessPid, `userPage, `esp0, pcb, multiProcessIdx
      ensures Common() && Cpu() && m == HaltStep(old(m), entry)
      ensures resumed == HaltResumes(old(m))
    {
      hide Represents, Forest;
      ghost var pcbs, leaves, procs := pcb[..], multiProcessIdx[..], allProcess[..];
      LeafAndParent(m, pcbs, leaves, procs);
      resumed := ReturnToParent();
      PopRepresents(m, entry, pcbs, leaves, procs, pcb[..], multiProcessIdx[..]);
      m := HaltStep(m, entry);
    }

    /** Halt the running process with an 8-bit status. */
    method SysHalt(entry: int, status: nat) returns (o: Outcome)
      requires Common() && Wf(m) && Cpu() && status < 256
      modifies this, pcb, multiProcessIdx, allProcess
      ensures Valid() && m == HaltStep(old(m), entry)
      ensures o == if |old(m).chains[m.running]| == 1 then Entered(m.running)
                   else Resumed(HaltResumes(old(m)), if old(errorReturnValue) == HALT_EXCEPTION then HALT_EXCEPTION else status)
    {
      RowOfLeaf();
      var link := pcb[currentProcessPid].parent;
      if link.Null? || link.pcb == currentProcessPid {
        HaltRoot(entry);
        errorReturnValue := status;
        return Entered(currentProcessPid);
      }
      var resumed := HaltChild(entry);
      if errorReturnValue != HALT_EXCEPTION {
        errorReturnValue := status;
      }
      // the label in execute that halt jumps to
      o := Resumed(resumed, errorReturnValue);
      errorReturnValue := 0;
    }

    lemma RowOfLeaf()
      requires Common() && Wf(m) && Cpu()
      ensures pcb[currentProcessPid].parent == (var f := m.chains[m.running];
                if |f| == 1 then Null else To(f[|f| - 2].pid))
      ensures pcb[currentProcessPid].parent != To(currentProcessPid) && currentProcessPid < MAX_PROCESSES
      ensures |m.chains[m.running]| == 1 ==> currentProcessPid == m.running
    {
      var f := m.chains[m.running];
      assert At(m.chains, m.running, |f| - 1, f[|f| - 1].pid);
      if |f| > 1 {
        assert At(m.chains, m.running, |f| - 2, f[|f| - 2].pid);
      } else {
        RootsUsed(m.chains, m.running);
      }
    }

    /** The halt system call: exceptions arrive as status 256. */
    method SysHaltWrapper(entry: int, status: nat) returns (o: Outcome)
      requires Valid()
      modifies this, pcb, multiProcessIdx, allProcess
      ensures Valid() && m == HaltStep(old(m), entry)
      ensures o == if |old(m).chains[m.running]| == 1 then Entered(m.running)
                   else Resumed(HaltResumes(old(m)), if status == HALT_EXCEPTION then HALT_EXCEPTION else status % 256)
    {
      if status == HALT_EXCEPTION {
        errorReturnValue := HALT_EXCEPTION;
        o := SysHalt(entry, 0);
      } else {
        o := SysHalt(entry, status % 256);
      }
    }

    // -------------------------------------------------------------- scheduler

    method PrepareRoot(entry: int)
      requires Booting()
      modifies this, multiProcessIdx, allProcess
      ensures unchanged(`m, `currentMultiprocess, `onDefaultTerm, `keyboardDisabled, `masterMask, `slaveMask,
                        `userPage, `vidPage, `esp0, `errorReturnValue)
      ensures numMultiprocess == old(numMultiprocess) + 1
      ensures currentProcessPid == currentTerm == old(numMultiprocess)
      ensures RootPrepared(old(numMultiprocess), entry, esp0, old(multiProcessIdx[..]), old(allProcess[..]),
                           multiProcessIdx[..], allProcess[..])
    {
      hide Represents, Forest, Slots;
      if numMultiprocess > 0 {
        var last := multiProcessIdx[numMultiprocess - 1];
        allProcess[last] := allProcess[last].(saved := Saved(entry, esp0, Tick));
      }
      currentProcessPid := numMultiprocess;
      multiProcessIdx[numMultiprocess] := numMultiprocess;
      allProcess[multiProcessIdx[numMultiprocess]] := ProcessT(numMultiprocess, Uninitialised, numMultiprocess);
      var switched, _ := TerminalSwitch(numMultiprocess, false, entry, Tick);
      numMultiprocess := numMultiprocess + 1;
    }

    /** A tick before all root shells run: park the last one, start the next. */
    method BootTick(entry: int)
      requires Booting()
      modifies this, pcb, multiProcessIdx, allProcess
      ensures numMultiprocess == old(numMultiprocess) + 1
      ensures currentProcessPid == old(numMultiprocess)
      ensures numMultiprocess < SLOTS ==> Booting()
      ensures numMultiprocess == SLOTS ==> Valid() && Booted(m)
    {
      hide Represents, Forest, Slots;
      ghost var n, stack, pcbs, leaves, procs := numMultiprocess, esp0, pcb[..], multiProcessIdx[..], allProcess[..];
      PrepareRoot(entry);
      ghost var leaves', procs' := multiProcessIdx[..], allProcess[..];
      var ok := Spawn(entry, [currentProcessPid]);
      BootSpawn(n, entry, stack, pcbs, leaves, procs, leaves', procs',
                currentProcessPid, pcb[..], multiProcessIdx[..], allProcess[..]);
      if numMultiprocess == SLOTS {
        BootRepresents(pcb[..], multiProcessIdx[..], allProcess[..], vidPage);
        m := BootMachine(pcb[..], allProcess[..], vidPage);
      }
    }

    /** What the PIT interrupt does. */
    method SchedulerStep(entry: int) returns (o: Outcome)
      requires Booting() || Valid()
      modifies this, pcb, multiProcessIdx, allProcess
      ensures old(Valid()) ==> Valid() && m == TickStep(old(m), entry) && o == Switched(m.parked[m.running])
      ensures old(Booting()) ==>
        && numMultiprocess == old(numMultiprocess) + 1 && o == Entered(old(numMultiprocess))
        && (numMultiprocess < SLOTS ==> Booting())
        && (numMultiprocess == SLOTS ==> Valid() && Booted(m))
    {
      if numMultiprocess != SLOTS {
        BootTick(entry);
        return Entered(currentProcessPid);
      }
      var resumed: Context;
      if !onDefaultTerm {
        var switched, context := TerminalSwitch(0, true, entry, DefaultTerm);
        if switched {
          // the rest of this call runs when the context just saved is restored
          return Switched(context);
        }
      }
      resumed := PassOn(entry, esp0);
      o := Switched(resumed);
    }

    /** Map the user's video page; the page is always the visible one. */
    method SysVidmap(address: int) returns (o: Outcome)
      requires Valid()
      modifies `vidPage, `m
      ensures Valid() && m == VidmapStep(old(m), address)
      ensures o == Returned(if 0x800_0000 <= address <= 0x840_0000 then 0 else -1)
      ensures vidPage == if 0x800_0000 <= address <= 0x840_0000 then 0xB8007 else old(vidPage)
    {
      if address < 0x8000000 || address > 0x8400000 {
        return Returned(-1);
      }
      vidPage := VIDEO + USER_4KB_FLAGS;
      m := m.(vidmap := VIDEO + USER_4KB_FLAGS);
      o := Returned(0);
    }

    // -------------------------------------------------------------- runs

    method Handle(e: Event) returns (o: Outcome)
      requires Valid() && Possible(e)
      modifies this, pcb, multiProcessIdx, allProcess
      ensures Valid() && m == Step(old(m), e) && o == OutcomeOf(old(m), e)
    {
      match e
      case PitTick(entry) => o := SchedulerStep(entry);
      case Exec(entry, loadable) => o := SysExecute(entry, loadable);
      case Halt(entry, status) => o := SysHaltWrapper(entry, status);
      case AltF(entry, term) => o := KeyboardSwitch(entry, term);
      case Vidmap(address) => o := SysVidmap(address);
    }

    /** Whatever happens after boot, the kernel does what the ideal machine does. */
    method HandleAll(es: seq<Event>) returns (os: seq<Outcome>)
      requires Valid() && AllPossible(es)
      modifies this, pcb, multiProcessIdx, allProcess
      ensures Valid() && m == Run(old(m), es) && os == Outcomes(old(m), es)
    {
      hide Represents, Forest, Step, OutcomeOf;
      os := [];
      var i := 0;
      while i < |es|
        invariant 0 <= i <= |es| && Valid() && m == Run(old(m), es[..i]) && os == Outcomes(old(m), es[..i])
      {
        RunSnoc(old(m), es[..i], es[i]);
        OutcomesSnoc(old(m), es[..i], es[i]);
        assert es[..i] + [es[i]] == es[..i + 1];
        var o := Handle(es[i]);
        os := os + [o];
        i := i + 1;
      }
      assert es[..i] == es;
    }
  }
}
