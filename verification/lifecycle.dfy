/** Exit and wait (kernel/processes/process.c, kernel/processes/syscall.c) and the scheduler calls around
    them (kernel/processes/scheduler.c) as a step machine: one processor, one step of the current process
    at a time, and a timer interrupt at any step where interrupts are on. */
module Lifecycle {
  import opened Wrappers

  const MAX_PROCESSES: nat := 16

  datatype PState = Ready | Running | Blocked | Dead | Sleeping

  /** What a waiter waits for: any child (sys_wait) or one pid (process_wait). */
  datatype Target = AnyChild | Child(pid: nat)

  /** Where scheduler_yield returns to. */
  datatype After = ToUser | ToGone | ToWait(w: Target)

  /** Where a process stands. Steps between cli and sti are one constructor each. */
  datatype Pc =
    | User
    | ForkFill(slot: nat)                      // a free slot was found
    | ForkAdd(slot: nat)                       // child in the table, not yet queued
    | AddLink(slot: nat)                       // the old tail points at the child, whose next is still NULL
    | AddTail(slot: nat)                       // the cycle is closed, run_queue_tail is still the old tail
    | Yielding(k: After)                       // in the tick of scheduler_yield, before its walk
    | Marking(q: nat, pid: nat, k: After)      // it found q asleep and due, and is about to make it ready
    | Picked(n: nat, pid: nat, k: After)       // its walk ended at n
    | ExitCli | ExitMark | ExitWake | ExitSti | Gone
    | WaitCli(w: Target) | WaitScan(w: Target) | WaitBlock(w: Target) | WaitSti(w: Target)
    | NoneSti                                  // sys_wait found no children
    | ReapSti(c: nat) | ReapRead(c: nat)       // dead child found in slot c
    | ReapUnlink(c: nat, code: int) | ReapFree(c: nat, code: int) | ReapClear(c: nat, code: int)

  datatype Pcb = Pcb(pid: nat, parent: nat, state: PState, exitCode: int, pc: Pc)

  /** A finished wait: who reaped whom, and the exit code returned. */
  datatype Reap = Reap(parent: nat, child: nat, code: int)

  datatype State = State(
    table: map<nat, Pcb>,     // process_table; a missing slot is NULL
    ring: seq<nat>,           // the run queue, as slots, from its head
    current: nat,
    interrupts: bool,
    switching: bool,          // current_process is set, switch_context has not happened yet
    wild: bool,               // a freed or overwritten structure was used; nothing is claimed from here on
    nextPid: nat,
    exits: map<nat, int>,     // history: the code each pid passed to sys_exit
    parents: map<nat, nat>,   // history: who created each pid
    released: seq<nat>,       // history: pids whose directory and stack were freed
    reaps: seq<Reap>,         // history: finished waits
    refusals: seq<nat>)       // history: who was told by sys_wait, with -1, that it has no children

  /** What the timer's scheduler_tick does: which sleepers are due, whether it looks for another process,
      and whom it switches to. */
  datatype Tick = Tick(woken: set<nat>, walks: bool, next: Option<nat>)

  datatype Event =
    | Timer(t: Tick)
    | Step
    | Yield
    | Spot(q: nat)                // the yield's scan for sleepers finds q due
    | Choose(next: Option<nat>)     // the yield's walk ends
    | Switch                      // switch_context
    | Tear                        // a timer interrupt inside what the machine takes for one step
    | Fork(slot: nat)
    | Exit(code: int)
    | Wait(w: Target)
    | Sleep

  /** Between cli and sti. */
  predicate Masked(pc: Pc) {
    pc.ExitMark? || pc.ExitWake? || pc.ExitSti? || pc.WaitScan? || pc.WaitBlock? || pc.WaitSti? || pc.NoneSti? || pc.ReapSti?
  }

  /** Inside scheduler_yield. */
  predicate InYield(pc: Pc) {
    pc.Yielding? || pc.Marking? || pc.Picked?
  }

  /** Inside the link writes of scheduler_add. */
  predicate Linking(pc: Pc) {
    pc.AddLink? || pc.AddTail?
  }

  predicate Matches(p: Pcb, me: nat, w: Target) {
    match w
    case AnyChild => p.parent == me
    case Child(q) => p.pid == q
  }

  /** The scan loop: the first slot from i on that holds a dead match. */
  function FirstDead(table: map<nat, Pcb>, me: nat, w: Target, i: nat): (c: Option<nat>)
    requires i <= MAX_PROCESSES
    ensures c.Some? ==> i <= c.value < MAX_PROCESSES && c.value in table
    ensures c.Some? ==> Matches(table[c.value], me, w) && table[c.value].state.Dead?
    ensures c.Some? ==> forall d | d in table && i <= d < c.value && Matches(table[d], me, w) :: !table[d].state.Dead?
    ensures c.None? ==> forall d | d in table && i <= d < MAX_PROCESSES && Matches(table[d], me, w) :: !table[d].state.Dead?
    decreases MAX_PROCESSES - i
  {
    if i == MAX_PROCESSES then None
    else if i in table && Matches(table[i], me, w) && table[i].state.Dead? then Some(i)
    else FirstDead(table, me, w, i + 1)
  }

  predicate HasChild(table: map<nat, Pcb>, me: nat) {
    exists c :: c in table && table[c].parent == me
  }

  function Set(s: State, p: nat, q: Pcb): State {
    s.(table := s.table[p := q])
  }

  function Goto(s: State, pc: Pc): State
    requires s.current in s.table
  {
    Set(s, s.current, s.table[s.current].(pc := pc))
  }

  // ---------- scheduler_tick ----------

  function Wake(table: map<nat, Pcb>, woken: set<nat>): map<nat, Pcb> {
    map p | p in table :: if p in woken && table[p].state.Sleeping? then table[p].(state := Ready) else table[p]
  }

  /** A walk may end at a queued ready process, or back at the current one if there is no other. */
  predicate WalkOk(s: State, table: map<nat, Pcb>, next: Option<nat>) {
    match next
    case Some(n) => n in s.ring && n in table && n != s.current && table[n].state.Ready?
    case None => forall n | n in s.ring && n in table && n != s.current :: !table[n].state.Ready?
  }

  /** A tick without a walk is one in a running process, not the idle one, with time left. */
  predicate TickOk(s: State, t: Tick)
    requires s.current in s.table
  {
    var table := Wake(s.table, t.woken);
    if t.walks then WalkOk(s, table, t.next)
    else t.next.None? && table[s.current].state.Running? && table[s.current].pid != 0
  }

  /** Some process after the current one in the queue, up to its end, is ready. */
  predicate ReadyAhead(s: State, table: map<nat, Pcb>) {
    exists i, j | 0 <= i < j < |s.ring| ::
      s.ring[i] == s.current && s.ring[j] in table && table[s.ring[j]].state.Ready?
  }

  /** A walk runs into the NULL behind a process that is only half linked in. */
  predicate Falls(s: State, table: map<nat, Pcb>) {
    (exists p :: p in s.table && s.table[p].pc.AddLink?) && !ReadyAhead(s, table)
  }

  function Wild(s: State): State {
    s.(wild := true)
  }

  /** The timer's tick. If it switches between current_process = new and switch_context of an interrupted
      yield, it saves the interrupted context as that of the wrong process. */
  function Ticked(s: State, t: Tick): State
    requires s.current in s.table && TickOk(s, t)
  {
    var table := Wake(s.table, t.woken);
    if t.walks && Falls(s, table) then Wild(s)
    else
      match t.next
      case None => s.(table := table)
      case Some(n) =>
        if s.switching then Wild(s)
        else
          var was := table[s.current];
          var out := if was.state.Running? then was.(state := Ready) else was;
          s.(table := table[s.current := out][n := table[n].(state := Running)], current := n)
  }

  // ---------- scheduler_yield ----------

  function Resume(k: After): Pc {
    match k
    case ToUser => User
    case ToGone => Gone
    case ToWait(w) => WaitCli(w)
  }

  /** The write of scheduler_wake_sleepers for a process it found asleep, which may have moved on. */
  function Marked(s: State, q: nat, pid: nat, k: After): State
    requires s.current in s.table
  {
    if q in s.table && s.table[q].pid == pid then
      var out := Goto(s, Yielding(k));
      Set(out, q, out.table[q].(state := Ready))
    else Wild(s)
  }

  function Walked(s: State, next: Option<nat>, k: After): State
    requires s.current in s.table && (next.Some? ==> next.value in s.table)
  {
    if Falls(s, s.table) then Wild(s)
    else if next.None? then Goto(s, Resume(k))
    else Goto(s, Picked(next.value, s.table[next.value].pid, k))
  }

  /** The second half of the yield's tick: the switch to the process picked before, whatever has become
      of it since. */
  function Committed(s: State, n: nat, pid: nat, k: After): State
    requires s.current in s.table
  {
    if n in s.table && s.table[n].pid == pid then
      var out := Goto(s, Resume(k));
      var was := out.table[s.current];
      var left := if was.state.Running? then was.(state := Ready) else was;
      var table := out.table[s.current := left];
      out.(table := table[n := table[n].(state := Running)], current := n, switching := true)
    else Wild(s)
  }

  // ---------- One step of the current process ----------

  /** sys_exit's loop over the table: the parent, if it has one and it is blocked. */
  predicate WakesParent(s: State, p: nat)
    requires s.current in s.table
  {
    var me := s.table[s.current];
    me.parent > 0 && p in s.table && s.table[p].pid == me.parent && s.table[p].state.Blocked?
  }

  function WakeParent(s: State): map<nat, Pcb>
    requires s.current in s.table
  {
    map p | p in s.table :: if WakesParent(s, p) then s.table[p].(state := Ready) else s.table[p]
  }

  function Without(ring: seq<nat>, c: nat): seq<nat> {
    if ring == [] then [] else if ring[0] == c then ring[1..] else [ring[0]] + Without(ring[1..], c)
  }

  predicate Enabled(s: State, e: Event) {
    && !s.wild && s.current in s.table
    && (s.switching ==> e.Timer? || e.Switch?)
    && var me := s.table[s.current];
       match e
       case Timer(t) => s.interrupts && TickOk(s, t)
       case Switch => s.switching
       case Tear => s.interrupts && (InYield(me.pc) || me.pc.ForkFill?)
       case Yield => me.pc.User? && s.current != 0
       case Spot(q) => me.pc.Yielding? && q in s.table && s.table[q].state.Sleeping?
       case Choose(next) => me.pc.Yielding? && WalkOk(s, s.table, next)
       case Step => !(me.pc.User? || me.pc.Yielding? || me.pc.Gone?) &&
                    (me.pc.ForkAdd? ==> me.pc.slot in s.table) &&
                    (me.pc.ReapRead? || me.pc.ReapUnlink? || me.pc.ReapFree? || me.pc.ReapClear? ==> me.pc.c in s.table)
       case Fork(slot) => me.pc.User? && slot < MAX_PROCESSES && slot !in s.table
       // The idle process, in slot 0, never exits, waits, sleeps or yields.
       case Exit(code) => me.pc.User? && s.current != 0
       case Sleep => me.pc.User? && s.current != 0
       case Wait(w) =>
         me.pc.User? && s.current != 0 &&
         (w.Child? ==> exists c :: c in s.table && s.table[c].pid == w.pid && s.table[c].parent == me.pid)
  }

  /** sys_exit after its wake-up loop. */
  function Woken(s: State): State
    requires s.current in s.table
  {
    Goto(s.(table := WakeParent(s)), ExitSti)
  }

  /** process_fork and process_create: the table slot, unless somebody else took it meanwhile. */
  function Filled(s: State, slot: nat): State
    requires s.current in s.table
  {
    if slot in s.table then Wild(s) else Forked(s, slot)
  }

  function Forked(s: State, slot: nat): State
    requires s.current in s.table
  {
    var me := s.table[s.current];
    var child := Pcb(s.nextPid, me.pid, Ready, me.exitCode, User);
    var s1 := Goto(s, ForkAdd(slot));
    s1.(table := s1.table[slot := child], nextPid := s.nextPid + 1, parents := s.parents[s.nextPid := me.pid])
  }

  /** The first link write of scheduler_add. If another process is in the middle of its own, one of the
      two new processes drops out of the queue. */
  function Linked(s: State, slot: nat): State
    requires s.current in s.table
  {
    if exists p :: p in s.table && Linking(s.table[p].pc) then Wild(s) else Queued(s, slot)
  }

  function Queued(s: State, slot: nat): State
    requires s.current in s.table
  {
    Goto(s, AddLink(slot)).(ring := s.ring + [slot])
  }

  /** scheduler_remove of the dead child. */
  function Unlinked(s: State, c: nat, code: int): State
    requires s.current in s.table
  {
    Goto(s, ReapFree(c, code)).(ring := Without(s.ring, c))
  }

  /** paging_free_directory and pmm_free of the child's stack. */
  function Released(s: State, c: nat, code: int): State
    requires s.current in s.table && c in s.table
  {
    Goto(s, ReapClear(c, code)).(released := s.released + [s.table[c].pid])
  }

  /** The slot is cleared, the PCB freed, and the wait returns. */
  function Cleared(s: State, c: nat, code: int): State
    requires s.current in s.table && c in s.table
  {
    var s1 := Goto(s, User);
    s1.(table := s1.table - {c}, reaps := s.reaps + [Reap(s.table[s.current].pid, s.table[c].pid, code)])
  }

  /** sys_wait returns -1. */
  function Refused(s: State): State
    requires s.current in s.table
  {
    Goto(s, User).(interrupts := true, refusals := s.refusals + [s.table[s.current].pid])
  }

  function Apply(s: State, e: Event): State
    requires Enabled(s, e)
  {
    var me := s.table[s.current];
    match e
    case Timer(t) => Ticked(s, t)
    case Switch => s.(switching := false)
    case Tear => Wild(s)
    case Yield => Goto(s, Yielding(ToUser))
    case Spot(q) => Goto(s, Marking(q, s.table[q].pid, me.pc.k))
    case Choose(next) => Walked(s, next, me.pc.k)
    case Fork(slot) => Goto(s, ForkFill(slot))
    case Exit(code) =>
      Set(s, s.current, me.(exitCode := code, pc := ExitCli)).(exits := s.exits[me.pid := code])
    case Wait(w) => Goto(s, WaitCli(w))
    case Sleep => Set(s, s.current, me.(state := Sleeping, pc := Yielding(ToUser)))
    case Step => Stepped(s)
  }

  function Stepped(s: State): State
    requires Enabled(s, Step)
  {
    var me := s.table[s.current];
    match me.pc
    case ForkFill(slot) => Filled(s, slot)
    case ForkAdd(slot) => Linked(s, slot)
    case AddLink(slot) => Goto(s, AddTail(slot))
    case AddTail(slot) => Goto(s, User)
    case Marking(q, pid, k) => Marked(s, q, pid, k)
    case Picked(n, pid, k) => Committed(s, n, pid, k)
    case ExitCli => Goto(s, ExitMark).(interrupts := false)
    case ExitMark => Set(s, s.current, me.(state := Dead, pc := ExitWake))
    case ExitWake => Woken(s)
    case ExitSti => Goto(s, Yielding(ToGone)).(interrupts := true)
    case WaitCli(w) => Goto(s, WaitScan(w)).(interrupts := false)
    case WaitScan(w) =>
      var found := FirstDead(s.table, me.pid, w, 0);
      if found.Some? then Goto(s, ReapSti(found.value))
      else if w.AnyChild? && !HasChild(s.table, me.pid) then Goto(s, NoneSti)
      else Goto(s, WaitBlock(w))
    case WaitBlock(w) => Set(s, s.current, me.(state := Blocked, pc := WaitSti(w)))
    case WaitSti(w) => Goto(s, Yielding(ToWait(w))).(interrupts := true)
    case NoneSti => Refused(s)
    case ReapSti(c) => Goto(s, ReapRead(c)).(interrupts := true)
    case ReapRead(c) => Goto(s, ReapUnlink(c, s.table[c].exitCode))
    case ReapUnlink(c, code) => Unlinked(s, c, code)
    case ReapFree(c, code) => Released(s, c, code)
    case ReapClear(c, code) => Cleared(s, c, code)
    case _ => s
  }

  // ---------- What the code leaves to chance ----------

  /** The process found earlier is still that process and has not died meanwhile. */
  predicate Alive(s: State, q: nat, pid: nat) {
    q in s.table && s.table[q].pid == pid && !s.table[q].state.Dead?
  }

  /** The event finds what an earlier step of the same code relied on. Nothing in the code makes it so. */
  predicate Careful(s: State, e: Event)
    requires Enabled(s, e)
  {
    match e
    case Timer(t) => !(t.walks && Falls(s, Wake(s.table, t.woken))) && (s.switching ==> t.next.None?)
    case Tear => false
    case Choose(_) => !Falls(s, s.table)
    case Step =>
      (match s.table[s.current].pc
       case ForkFill(slot) => slot !in s.table
       case ForkAdd(_) => forall p | p in s.table :: !Linking(s.table[p].pc)
       case Marking(q, pid, _) => Alive(s, q, pid)
       case Picked(n, pid, _) => Alive(s, n, pid) && n in s.ring
       case _ => true)
    case _ => true
  }

  // ---------- The invariant ----------

  ghost predicate Distinct<T>(xs: seq<T>) {
    forall i, j | 0 <= i < j < |xs| :: xs[i] != xs[j]
  }

  /** The table, the run queue and the idle process. */
  ghost predicate Shape(s: State) {
    && (forall p | p in s.table :: p < MAX_PROCESSES)
    && (forall p, q | p in s.table && q in s.table && p != q :: s.table[p].pid != s.table[q].pid)
    && (forall p | p in s.table :: s.table[p].pid < s.nextPid && s.table[p].pid in s.parents &&
                                   s.parents[s.table[p].pid] == s.table[p].parent)
    && 0 in s.table && s.table[0].pid == 0 && 0 in s.ring
    && s.table[0].state == (if s.current == 0 then Running else Ready)
    && s.current in s.table && s.current in s.ring
    && Distinct(s.ring) && (forall p | p in s.ring :: p in s.table)
  }

  predicate Exiting(pc: Pc) {
    pc.ExitCli? || pc.ExitMark? || Finished(pc)
  }

  /** Past the point where sys_exit marks the process dead. */
  predicate Finished(pc: Pc) {
    pc.ExitWake? || pc.ExitSti? || (InYield(pc) && pc.k.ToGone?) || pc.Gone?
  }

  /** What the process is waiting for, anywhere in its wait loop. */
  function WaitsFor(pc: Pc): Option<Target> {
    if pc.WaitCli? || pc.WaitScan? || pc.WaitBlock? || pc.WaitSti? then Some(pc.w)
    else if InYield(pc) && pc.k.ToWait? then Some(pc.k.w)
    else None
  }

  /** Where the idle process may stand. */
  predicate IdlePc(pc: Pc) {
    pc.User? || pc.ForkFill? || pc.ForkAdd? || Linking(pc)
  }

  predicate Reaping(pc: Pc) {
    pc.ReapSti? || pc.ReapRead? || pc.ReapUnlink? || pc.ReapFree? || pc.ReapClear?
  }

  ghost predicate IsChild(s: State, c: nat, me: nat, w: Target) {
    c in s.table && s.table[c].parent == me && (w.Child? ==> s.table[c].pid == w.pid)
  }

  /** What holds of one process at its program point. */
  ghost predicate PcOk(s: State, p: nat)
    requires p in s.table
  {
    var me := s.table[p];
    && (p != s.current ==> !me.state.Running? && !Masked(me.pc))
    && (me.state.Dead? <==> Finished(me.pc))
    && (me.state.Blocked? ==> WaitsFor(me.pc).Some? && !me.pc.WaitScan? && !me.pc.WaitBlock?)
    && (p == 0 ==> IdlePc(me.pc))
    && (me.pc.ForkAdd? ==> var c := me.pc.slot;
          c in s.table && s.table[c].parent == me.pid && c !in s.ring && s.table[c].state.Ready? && s.table[c].pc.User?)
    && (WaitsFor(me.pc).Some? && WaitsFor(me.pc).value.Child? ==> exists c :: IsChild(s, c, me.pid, WaitsFor(me.pc).value))
    && (Exiting(me.pc) ==> me.pid in s.exits && s.exits[me.pid] == me.exitCode)
    && (Reaping(me.pc) ==> var c := me.pc.c;
          c in s.table && c != s.current && s.table[c].parent == me.pid && s.table[c].state.Dead?)
    && (me.pc.ReapUnlink? || me.pc.ReapFree? || me.pc.ReapClear? ==> me.pc.code == s.table[me.pc.c].exitCode)
    && (me.pc.ReapFree? || me.pc.ReapClear? ==> me.pc.c !in s.ring)
    && (me.pc.Marking? ==> me.pc.q != 0) && (me.pc.Picked? ==> me.pc.n != p)
    && (me.pc.ForkFill? ==> me.pc.slot < MAX_PROCESSES)
  }

  /** The interrupt flag follows the program counter, and whoever runs is neither gone nor blocked
      beyond its own yield. */
  ghost predicate CurrentOk(s: State)
    requires s.current in s.table
  {
    var me := s.table[s.current];
    && !s.wild && (s.interrupts <==> !Masked(me.pc)) && (s.switching ==> s.interrupts)
    && !me.pc.Gone? && !(me.state.Blocked? && me.pc.WaitCli?)
  }

  /** A process about to block, or blocked, has a child to be woken by: one that is not dead, or that
      is at this moment about to wake it. */
  ghost predicate WakeupPending(s: State, p: nat)
    requires p in s.table
  {
    var me := s.table[p];
    (me.state.Blocked? || me.pc.WaitBlock?) && WaitsFor(me.pc).Some? ==>
      && (exists c :: IsChild(s, c, me.pid, WaitsFor(me.pc).value))
      && (forall c | IsChild(s, c, me.pid, WaitsFor(me.pc).value) && s.table[c].state.Dead? ::
            c == s.current && s.table[c].pc.ExitWake?)
  }

  ghost predicate History(s: State) {
    && (forall i | 0 <= i < |s.reaps| ::
          var r := s.reaps[i];
          && r.child in s.exits && s.exits[r.child] == r.code
          && r.child in s.parents && s.parents[r.child] == r.parent
          && r.child < s.nextPid && (forall p | p in s.table :: s.table[p].pid != r.child))
    && (forall i, j | 0 <= i < j < |s.reaps| :: s.reaps[i].child != s.reaps[j].child)
    && Distinct(s.released)
    && (forall q | q in s.released :: q < s.nextPid)
    && (forall p | p in s.table && s.table[p].pid in s.released ::
          exists r :: r in s.table && s.table[r].pc.ReapClear? && s.table[r].pc.c == p)
  }

  ghost predicate Inv(s: State) {
    && Resting(s) && CurrentOk(s)
  }

  /** The invariant except for what concerns the running process alone. */
  ghost predicate Resting(s: State) {
    && Shape(s) && History(s)
    && (forall p | p in s.table :: PcOk(s, p))
    && (forall p | p in s.table :: WakeupPending(s, p))
  }

  /** Boot: the idle process alone, running. */
  predicate Init(s: State) {
    && s.table == map[0 := Pcb(0, 0, Running, 0, User)]
    && s.ring == [0] && s.current == 0 && s.interrupts && !s.switching && !s.wild && s.nextPid == 1
    && s.exits == map[] && s.parents == map[0 := 0] && s.released == [] && s.reaps == [] && s.refusals == []
  }
}
