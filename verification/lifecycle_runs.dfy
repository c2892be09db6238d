/** Whole runs of the exit and wait machine: what holds as long as every event is careful, and runs of
    the code as it is that break it. */
module LifecycleRuns {
  import opened Wrappers
  import opened Lifecycle
  import opened LifecycleSafety

  /** A run from boot: each state follows from the one before by one enabled event. */
  ghost predicate IsRun(run: seq<State>, events: seq<Event>) {
    && |run| == |events| + 1 && Init(run[0])
    && forall i | 0 <= i < |events| :: Enabled(run[i], events[i]) && run[i + 1] == Apply(run[i], events[i])
  }

  /** Every event before state i found what the code relied on. */
  ghost predicate CarefulTo(run: seq<State>, events: seq<Event>, i: nat) {
    && IsRun(run, events) && i < |run|
    && forall j | 0 <= j < i :: Enabled(run[j], events[j]) && Careful(run[j], events[j])
  }

  lemma {:induction false} Reachable(run: seq<State>, events: seq<Event>, i: nat)
    requires CarefulTo(run, events, i)
    ensures Inv(run[i])
  {
    if i == 0 {
      InitInv(run[0]);
    } else {
      Reachable(run, events, i - 1);
      hide Inv, Apply, Enabled, Init, Careful;
      assert run[i] == Apply(run[i - 1], events[i - 1]);
      ApplyInv(run[i - 1], events[i - 1]);
    }
  }

  /** The invariant lasts exactly as long as the events are careful: it fails right after the first one
      that is not. */
  lemma {:induction false} LastsAsLongAsCareful(run: seq<State>, events: seq<Event>, i: nat)
    requires CarefulTo(run, events, i) && i < |events|
    ensures Enabled(run[i], events[i]) && (Inv(run[i + 1]) <==> Careful(run[i], events[i]))
  {
    Reachable(run, events, i);
    hide Inv, Apply, Enabled, Init, Careful;
    ApplyExact(run[i], events[i]);
  }

  /** No lost wake-up: in every state so reached with interrupts on, a process blocked in sys_wait has a
      child and none of its children is dead, and one blocked in process_wait has its awaited child still
      in the table and not dead. */
  lemma {:induction false} NoLostWakeup(run: seq<State>, events: seq<Event>, i: nat, p: nat)
    requires CarefulTo(run, events, i) && run[i].interrupts
    requires p in run[i].table && run[i].table[p].state.Blocked?
    ensures var s := run[i];
            var me := s.table[p];
            && WaitsFor(me.pc).Some?
            && (exists c :: IsChild(s, c, me.pid, WaitsFor(me.pc).value))
            && (forall c | IsChild(s, c, me.pid, WaitsFor(me.pc).value) :: !s.table[c].state.Dead?)
  {
    Reachable(run, events, i);
    var s := run[i];
    hide Shape, History, CarefulTo;
    assert PcOk(s, p) && WakeupPending(s, p) && PcOk(s, s.current);
  }

  /** Each dead child is reaped at most once, by its parent, with the code it passed to sys_exit; and
      its frames are released at most once. */
  lemma {:induction false} ReapedOnce(run: seq<State>, events: seq<Event>, i: nat)
    requires CarefulTo(run, events, i)
    ensures var s := run[i];
            && (forall j, k | 0 <= j < k < |s.reaps| :: s.reaps[j].child != s.reaps[k].child)
            && (forall j | 0 <= j < |s.reaps| ::
                  var r := s.reaps[j];
                  r.child in s.parents && s.parents[r.child] == r.parent && r.child in s.exits && s.exits[r.child] == r.code)
            && Distinct(s.released)
  {
    Reachable(run, events, i);
    hide Shape, PcOk, WakeupPending, CarefulTo;
  }

  /** In every state so reached the queue holds each process once, all of them in the table, the current
      one among them, and nobody else is running; a process past its exit never runs again. */
  lemma {:induction false} QueueSound(run: seq<State>, events: seq<Event>, i: nat)
    requires CarefulTo(run, events, i)
    ensures var s := run[i];
            && Distinct(s.ring) && (forall p | p in s.ring :: p in s.table && p < MAX_PROCESSES)
            && s.current in s.ring
            && (forall p | p in s.table && s.table[p].state.Running? :: p == s.current)
            && !s.table[s.current].pc.Gone?
  {
    Reachable(run, events, i);
    var s := run[i];
    hide History, WakeupPending, CarefulTo;
    Mine(s);
    NobodyElseRuns(s);
  }

  // ---------- Runs that break it ----------

  function Last(run: seq<State>): State
    requires run != []
  {
    run[|run| - 1]
  }

  /** Event e leads from s to t. */
  predicate Becomes(s: State, e: Event, t: State) {
    Enabled(s, e) && Apply(s, e) == t
  }

  lemma Extend(run: seq<State>, events: seq<Event>, e: Event, next: State) returns (run': seq<State>, events': seq<Event>)
    requires IsRun(run, events) && Becomes(Last(run), e, next)
    ensures IsRun(run', events') && Last(run') == next && |events'| == |events| + 1
    ensures events' == events + [e] && run' == run + [next]
  {
    hide Apply, Enabled, Init;
    run', events' := run + [next], events + [e];
    forall i | 0 <= i < |events'| ensures Enabled(run'[i], events'[i]) && run'[i + 1] == Apply(run'[i], events'[i]) {
      if i < |events| { assert run'[i] == run[i] && run'[i + 1] == run[i + 1] && events'[i] == events[i]; }
    }
  }

  /** The state after a complete fork into the slot. */
  function NewChild(s: State, slot: nat): State
    requires s.current in s.table
  {
    var me := s.table[s.current];
    s.(table := s.table[slot := Pcb(s.nextPid, me.pid, Ready, me.exitCode, User)],
       ring := s.ring + [slot], nextPid := s.nextPid + 1, parents := s.parents[s.nextPid := me.pid])
  }

  /** The current process may take a step. */
  predicate AtWork(s: State) {
    !s.wild && !s.switching && s.current in s.table
  }

  lemma FillStep(s: State, slot: nat)
    requires AtWork(s) && s.table[s.current].pc == ForkFill(slot) && slot !in s.table
    ensures Enabled(s, Step) && Apply(s, Step) == Forked(s, slot)
  {
  }

  lemma LinkStep(s: State, slot: nat)
    requires AtWork(s) && s.table[s.current].pc == ForkAdd(slot) && slot in s.table
    requires forall p | p in s.table :: !Linking(s.table[p].pc)
    ensures Enabled(s, Step) && Apply(s, Step) == Queued(s, slot)
  {
  }

  lemma TailStep(s: State, slot: nat)
    requires AtWork(s) && s.table[s.current].pc == AddLink(slot)
    ensures Enabled(s, Step) && Apply(s, Step) == Goto(s, AddTail(slot))
  {
  }

  lemma LinkedStep(s: State, slot: nat)
    requires AtWork(s) && s.table[s.current].pc == AddTail(slot)
    ensures Enabled(s, Step) && Apply(s, Step) == Goto(s, User)
  {
  }

  /** A fork that nothing disturbs, from the search for a slot to the last link write. */
  lemma {:induction false} ForkRun(run: seq<State>, events: seq<Event>, slot: nat)
    returns (run': seq<State>, events': seq<Event>)
    requires IsRun(run, events) && Enabled(Last(run), Fork(slot)) && slot != Last(run).current
    requires forall p | p in Last(run).table :: !Linking(Last(run).table[p].pc)
    ensures IsRun(run', events') && Last(run').current in Last(run').table && Last(run') == NewChild(Last(run), slot)
  {
    var s := Last(run);
    ForkSteps(s, slot);
    hide IsRun, Becomes, Enabled, Goto, Forked, Queued, NewChild;
    var a := Goto(s, ForkFill(slot));
    var b := Forked(a, slot);
    var c := Queued(b, slot);
    var d := Goto(c, AddTail(slot));
    run', events' := Extend(run, events, Fork(slot), a);
    run', events' := Extend(run', events', Step, b);
    run', events' := Extend(run', events', Step, c);
    run', events' := Extend(run', events', Step, d);
    run', events' := Extend(run', events', Step, NewChild(s, slot));
  }

  lemma {:induction false} ForkSteps(s: State, slot: nat)
    requires Enabled(s, Fork(slot)) && slot != s.current
    requires forall p | p in s.table :: !Linking(s.table[p].pc)
    ensures var a := Goto(s, ForkFill(slot));
            && a.current in a.table && Becomes(s, Fork(slot), a)
            && var b := Forked(a, slot);
               && b.current in b.table && Becomes(a, Step, b)
               && var c := Queued(b, slot);
                  && c.current in c.table && Becomes(b, Step, c)
                  && var d := Goto(c, AddTail(slot));
                     Becomes(c, Step, d) && Becomes(d, Step, NewChild(s, slot)) && s.current in NewChild(s, slot).table
    ensures NewChild(s, slot).current == s.current
  {
    var a := Goto(s, ForkFill(slot));
    assert Apply(s, Fork(slot)) == a && AtWork(a) && slot !in s.table;
    hide Apply, Enabled;
    FillStep(a, slot);
    var b := Forked(a, slot);
    LinkStep(b, slot);
    var c := Queued(b, slot);
    TailStep(c, slot);
    var d := Goto(c, AddTail(slot));
    LinkedStep(d, slot);
    assert Goto(d, User).table == NewChild(s, slot).table;
  }

  const IDLE := Pcb(0, 0, Ready, 0, User)

  /** The idle process waiting for its turn, its child 1 and that one's child 2. */
  function Three(one: Pcb, two: Pcb, current: nat, on: bool, switching: bool, exits: map<nat, int>): State {
    State(map[0 := IDLE, 1 := one, 2 := two], [0, 1, 2], current, on, switching, false, 3, exits,
          map[0 := 0, 1 := 0, 2 := 1], [], [], [])
  }

  function One(state: PState, pc: Pc): Pcb {
    Pcb(1, 0, state, 0, pc)
  }

  function Two(state: PState, code: int, pc: Pc): Pcb {
    Pcb(2, 1, state, code, pc)
  }

  /** Boot, a child of the idle process, and a child of that child, which runs. */
  lemma {:induction false} TwoForks() returns (run: seq<State>, events: seq<Event>)
    ensures IsRun(run, events) && Last(run) == Three(One(Running, User), Two(Ready, 0, User), 1, true, false, map[])
  {
    run, events := [BOOT], [];
    run, events := ForkRun(run, events, 1);
    var a := NewChild(BOOT, 1);
    var t := Tick({}, true, Some(1));
    var b := State(map[0 := IDLE, 1 := One(Running, User)], [0, 1], 1, true, false, false, 2, map[], map[0 := 0, 1 := 0], [], [], []);
    assert a.table == map[0 := Pcb(0, 0, Running, 0, User), 1 := One(Ready, User)] && a.ring == [0, 1];
    assert Wake(a.table, {}) == a.table;
    assert Ticked(a, t).table == b.table;
    run, events := Extend(run, events, Timer(t), b);
    run, events := ForkRun(run, events, 2);
    assert NewChild(b, 2).table == map[0 := IDLE, 1 := One(Running, User), 2 := Two(Ready, 0, User)];
  }

  const SECOND := Child(2)

  /** The timer interrupts process p and runs process n of the two. */
  lemma TimerStep(one: Pcb, two: Pcb, current: nat, exits: map<nat, int>)
    requires (current == 1 && two.state.Ready?) || (current == 2 && one.state.Ready?)
    requires !one.pc.AddLink? && !two.pc.AddLink?
    ensures var left := (q: Pcb) => if q.state.Running? then q.(state := Ready) else q;
            if current == 1 then
              Becomes(Three(one, two, 1, true, false, exits), Timer(Tick({}, true, Some(2))),
                      Three(left(one), two.(state := Running), 2, true, false, exits))
            else
              Becomes(Three(one, two, 2, true, false, exits), Timer(Tick({}, true, Some(1))),
                      Three(one.(state := Running), left(two), 1, true, false, exits))
  {
    var s := Three(one, two, current, true, false, exits);
    assert Wake(s.table, {}) == s.table;
    var left := (q: Pcb) => if q.state.Running? then q.(state := Ready) else q;
    if current == 1 {
      assert Ticked(s, Tick({}, true, Some(2))).table == map[0 := IDLE, 1 := left(one), 2 := two.(state := Running)];
    } else {
      assert Ticked(s, Tick({}, true, Some(1))).table == map[0 := IDLE, 1 := one.(state := Running), 2 := left(two)];
    }
  }

  /** A step of process 1 that only changes its own entry. */
  lemma OneStep(one: Pcb, two: Pcb, exits: map<nat, int>, on: bool, e: Event, one': Pcb, on': bool)
    requires var s := Three(one, two, 1, on, false, exits);
             Enabled(s, e) && Apply(s, e) == s.(table := s.table[1 := one'], interrupts := on')
    ensures Becomes(Three(one, two, 1, on, false, exits), e, Three(one', two, 1, on', false, exits))
  {
    assert Three(one, two, 1, on, false, exits).table[1 := one'] == map[0 := IDLE, 1 := one', 2 := two];
  }

  lemma TwoStep(one: Pcb, two: Pcb, exits: map<nat, int>, on: bool, e: Event, two': Pcb, on': bool, exits': map<nat, int>)
    requires var s := Three(one, two, 2, on, false, exits);
             Enabled(s, e) && Apply(s, e) == s.(table := s.table[2 := two'], interrupts := on', exits := exits')
    ensures Becomes(Three(one, two, 2, on, false, exits), e, Three(one, two', 2, on', false, exits'))
  {
    assert Three(one, two, 2, on, false, exits).table[2 := two'] == map[0 := IDLE, 1 := one, 2 := two'];
  }

  lemma MaskStep(two: Pcb, exits: map<nat, int>)
    ensures Becomes(Three(One(Running, WaitCli(SECOND)), two, 1, true, false, exits), Step,
                    Three(One(Running, WaitScan(SECOND)), two, 1, false, false, exits))
  {
    OneStep(One(Running, WaitCli(SECOND)), two, exits, true, Step, One(Running, WaitScan(SECOND)), false);
  }

  lemma ScanStep(two: Pcb, exits: map<nat, int>)
    requires two.pid == 2 && !two.state.Dead?
    ensures Becomes(Three(One(Running, WaitScan(SECOND)), two, 1, false, false, exits), Step,
                    Three(One(Running, WaitBlock(SECOND)), two, 1, false, false, exits))
  {
    assert FirstDead(Three(One(Running, WaitScan(SECOND)), two, 1, false, false, exits).table, 1, SECOND, 0).None?;
    hide FirstDead;
    OneStep(One(Running, WaitScan(SECOND)), two, exits, false, Step, One(Running, WaitBlock(SECOND)), false);
  }

  lemma BlockStep(two: Pcb, exits: map<nat, int>)
    ensures Becomes(Three(One(Running, WaitBlock(SECOND)), two, 1, false, false, exits), Step,
                    Three(One(Blocked, WaitSti(SECOND)), two, 1, false, false, exits))
  {
    OneStep(One(Running, WaitBlock(SECOND)), two, exits, false, Step, One(Blocked, WaitSti(SECOND)), false);
  }

  lemma UnmaskStep(two: Pcb, exits: map<nat, int>)
    ensures Becomes(Three(One(Blocked, WaitSti(SECOND)), two, 1, false, false, exits), Step,
                    Three(One(Blocked, Yielding(ToWait(SECOND))), two, 1, true, false, exits))
  {
    OneStep(One(Blocked, WaitSti(SECOND)), two, exits, false, Step, One(Blocked, Yielding(ToWait(SECOND))), true);
  }

  /** Process 1 looks for its child, does not find it dead, and blocks. */
  lemma {:induction false} WaitRun(run: seq<State>, events: seq<Event>, two: Pcb, exits: map<nat, int>)
    returns (run': seq<State>, events': seq<Event>)
    requires IsRun(run, events) && two.pid == 2 && !two.state.Dead?
    requires Last(run) == Three(One(Running, WaitCli(SECOND)), two, 1, true, false, exits)
    ensures IsRun(run', events') && Last(run') == Three(One(Blocked, Yielding(ToWait(SECOND))), two, 1, true, false, exits)
    ensures run <= run'
  {
    hide IsRun, Becomes;
    MaskStep(two, exits);
    run', events' := Extend(run, events, Step, Three(One(Running, WaitScan(SECOND)), two, 1, false, false, exits));
    ScanStep(two, exits);
    run', events' := Extend(run', events', Step, Three(One(Running, WaitBlock(SECOND)), two, 1, false, false, exits));
    BlockStep(two, exits);
    run', events' := Extend(run', events', Step, Three(One(Blocked, WaitSti(SECOND)), two, 1, false, false, exits));
    UnmaskStep(two, exits);
    run', events' := Extend(run', events', Step, Three(One(Blocked, Yielding(ToWait(SECOND))), two, 1, true, false, exits));
  }

  const STALE := Picked(2, 2, ToWait(SECOND))

  lemma WaitCall()
    ensures Becomes(Three(One(Running, User), Two(Ready, 0, User), 1, true, false, map[]), Wait(SECOND),
                    Three(One(Running, WaitCli(SECOND)), Two(Ready, 0, User), 1, true, false, map[]))
  {
    assert Three(One(Running, User), Two(Ready, 0, User), 1, true, false, map[]).table[2].pid == 2;
    OneStep(One(Running, User), Two(Ready, 0, User), map[], true, Wait(SECOND), One(Running, WaitCli(SECOND)), true);
  }

  lemma PickTwo()
    ensures Becomes(Three(One(Blocked, Yielding(ToWait(SECOND))), Two(Ready, 0, User), 1, true, false, map[]), Choose(Some(2)),
                    Three(One(Blocked, STALE), Two(Ready, 0, User), 1, true, false, map[]))
  {
    OneStep(One(Blocked, Yielding(ToWait(SECOND))), Two(Ready, 0, User), map[], true, Choose(Some(2)), One(Blocked, STALE), true);
  }

  /** Process 1 waits for process 2, blocks, and its yield picks 2. */
  lemma {:induction false} Waits(run: seq<State>, events: seq<Event>) returns (run': seq<State>, events': seq<Event>)
    requires IsRun(run, events) && Last(run) == Three(One(Running, User), Two(Ready, 0, User), 1, true, false, map[])
    ensures IsRun(run', events') && Last(run') == Three(One(Blocked, STALE), Two(Ready, 0, User), 1, true, false, map[])
  {
    hide IsRun, Becomes;
    var two := Two(Ready, 0, User);
    WaitCall();
    run', events' := Extend(run, events, Wait(SECOND), Three(One(Running, WaitCli(SECOND)), two, 1, true, false, map[]));
    run', events' := WaitRun(run', events', two, map[]);
    PickTwo();
    run', events' := Extend(run', events', Choose(Some(2)), Three(One(Blocked, STALE), two, 1, true, false, map[]));
  }

  const EXITS := map[2 := 7]

  lemma ExitCall()
    ensures Becomes(Three(One(Blocked, STALE), Two(Running, 0, User), 2, true, false, map[]), Exit(7),
                    Three(One(Blocked, STALE), Two(Running, 7, ExitCli), 2, true, false, EXITS))
  {
    TwoStep(One(Blocked, STALE), Two(Running, 0, User), map[], true, Exit(7), Two(Running, 7, ExitCli), true, EXITS);
  }

  lemma ExitMask()
    ensures Becomes(Three(One(Blocked, STALE), Two(Running, 7, ExitCli), 2, true, false, EXITS), Step,
                    Three(One(Blocked, STALE), Two(Running, 7, ExitMark), 2, false, false, EXITS))
  {
    TwoStep(One(Blocked, STALE), Two(Running, 7, ExitCli), EXITS, true, Step, Two(Running, 7, ExitMark), false, EXITS);
  }

  lemma ExitDie()
    ensures Becomes(Three(One(Blocked, STALE), Two(Running, 7, ExitMark), 2, false, false, EXITS), Step,
                    Three(One(Blocked, STALE), Two(Dead, 7, ExitWake), 2, false, false, EXITS))
  {
    TwoStep(One(Blocked, STALE), Two(Running, 7, ExitMark), EXITS, false, Step, Two(Dead, 7, ExitWake), false, EXITS);
  }

  lemma ExitWakes()
    ensures Becomes(Three(One(Blocked, STALE), Two(Dead, 7, ExitWake), 2, false, false, EXITS), Step,
                    Three(One(Ready, STALE), Two(Dead, 7, ExitSti), 2, false, false, EXITS))
  {
    var s := Three(One(Blocked, STALE), Two(Dead, 7, ExitWake), 2, false, false, EXITS);
    assert WakeParent(s) == map[0 := IDLE, 1 := One(Ready, STALE), 2 := Two(Dead, 7, ExitWake)];
    assert Apply(s, Step).table == map[0 := IDLE, 1 := One(Ready, STALE), 2 := Two(Dead, 7, ExitSti)];
  }

  lemma ExitUnmask()
    ensures Becomes(Three(One(Ready, STALE), Two(Dead, 7, ExitSti), 2, false, false, EXITS), Step,
                    Three(One(Ready, STALE), Two(Dead, 7, Yielding(ToGone)), 2, true, false, EXITS))
  {
    TwoStep(One(Ready, STALE), Two(Dead, 7, ExitSti), EXITS, false, Step, Two(Dead, 7, Yielding(ToGone)), true, EXITS);
  }

  /** Before that yield switches, the timer runs process 2, which exits and wakes its parent. */
  lemma {:induction false} Dies(run: seq<State>, events: seq<Event>) returns (run': seq<State>, events': seq<Event>)
    requires IsRun(run, events) && Last(run) == Three(One(Blocked, STALE), Two(Ready, 0, User), 1, true, false, map[])
    ensures IsRun(run', events') && Last(run') == Three(One(Ready, STALE), Two(Dead, 7, Yielding(ToGone)), 2, true, false, EXITS)
  {
    hide IsRun, Becomes;
    var one := One(Blocked, STALE);
    TimerStep(one, Two(Ready, 0, User), 1, map[]);
    run', events' := Extend(run, events, Timer(Tick({}, true, Some(2))), Three(one, Two(Running, 0, User), 2, true, false, map[]));
    ExitCall();
    run', events' := Extend(run', events', Exit(7), Three(one, Two(Running, 7, ExitCli), 2, true, false, EXITS));
    ExitMask();
    run', events' := Extend(run', events', Step, Three(one, Two(Running, 7, ExitMark), 2, false, false, EXITS));
    ExitDie();
    run', events' := Extend(run', events', Step, Three(one, Two(Dead, 7, ExitWake), 2, false, false, EXITS));
    ExitWakes();
    run', events' := Extend(run', events', Step, Three(One(Ready, STALE), Two(Dead, 7, ExitSti), 2, false, false, EXITS));
    ExitUnmask();
    run', events' := Extend(run', events', Step, Three(One(Ready, STALE), Two(Dead, 7, Yielding(ToGone)), 2, true, false, EXITS));
  }

  lemma PickOne()
    ensures Becomes(Three(One(Ready, STALE), Two(Dead, 7, Yielding(ToGone)), 2, true, false, EXITS), Choose(Some(1)),
                    Three(One(Ready, STALE), Two(Dead, 7, Picked(1, 1, ToGone)), 2, true, false, EXITS))
  {
    TwoStep(One(Ready, STALE), Two(Dead, 7, Yielding(ToGone)), EXITS, true, Choose(Some(1)), Two(Dead, 7, Picked(1, 1, ToGone)), true, EXITS);
  }

  lemma LeaveTwo()
    ensures Becomes(Three(One(Ready, STALE), Two(Dead, 7, Picked(1, 1, ToGone)), 2, true, false, EXITS), Step,
                    Three(One(Running, STALE), Two(Dead, 7, Gone), 1, true, true, EXITS))
  {
    var s := Three(One(Ready, STALE), Two(Dead, 7, Picked(1, 1, ToGone)), 2, true, false, EXITS);
    assert Apply(s, Step).table == map[0 := IDLE, 1 := One(Running, STALE), 2 := Two(Dead, 7, Gone)];
  }

  /** The stale switch itself. It is not careful. */
  lemma StaleCommit()
    ensures var s := Three(One(Running, STALE), Two(Dead, 7, Gone), 1, true, false, EXITS);
            && Becomes(s, Step, Three(One(Ready, WaitCli(SECOND)), Two(Running, 7, Gone), 2, true, true, EXITS))
            && !Careful(s, Step)
  {
    var s := Three(One(Running, STALE), Two(Dead, 7, Gone), 1, true, false, EXITS);
    assert Apply(s, Step).table == map[0 := IDLE, 1 := One(Ready, WaitCli(SECOND)), 2 := Two(Running, 7, Gone)];
  }

  lemma SwitchStep(one: Pcb, two: Pcb, current: nat)
    requires current == 1 || current == 2
    ensures Becomes(Three(one, two, current, true, true, EXITS), Switch, Three(one, two, current, true, false, EXITS))
  {
  }

  /** Process 1 resumes in its old yield and switches to the process it had picked: process 2, dead by now. */
  lemma {:induction false} Resumes(run: seq<State>, events: seq<Event>) returns (run': seq<State>, events': seq<Event>)
    requires IsRun(run, events) && Last(run) == Three(One(Ready, STALE), Two(Dead, 7, Yielding(ToGone)), 2, true, false, EXITS)
    ensures IsRun(run', events') && Last(run') == Three(One(Ready, WaitCli(SECOND)), Two(Running, 7, Gone), 2, true, false, EXITS)
  {
    hide IsRun, Becomes;
    PickOne();
    run', events' := Extend(run, events, Choose(Some(1)), Three(One(Ready, STALE), Two(Dead, 7, Picked(1, 1, ToGone)), 2, true, false, EXITS));
    LeaveTwo();
    run', events' := Extend(run', events', Step, Three(One(Running, STALE), Two(Dead, 7, Gone), 1, true, true, EXITS));
    SwitchStep(One(Running, STALE), Two(Dead, 7, Gone), 1);
    run', events' := Extend(run', events', Switch, Three(One(Running, STALE), Two(Dead, 7, Gone), 1, true, false, EXITS));
    StaleCommit();
    run', events' := Extend(run', events', Step, Three(One(Ready, WaitCli(SECOND)), Two(Running, 7, Gone), 2, true, true, EXITS));
    SwitchStep(One(Ready, WaitCli(SECOND)), Two(Running, 7, Gone), 2);
    run', events' := Extend(run', events', Switch, Three(One(Ready, WaitCli(SECOND)), Two(Running, 7, Gone), 2, true, false, EXITS));
  }

  /** A run of the code as it is: a yield interrupted between its walk and its switch brings a dead
      process back, which then runs past its exit, while its parent blocks for good waiting for it. */
  lemma {:induction false} StaleSwitch() returns (run: seq<State>, events: seq<Event>, i: nat)
    ensures IsRun(run, events) && i < |run|
    ensures var s := run[i];
            s.current in s.table && s.table[s.current].pc.Gone? && s.table[s.current].state.Running?
    ensures var s := Last(run);
            && 1 in s.table && 2 in s.table && s.interrupts
            && s.table[1].state.Blocked? && WaitsFor(s.table[1].pc) == Some(Child(s.table[2].pid))
            && s.table[2].pc.Gone? && !s.table[2].state.Dead?
  {
    hide Becomes;
    run, events := TwoForks();
    run, events := Waits(run, events);
    run, events := Dies(run, events);
    run, events := Resumes(run, events);
    i := |run| - 1;
    ghost var before := run;
    TimerStep(One(Ready, WaitCli(SECOND)), Two(Running, 7, Gone), 2, EXITS);
    run, events := Extend(run, events, Timer(Tick({}, true, Some(1))), Three(One(Running, WaitCli(SECOND)), Two(Ready, 7, Gone), 1, true, false, EXITS));
    assert before <= run;
    run, events := WaitRun(run, events, Two(Ready, 7, Gone), EXITS);
    assert run[i] == Last(before);
  }

  const BOOT := State(map[0 := Pcb(0, 0, Running, 0, User)], [0], 0, true, false, false, 1, map[], map[0 := 0], [], [], [])

  /** The idle process has made its new child the successor of the old tail, and no more. */
  const HALF := State(map[0 := Pcb(0, 0, Running, 0, AddLink(1)), 1 := One(Ready, User)], [0, 1], 0, true, false, false, 2,
                      map[], map[0 := 0, 1 := 0], [], [], [])

  lemma {:induction false} HalfWay() returns (run: seq<State>, events: seq<Event>)
    ensures IsRun(run, events) && Last(run) == HALF
  {
    run, events := [BOOT], [];
    var a := Goto(BOOT, ForkFill(1));
    assert AtWork(a);
    run, events := Extend(run, events, Fork(1), a);
    hide IsRun, Apply, Enabled;
    FillStep(a, 1);
    var b := Forked(a, 1);
    run, events := Extend(run, events, Step, b);
    LinkStep(b, 1);
    run, events := Extend(run, events, Step, Queued(b, 1));
    assert Queued(b, 1).table == HALF.table;
  }

  lemma HalfTimer()
    ensures var child := HALF.(table := map[0 := Pcb(0, 0, Ready, 0, AddLink(1)), 1 := One(Running, User)], current := 1);
            && Becomes(HALF, Timer(Tick({}, true, Some(1))), child)
            && Becomes(child, Timer(Tick({}, true, Some(0))), Wild(child))
  {
    var child := HALF.(table := map[0 := Pcb(0, 0, Ready, 0, AddLink(1)), 1 := One(Running, User)], current := 1);
    assert Wake(HALF.table, {}) == HALF.table && Wake(child.table, {}) == child.table;
    assert HALF.ring[0] == 0 && HALF.ring[1] == 1;
    assert ReadyAhead(HALF, HALF.table) && !ReadyAhead(child, child.table);
    assert child.table[0].pc.AddLink?;
    assert Ticked(HALF, Tick({}, true, Some(1))).table == child.table;
  }

  /** Another run of the code as it is: the timer runs a process between the two link writes that queue
      it, and the next tick follows its NULL successor. */
  lemma {:induction false} HalfLinked() returns (run: seq<State>, events: seq<Event>)
    ensures IsRun(run, events) && Last(run).wild
  {
    run, events := HalfWay();
    HalfTimer();
    hide IsRun, Becomes;
    var child := HALF.(table := map[0 := Pcb(0, 0, Ready, 0, AddLink(1)), 1 := One(Running, User)], current := 1);
    run, events := Extend(run, events, Timer(Tick({}, true, Some(1))), child);
    run, events := Extend(run, events, Timer(Tick({}, true, Some(0))), Wild(child));
  }
}
