/** Every careful event keeps the invariant of the exit and wait machine, and no other event does. */
module LifecycleSafety {
  import opened Wrappers
  import opened Lifecycle

  lemma InitInv(s: State)
    requires Init(s)
    ensures Inv(s)
  {
  }

  // ---------- scheduler_tick keeps it ----------

  /** Only scheduling states moved: nobody died, came back to life or blocked. */
  ghost predicate Moved(s: State, s': State) {
    && s'.table.Keys == s.table.Keys
    && s' == s.(table := s'.table, current := s'.current, switching := s'.switching, refusals := s'.refusals)
    && forall p | p in s.table ::
         && s'.table[p] == s.table[p].(state := s'.table[p].state)
         && (s'.table[p].state.Dead? <==> s.table[p].state.Dead?)
         && (s'.table[p].state.Blocked? ==> s.table[p].state.Blocked?)
         && (s.table[p].state.Ready? && p !in s.ring ==> s'.table[p].state.Ready?)
         && (s'.table[p].state.Running? ==> p == s'.current)
  }

  /** A careful tick is wakes and, possibly, a switch. */
  lemma {:induction false} TickOne(s: State, t: Tick, p: nat)
    requires Enabled(s, Timer(t)) && Careful(s, Timer(t))
    requires p in s.table && (p != s.current ==> !s.table[p].state.Running?)
    ensures var s' := Ticked(s, t);
            && p in s'.table && s'.table[p] == s.table[p].(state := s'.table[p].state)
            && (s'.table[p].state.Dead? <==> s.table[p].state.Dead?)
            && (s'.table[p].state.Blocked? ==> s.table[p].state.Blocked?)
            && (s.table[p].state.Ready? && p !in s.ring ==> s'.table[p].state.Ready?)
            && (s'.table[p].state.Running? ==> p == s'.current)
            && (p == s'.current && t.next.Some? ==> s'.table[p].state.Running?)
            && (s.table[p].state.Ready? && p != s'.current ==> s'.table[p].state.Ready?)
            && (s.table[p].state.Running? && p != s'.current ==> s'.table[p].state.Ready?)
            && (s.table[p].state.Running? && p == s'.current ==> s'.table[p].state.Running?)
  {
    hide Falls;
  }

  lemma {:induction false} TickMoves(s: State, t: Tick)
    requires Shape(s) && Enabled(s, Timer(t)) && Careful(s, Timer(t))
    requires forall p | p in s.table && p != s.current :: !s.table[p].state.Running?
    ensures Moved(s, Ticked(s, t)) && Shape(Ticked(s, t))
    ensures t.next.Some? ==> Ticked(s, t).table[Ticked(s, t).current].state.Running?
    ensures t.next.None? ==> Ticked(s, t).current == s.current && s.table[s.current].state.Running?
    ensures !Ticked(s, t).wild && Ticked(s, t).switching == s.switching
  {
    StayOnlyIfRunning(s, t);
    hide Shape, Enabled, Careful;
    var s' := Ticked(s, t);
    forall p | p in s.table
      ensures p in s'.table && s'.table[p] == s.table[p].(state := s'.table[p].state)
      ensures s'.table[p].state.Dead? <==> s.table[p].state.Dead?
      ensures s'.table[p].state.Blocked? ==> s.table[p].state.Blocked?
      ensures s.table[p].state.Ready? && p !in s.ring ==> s'.table[p].state.Ready?
      ensures s'.table[p].state.Running? ==> p == s'.current
    {
      TickOne(s, t, p);
    }
    TickOne(s, t, 0);
    TickOne(s, t, s'.current);
    hide Ticked;
    MovedShape(s, s');
  }

  /** With the idle process ready, a tick that stays is a tick in a running process. */
  lemma {:induction false} StayOnlyIfRunning(s: State, t: Tick)
    requires Shape(s) && Enabled(s, Timer(t)) && Careful(s, Timer(t))
    ensures 0 in s.table && s.table[0].state == (if s.current == 0 then Running else Ready)
    ensures t.next.None? ==> s.table[s.current].state.Running?
    ensures t.next.Some? ==> t.next.value in s.table
    ensures var s' := Ticked(s, t);
            s'.current in s.ring && s'.table.Keys == s.table.Keys &&
            s' == s.(table := s'.table, current := s'.current) && s.current in s.table && TickOk(s, t) && !s.wild
    ensures t.next.None? ==> Ticked(s, t).current == s.current
  {
    hide Falls, Distinct;
    assert s.current != 0 ==> Wake(s.table, t.woken)[0].state.Ready?;
  }

  lemma {:induction false} MovedShape(s: State, s': State)
    requires Shape(s) && Moved(s, s') && s'.current in s.ring
    requires s'.table[0].state == (if s'.current == 0 then Running else Ready)
    ensures Shape(s')
  {
  }

  lemma {:induction false} MovedPcs(s: State, s': State)
    requires Resting(s) && Moved(s, s') && Shape(s') && !Masked(s.table[s.current].pc)
    requires !s'.table[s'.current].state.Dead? || s'.current == s.current
    ensures forall p | p in s'.table :: PcOk(s', p)
    ensures forall p | p in s'.table :: WakeupPending(s', p)
  {
    hide History, Shape;
    forall c, me, w ensures IsChild(s', c, me, w) == IsChild(s, c, me, w) { }
    forall p | p in s'.table ensures PcOk(s', p) {
      var me := s.table[p];
      if WaitsFor(me.pc).Some? && WaitsFor(me.pc).value.Child? {
        var c :| IsChild(s, c, me.pid, WaitsFor(me.pc).value);
        assert IsChild(s', c, me.pid, WaitsFor(me.pc).value);
      }
    }
    forall p | p in s'.table ensures WakeupPending(s', p) {
      var me := s.table[p];
      assert PcOk(s, p) && WakeupPending(s, p);
      if (me.state.Blocked? || me.pc.WaitBlock?) && WaitsFor(me.pc).Some? {
        var c :| IsChild(s, c, me.pid, WaitsFor(me.pc).value);
        assert IsChild(s', c, me.pid, WaitsFor(me.pc).value);
      }
    }
  }

  lemma {:induction false} MovedHistory(s: State, s': State)
    requires History(s) && Moved(s, s')
    ensures History(s')
  {
    forall p | p in s'.table && s'.table[p].pid in s'.released
      ensures exists r :: r in s'.table && s'.table[r].pc.ReapClear? && s'.table[r].pc.c == p
    {
      var r :| r in s.table && s.table[r].pc.ReapClear? && s.table[r].pc.c == p;
      assert s'.table[r].pc == s.table[r].pc;
    }
  }

  lemma {:induction false} TickInv(s: State, t: Tick)
    requires Inv(s) && Enabled(s, Timer(t)) && Careful(s, Timer(t))
    ensures Inv(Ticked(s, t))
  {
    hide Shape, History, WakeupPending, Careful, Ticked;
    forall p | p in s.table && p != s.current ensures !s.table[p].state.Running? { assert PcOk(s, p); }
    Located(s);
    TickMoves(s, t);
    var s' := Ticked(s, t);
    MovedHistory(s, s');
    Located(s');
    MovedPcs(s, s');
    assert PcOk(s, s.current) && PcOk(s', s'.current);
    assert PcOk(s, s'.current);
  }

  lemma Located(s: State)
    requires Shape(s)
    ensures s.current in s.table && 0 in s.table
  {
  }

  // ---------- Steps that change only the running process ----------

  /** The running process moved on; only its own entry, the interrupt flag and its exit record changed. */
  ghost predicate Own(s: State, s': State) {
    && s.current in s.table && s.current in s'.table
    && s' == s.(table := s.table[s.current := s'.table[s.current]], interrupts := s'.interrupts, exits := s'.exits)
    && var me, me' := s.table[s.current], s'.table[s.current];
       && me'.pid == me.pid && me'.parent == me.parent
       && (s.current == 0 ==> me'.state.Running?)
       && (me'.state.Dead? ==> me.state.Dead? || me'.pc.ExitWake?)
       && !me.pc.ExitWake? && !me.pc.ReapClear?
       && (forall q | q in s.exits :: q in s'.exits && (q != me.pid ==> s'.exits[q] == s.exits[q]))
       && (me.pid in s.exits ==> s'.exits[me.pid] == s.exits[me.pid] || (!Exiting(me.pc) && !Reaping(me.pc)))
  }

  lemma {:induction false} OwnShape(s: State, s': State)
    requires Resting(s) && Own(s, s')
    ensures Shape(s')
  {
    hide History, PcOk, WakeupPending, Exiting, Reaping;
  }

  lemma {:induction false} OwnHistory(s: State, s': State)
    requires Resting(s) && Own(s, s')
    ensures History(s')
  {
    hide PcOk, WakeupPending;
    forall i | 0 <= i < |s.reaps| ensures s.reaps[i].child != s.table[s.current].pid { }
    forall p | p in s'.table && s'.table[p].pid in s'.released
      ensures exists r :: r in s'.table && s'.table[r].pc.ReapClear? && s'.table[r].pc.c == p
    {
      var r :| r in s.table && s.table[r].pc.ReapClear? && s.table[r].pc.c == p;
      assert s'.table[r].pc == s.table[r].pc;
    }
  }

  lemma {:induction false} OwnOthers(s: State, s': State, p: nat)
    requires Resting(s) && Own(s, s') && p in s.table && p != s.current
    ensures PcOk(s', p) && WakeupPending(s', p)
  {
    hide History, Distinct;
    var me := s.table[p];
    assert s'.table[p] == me && me.pid != s.table[s.current].pid;
    assert PcOk(s, p) && WakeupPending(s, p) && PcOk(s, s.current);
    forall c, m, w ensures IsChild(s', c, m, w) == IsChild(s, c, m, w) { }
    if WaitsFor(me.pc).Some? && (WaitsFor(me.pc).value.Child? || me.state.Blocked? || me.pc.WaitBlock?) {
      var c :| IsChild(s, c, me.pid, WaitsFor(me.pc).value);
      assert IsChild(s', c, me.pid, WaitsFor(me.pc).value);
    }
  }

  /** Such a step keeps the invariant if it leaves the running process itself in order. */
  lemma {:induction false} OwnInv(s: State, s': State)
    requires Resting(s) && Own(s, s') && PcOk(s', s.current) && WakeupPending(s', s.current)
    ensures Resting(s')
  {
    OwnShape(s, s');
    OwnHistory(s, s');
    hide History, Shape, PcOk, WakeupPending, Own;
    forall p | p in s'.table ensures PcOk(s', p) && WakeupPending(s', p) {
      if p != s.current { OwnTable(s, s', p); OwnOthers(s, s', p); }
    }
  }

  lemma OwnTable(s: State, s': State, p: nat)
    requires Own(s, s') && p in s'.table && p != s.current
    ensures p in s.table
  {
  }

  /** q is in order as the next entry of the running process, judged by everyone else's entries. */
  ghost predicate Fits(s: State, q: Pcb, exits: map<nat, int>) {
    && (q.state.Dead? <==> Finished(q.pc))
    && (q.state.Blocked? ==> WaitsFor(q.pc).Some? && !q.pc.WaitScan? && !q.pc.WaitBlock?)
    && (s.current == 0 ==> IdlePc(q.pc))
    && !q.pc.ForkAdd?
    && (WaitsFor(q.pc).Some? && (WaitsFor(q.pc).value.Child? || q.state.Blocked? || q.pc.WaitBlock?) ==>
          exists c :: IsChild(s, c, q.pid, WaitsFor(q.pc).value))
    && (WaitsFor(q.pc).Some? && (q.state.Blocked? || q.pc.WaitBlock?) ==>
          forall c | IsChild(s, c, q.pid, WaitsFor(q.pc).value) && c != s.current :: !s.table[c].state.Dead?)
    && (Exiting(q.pc) ==> q.pid in exits && exits[q.pid] == q.exitCode)
    && (Reaping(q.pc) ==>
          q.pc.c in s.table && q.pc.c != s.current && s.table[q.pc.c].parent == q.pid && s.table[q.pc.c].state.Dead?)
    && (q.pc.ReapUnlink? ==> q.pc.code == s.table[q.pc.c].exitCode)
    && !q.pc.ReapFree? && !q.pc.ReapClear?
    && (q.pc.Marking? ==> q.pc.q != 0) && (q.pc.Picked? ==> q.pc.n != s.current)
    && (q.pc.ForkFill? ==> q.pc.slot < MAX_PROCESSES)
  }

  lemma {:induction false} FitsOk(s: State, s': State)
    requires Own(s, s') && Fits(s, s'.table[s.current], s'.exits)
    ensures PcOk(s', s.current) && WakeupPending(s', s.current)
  {
    forall c, m, w ensures IsChild(s', c, m, w) == IsChild(s, c, m, w) { }
    var q := s'.table[s.current];
    if WaitsFor(q.pc).Some? && (WaitsFor(q.pc).value.Child? || q.state.Blocked? || q.pc.WaitBlock?) {
      var c :| IsChild(s, c, q.pid, WaitsFor(q.pc).value);
      assert IsChild(s', c, q.pid, WaitsFor(q.pc).value);
    }
  }

  lemma {:induction false} FitsInv(s: State, s': State)
    requires Resting(s) && Own(s, s') && Fits(s, s'.table[s.current], s'.exits)
    ensures Resting(s')
  {
    hide Resting, Own, Fits, PcOk, WakeupPending;
    FitsOk(s, s');
    OwnInv(s, s');
  }

  lemma Mine(s: State)
    requires Resting(s)
    ensures Shape(s) && History(s) && 0 in s.table && s.current in s.table && PcOk(s, s.current) && WakeupPending(s, s.current)
    ensures s.current == 0 ==> s.table[0].state.Running?
  {
  }

  /** A step that only moves the running process to an entry that fits. */
  lemma {:induction false} MoveInv(s: State, s': State)
    requires Inv(s) && Own(s, s') && Fits(s, s'.table[s.current], s'.exits) && CurrentOk(s')
    ensures Inv(s')
  {
    hide Resting, Own, Fits;
    FitsInv(s, s');
  }

  /** q continues the running process: it dies only by marking itself dead. */
  predicate Continues(s: State, q: Pcb)
    requires s.current in s.table
  {
    var me := s.table[s.current];
    && q.pid == me.pid && q.parent == me.parent && (s.current == 0 ==> q.state.Running?)
    && (q.state.Dead? ==> me.state.Dead? || q.pc.ExitWake?) && !me.pc.ExitWake? && !me.pc.ReapClear?
  }

  function Become(s: State, q: Pcb, on: bool): State {
    s.(table := s.table[s.current := q], interrupts := on)
  }

  lemma OwnBecome(s: State, q: Pcb, on: bool)
    requires s.current in s.table && Continues(s, q)
    ensures Own(s, Become(s, q, on))
  {
  }

  /** A step that only changes the running process's own entry, to one that fits. */
  lemma {:induction false} BecomeInv(s: State, q: Pcb, on: bool)
    requires Inv(s) && s.current in s.table && Continues(s, q) && Fits(s, q, s.exits)
    requires (on <==> !Masked(q.pc)) && (s.switching ==> on) && !q.pc.Gone? && !(q.state.Blocked? && q.pc.WaitCli?)
    ensures Inv(Become(s, q, on))
  {
    OwnBecome(s, q, on);
    hide Resting, Fits, Own, Continues;
    FitsInv(s, Become(s, q, on));
  }

  /** pc is a point the running process may go to without any change of its state: it owes nothing
      there that it did not owe before. */
  predicate Follows(s: State, pc: Pc)
    requires s.current in s.table
  {
    var me := s.table[s.current];
    && !me.pc.ExitWake? && !me.pc.ReapClear?
    && !pc.ForkAdd? && !pc.ReapFree? && !pc.ReapClear? && !pc.WaitBlock?
    && (Finished(pc) <==> Finished(me.pc))
    && (me.state.Blocked? ==> !pc.WaitScan?)
    && (WaitsFor(pc) == WaitsFor(me.pc) || (WaitsFor(pc).None? && !me.state.Blocked?))
    && (s.current == 0 ==> IdlePc(pc))
    && (Exiting(pc) ==> Exiting(me.pc))
    && (Reaping(pc) ==> Reaping(me.pc) && pc.c == me.pc.c)
    && (pc.ReapUnlink? ==> pc.c in s.table && pc.code == s.table[pc.c].exitCode)
    && (pc.Marking? ==> pc.q != 0) && (pc.Picked? ==> pc.n != s.current)
    && (pc.ForkFill? ==> pc.slot < MAX_PROCESSES)
  }

  lemma {:induction false} FollowsFits(s: State, pc: Pc)
    requires Resting(s) && s.current in s.table && Follows(s, pc)
    ensures Fits(s, s.table[s.current].(pc := pc), s.exits)
  {
    hide Shape, History;
    assert PcOk(s, s.current) && WakeupPending(s, s.current);
  }

  lemma ContinuesGoto(s: State, pc: Pc)
    requires Resting(s) && s.current in s.table && Follows(s, pc)
    ensures Continues(s, s.table[s.current].(pc := pc))
  {
    hide History, WakeupPending;
    IdleReady(s);
    assert PcOk(s, s.current);
  }

  /** Going to such a point leaves everything at rest. */
  lemma {:induction false} GotoResting(s: State, pc: Pc, on: bool)
    requires Resting(s) && s.current in s.table && Follows(s, pc)
    ensures Resting(Goto(s, pc).(interrupts := on))
  {
    var q := s.table[s.current].(pc := pc);
    FollowsFits(s, pc);
    ContinuesGoto(s, pc);
    OwnBecome(s, q, on);
    hide Resting, Fits, Own, Follows, Continues;
    assert Goto(s, pc).(interrupts := on) == Become(s, q, on);
    FitsInv(s, Become(s, q, on));
  }

  lemma {:induction false} GotoInv(s: State, pc: Pc, on: bool)
    requires Inv(s) && s.current in s.table && Follows(s, pc)
    requires (on <==> !Masked(pc)) && (s.switching ==> on) && !pc.Gone? && !(s.table[s.current].state.Blocked? && pc.WaitCli?)
    ensures Inv(Goto(s, pc).(interrupts := on))
  {
    hide Resting, Follows;
    GotoResting(s, pc, on);
  }

  // ---------- scheduler_yield ----------

  lemma {:induction false} YieldInv(s: State)
    requires Inv(s) && Enabled(s, Yield)
    ensures Inv(Apply(s, Yield))
  {
    Mine(s);
    CallFollows(s, Yielding(ToUser));
    assert Apply(s, Yield) == Goto(s, Yielding(ToUser)).(interrupts := s.interrupts);
    hide Resting, Shape, History, WakeupPending, Apply, PcOk, Follows;
    GotoInv(s, Yielding(ToUser), s.interrupts);
  }

  /** Moving on inside a yield. */
  lemma YieldFollows(s: State, pc: Pc)
    requires s.current in s.table && PcOk(s, s.current) && s.table[s.current].pc.Yielding?
    requires (pc.Marking? && pc.q != 0) || (pc.Picked? && pc.n != s.current)
    requires pc.k == s.table[s.current].pc.k
    ensures Follows(s, pc)
  {
    hide IsChild;
  }

  /** Noticing a sleeper. */
  lemma {:induction false} SpotInv(s: State, q: nat)
    requires Inv(s) && Enabled(s, Spot(q))
    ensures Inv(Apply(s, Spot(q)))
  {
    Mine(s);
    IdleReady(s);
    var pc := Marking(q, s.table[q].pid, s.table[s.current].pc.k);
    YieldFollows(s, pc);
    assert Apply(s, Spot(q)) == Goto(s, pc).(interrupts := s.interrupts);
    hide Resting, Shape, History, WakeupPending, Apply, PcOk, Follows;
    GotoInv(s, pc, s.interrupts);
  }

  lemma ChooseStep(s: State, next: Option<nat>)
    requires Shape(s) && Enabled(s, Choose(next)) && Careful(s, Choose(next)) && s.current != 0
    ensures next.Some? && next.value in s.table && next.value != s.current
    ensures Apply(s, Choose(next)) == Goto(s, Picked(next.value, s.table[next.value].pid, s.table[s.current].pc.k))
  {
    IdleReady(s);
    hide Shape, Falls;
  }

  /** The walk of a yield: it always ends at another process, the idle one if there is no other. */
  lemma {:induction false} ChooseInv(s: State, next: Option<nat>)
    requires Inv(s) && Enabled(s, Choose(next)) && Careful(s, Choose(next))
    ensures Inv(Apply(s, Choose(next)))
  {
    Mine(s);
    ChooseStep(s, next);
    var pc := Picked(next.value, s.table[next.value].pid, s.table[s.current].pc.k);
    YieldFollows(s, pc);
    hide Resting, Shape, History, WakeupPending, Apply, Careful, PcOk, Follows;
    assert Goto(s, pc) == Goto(s, pc).(interrupts := s.interrupts);
    GotoInv(s, pc, s.interrupts);
  }

  lemma IdleReady(s: State)
    requires Shape(s)
    ensures 0 in s.table && 0 in s.ring && s.table[0].state == (if s.current == 0 then Running else Ready)
  {
  }

  /** Waking, marking or switching to processes that are not dead, from a state at rest. */
  lemma {:induction false} MovedInv(s: State, s': State)
    requires Resting(s) && Moved(s, s') && !Masked(s.table[s.current].pc) && s'.current in s.ring
    requires s'.table[0].state == (if s'.current == 0 then Running else Ready)
    requires !s'.table[s'.current].state.Dead? || s'.current == s.current
    ensures Resting(s')
  {
    hide Shape, History, PcOk, WakeupPending;
    MovedHistory(s, s');
    MovedShape(s, s');
    MovedPcs(s, s');
  }

  lemma {:induction false} MarkMoves(s: State, q: nat, pid: nat, k: After)
    requires Shape(s) && (forall p | p in s.table && p != s.current :: !s.table[p].state.Running?)
    requires s.current in s.table && Alive(s, q, pid) && q != 0
    ensures var out, s' := Goto(s, Yielding(k)), Marked(s, q, pid, k);
            Moved(out, s') && s'.current == s.current && s'.table[0].state == s.table[0].state
  {
    hide Distinct;
  }

  lemma MarkSteps(s: State)
    requires Enabled(s, Step) && Careful(s, Step) && s.table[s.current].pc.Marking?
    ensures var pc := s.table[s.current].pc; Stepped(s) == Marked(s, pc.q, pc.pid, pc.k) && Alive(s, pc.q, pc.pid)
    ensures !s.wild && !s.switching
  {
  }

  lemma {:induction false} MarkFollows(s: State)
    requires Inv(s) && s.current in s.table && s.table[s.current].pc.Marking?
    ensures var pc := s.table[s.current].pc;
            Follows(s, Yielding(pc.k)) && pc.q != 0 && s.current in s.ring && s.interrupts
  {
    Mine(s);
    OutQueued(s);
    hide Resting, Shape, History, WakeupPending, IsChild;
  }

  /** The late write to a sleeper that is still alive does no harm. */
  lemma {:induction false} MarkInv(s: State)
    requires Inv(s) && Enabled(s, Step) && Careful(s, Step) && s.table[s.current].pc.Marking?
    ensures Inv(Stepped(s))
  {
    MarkSteps(s);
    MarkFollows(s);
    NobodyElseRuns(s);
    IdleReady(s);
    hide Shape, Resting, History, WakeupPending, Moved, Follows, Stepped, Careful, Enabled, PcOk;
    var me := s.table[s.current];
    var q, pid, k := me.pc.q, me.pc.pid, me.pc.k;
    var out, s' := Goto(s, Yielding(k)), Marked(s, q, pid, k);
    assert out == Goto(s, Yielding(k)).(interrupts := s.interrupts);
    GotoResting(s, Yielding(k), s.interrupts);
    MarkMoves(s, q, pid, k);
    assert CurrentOk(s');
    hide Marked;
    MovedInv(out, s');
  }

  lemma NobodyElseRuns(s: State)
    requires Resting(s)
    ensures forall p | p in s.table && p != s.current :: !s.table[p].state.Running?
  {
    hide Shape, History, WakeupPending;
    forall p | p in s.table && p != s.current ensures !s.table[p].state.Running? { assert PcOk(s, p); }
  }

  lemma OutQueued(s: State)
    requires Shape(s)
    ensures s.current in s.ring
  {
  }

  lemma {:induction false} CommitMoves(s: State, n: nat, pid: nat, k: After)
    requires Shape(s) && (forall p | p in s.table && p != s.current :: !s.table[p].state.Running?)
    requires s.current in s.table && Alive(s, n, pid) && n in s.ring && n != s.current && s.current != 0
    ensures var out, s' := Goto(s, Resume(k)), Committed(s, n, pid, k);
            && Moved(out, s') && s'.current == n && s'.table[n].state.Running? && s'.table[n].pc == s.table[n].pc
            && s'.table[0].state == (if n == 0 then Running else Ready)
            && s'.interrupts == s.interrupts && s'.wild == s.wild
            && out == out.(interrupts := s.interrupts) && s.current in out.table && out.current == s.current
            && out.ring == s.ring && out.table[s.current].pc == Resume(k)
  {
    hide Distinct;
  }

  lemma CommitSteps(s: State)
    requires Enabled(s, Step) && Careful(s, Step) && s.table[s.current].pc.Picked?
    ensures var pc := s.table[s.current].pc;
            Stepped(s) == Committed(s, pc.n, pc.pid, pc.k) && Alive(s, pc.n, pc.pid) && pc.n in s.ring
    ensures !s.wild
  {
  }

  lemma {:induction false} CommitFollows(s: State)
    requires Inv(s) && s.current in s.table && s.table[s.current].pc.Picked?
    ensures var pc := s.table[s.current].pc;
            Follows(s, Resume(pc.k)) && pc.n != s.current && s.current != 0 && s.interrupts && !Masked(pc)
  {
    Mine(s);
    hide Resting, Shape, History, WakeupPending, IsChild;
  }

  lemma RestingOther(s: State, n: nat)
    requires Resting(s) && n in s.table && n != s.current && !s.table[n].state.Dead?
    ensures !Masked(s.table[n].pc) && !s.table[n].pc.Gone?
  {
    hide Shape, History, WakeupPending;
    assert PcOk(s, n);
  }

  lemma ResumeUnmasked(k: After)
    ensures !Masked(Resume(k))
  {
  }

  lemma MineShape(s: State)
    requires Resting(s)
    ensures Shape(s)
  {
  }

  /** The switch of a yield, to a process that is still queued and alive. */
  lemma {:induction false} CommitInv(s: State)
    requires Inv(s) && Enabled(s, Step) && Careful(s, Step) && s.table[s.current].pc.Picked?
    ensures Inv(Stepped(s))
  {
    hide Shape, Resting, History, WakeupPending, Moved, Follows, Stepped, Careful, Apply, PcOk, Committed, Goto, Masked;
    CommitSteps(s);
    CommitFollows(s);
    NobodyElseRuns(s);
    var me := s.table[s.current];
    hide Enabled;
    var n, pid, k := me.pc.n, me.pc.pid, me.pc.k;
    RestingOther(s, n);
    ResumeUnmasked(k);
    MineShape(s);
    var out, s' := Goto(s, Resume(k)), Committed(s, n, pid, k);
    GotoResting(s, Resume(k), s.interrupts);
    CommitMoves(s, n, pid, k);
    MovedInv(out, s');
  }

  /** switch_context after the switch was decided. */
  lemma {:induction false} SwitchInv(s: State)
    requires Inv(s) && Enabled(s, Switch)
    ensures Inv(s.(switching := false))
  {
    forall p | p in s.table && p != s.current ensures !s.table[p].state.Running? { assert PcOk(s, p); }
    hide History, WakeupPending;
    MovedInv(s, s.(switching := false));
  }

  lemma {:induction false} CallInv(s: State, e: Event)
    requires Inv(s) && Enabled(s, e) && (e.Exit? || e.Sleep? || e.Wait? || e.Fork?)
    ensures Inv(Apply(s, e))
  {
    hide Inv, Apply;
    if e.Wait? { WaitCallInv(s, e); }
    else if e.Fork? { ForkCallInv(s, e.slot); }
    else if e.Sleep? { SleepCallInv(s); }
    else { ExitCallInv(s, e.code); }
  }

  lemma CallFollows(s: State, pc: Pc)
    requires s.current in s.table && PcOk(s, s.current) && s.table[s.current].pc.User?
    requires pc.Yielding? ==> pc.k.ToUser? && s.current != 0
    requires pc.ForkFill? ==> pc.slot < MAX_PROCESSES
    requires pc.Yielding? || pc.ForkFill?
    ensures Follows(s, pc)
  {
    hide IsChild;
  }

  lemma {:induction false} ForkCallInv(s: State, slot: nat)
    requires Inv(s) && Enabled(s, Fork(slot))
    ensures Inv(Apply(s, Fork(slot)))
  {
    Mine(s);
    CallFollows(s, ForkFill(slot));
    assert Apply(s, Fork(slot)) == Goto(s, ForkFill(slot)).(interrupts := s.interrupts);
    hide Resting, Shape, History, WakeupPending, Apply, PcOk, Follows;
    GotoInv(s, ForkFill(slot), s.interrupts);
  }

  lemma SleepFits(s: State)
    requires s.current in s.table && PcOk(s, s.current) && s.table[s.current].pc.User? && s.current != 0
    ensures var q := s.table[s.current].(state := Sleeping, pc := Yielding(ToUser)); Continues(s, q) && Fits(s, q, s.exits)
  {
    hide IsChild;
  }

  lemma {:induction false} SleepCallInv(s: State)
    requires Inv(s) && Enabled(s, Sleep)
    ensures Inv(Apply(s, Sleep))
  {
    Mine(s);
    SleepFits(s);
    var q := s.table[s.current].(state := Sleeping, pc := Yielding(ToUser));
    assert Apply(s, Sleep) == Become(s, q, s.interrupts);
    hide Resting, Shape, History, WakeupPending, Apply, PcOk, Fits, Continues;
    BecomeInv(s, q, s.interrupts);
  }

  function Exits(s: State, code: int): State
    requires s.current in s.table
  {
    var me := s.table[s.current];
    Set(s, s.current, me.(exitCode := code, pc := ExitCli)).(exits := s.exits[me.pid := code])
  }

  lemma ExitFits(s: State, code: int)
    requires s.current in s.table && PcOk(s, s.current) && s.table[s.current].pc.User? && s.current != 0
    ensures Own(s, Exits(s, code)) && Fits(s, Exits(s, code).table[s.current], Exits(s, code).exits)
  {
    hide IsChild;
  }

  lemma {:induction false} ExitCallInv(s: State, code: int)
    requires Inv(s) && Enabled(s, Exit(code))
    ensures Inv(Apply(s, Exit(code)))
  {
    Mine(s);
    ExitFits(s, code);
    var s' := Exits(s, code);
    assert Apply(s, Exit(code)) == s' && CurrentOk(s');
    hide Resting, Shape, History, WakeupPending, Apply, PcOk, Own, Fits, Exits;
    MoveInv(s, s');
  }

  lemma WaitFits(s: State, w: Target)
    requires s.current in s.table && PcOk(s, s.current) && s.table[s.current].pc.User? && s.current != 0
    requires w.Child? ==> exists c :: IsChild(s, c, s.table[s.current].pid, w)
    ensures var q := s.table[s.current].(pc := WaitCli(w)); Continues(s, q) && Fits(s, q, s.exits)
  {
    hide IsChild;
  }

  lemma WaitCallIs(s: State, w: Target)
    requires Enabled(s, Wait(w))
    ensures Apply(s, Wait(w)) == Become(s, s.table[s.current].(pc := WaitCli(w)), s.interrupts)
    ensures !s.switching
  {
  }

  lemma {:induction false} WaitCallInv(s: State, e: Event)
    requires Inv(s) && Enabled(s, e) && e.Wait?
    ensures Inv(Apply(s, e))
  {
    Mine(s);
    if e.w.Child? {
      var c :| c in s.table && s.table[c].pid == e.w.pid && s.table[c].parent == s.table[s.current].pid;
      assert IsChild(s, c, s.table[s.current].pid, e.w);
    }
    var q := s.table[s.current].(pc := WaitCli(e.w));
    WaitFits(s, e.w);
    assert !q.state.Blocked? && CurrentOk(s);
    WaitCallIs(s, e.w);
    hide Inv, Apply, PcOk, Fits, Continues, IsChild, Enabled;
    BecomeInv(s, q, s.interrupts);
  }

  /** Whoever the scan finds is a child of the scanner, and if it finds nobody there is still a live
      child to wait for. */
  lemma {:induction false} ScanFinds(s: State)
    requires Shape(s) && PcOk(s, s.current) && s.table[s.current].pc.WaitScan?
    ensures var me := s.table[s.current];
            var found := FirstDead(s.table, me.pid, me.pc.w, 0);
            if found.Some? then found.value != s.current && s.table[found.value].parent == me.pid
            else
              && (forall c | IsChild(s, c, me.pid, me.pc.w) :: !s.table[c].state.Dead?)
              && (me.pc.w.Child? || HasChild(s.table, me.pid) ==> exists c :: IsChild(s, c, me.pid, me.pc.w))
  {
    hide FirstDead, Distinct;
    var me := s.table[s.current];
    var found := FirstDead(s.table, me.pid, me.pc.w, 0);
    if me.pc.w.Child? {
      var c :| IsChild(s, c, me.pid, me.pc.w);
    } else if HasChild(s.table, me.pid) {
      var c :| c in s.table && s.table[c].parent == me.pid;
      assert IsChild(s, c, me.pid, me.pc.w);
    }
  }


  /** The steps that only move on: the exit path around the wake-up, the wait path around the scan, the
      way out of the scan up to reading the exit code, and the later link writes of scheduler_add. */
  predicate Plain(pc: Pc) {
    pc.ExitCli? || pc.ExitSti? || pc.WaitCli? || pc.WaitSti? || pc.ReapSti? || pc.ReapRead? || Linking(pc)
  }

  function PlainNext(s: State): Pc
    requires Enabled(s, Step) && Plain(s.table[s.current].pc)
  {
    match s.table[s.current].pc
    case ExitCli => ExitMark
    case ExitSti => Yielding(ToGone)
    case WaitCli(w) => WaitScan(w)
    case WaitSti(w) => Yielding(ToWait(w))
    case ReapSti(c) => ReapRead(c)
    case ReapRead(c) => ReapUnlink(c, s.table[c].exitCode)
    case AddLink(slot) => AddTail(slot)
    case _ => User
  }

  lemma PlainSteps(s: State)
    requires Enabled(s, Step) && Plain(s.table[s.current].pc)
    ensures var pc := s.table[s.current].pc;
            var on := if pc.ExitCli? || pc.WaitCli? then false else if Masked(pc) then true else s.interrupts;
            Stepped(s) == Goto(s, PlainNext(s)).(interrupts := on)
  {
    var pc := s.table[s.current].pc;
    if pc.ReapRead? || Linking(pc) {
      assert Goto(s, PlainNext(s)).interrupts == s.interrupts;
    }
  }

  lemma {:induction false} PlainFollows(s: State)
    requires Inv(s) && Enabled(s, Step) && Plain(s.table[s.current].pc)
    ensures Follows(s, PlainNext(s)) && !PlainNext(s).Gone? && !PlainNext(s).WaitCli?
    ensures s.interrupts <==> !Masked(s.table[s.current].pc)
  {
    Mine(s);
    hide Resting;
    PlainFollowsMine(s);
  }

  lemma {:induction false} PlainFollowsMine(s: State)
    requires Enabled(s, Step) && Plain(s.table[s.current].pc) && PcOk(s, s.current) && CurrentOk(s)
    ensures Follows(s, PlainNext(s)) && !PlainNext(s).Gone? && !PlainNext(s).WaitCli?
  {
    var pc := s.table[s.current].pc;
    hide IsChild;
    if pc.ExitCli? || pc.ExitSti? {
    } else if pc.WaitCli? || pc.WaitSti? {
    } else if Linking(pc) {
    } else {
    }
  }

  lemma {:induction false} PlainStepInv(s: State)
    requires Inv(s) && Enabled(s, Step) && Plain(s.table[s.current].pc)
    ensures Inv(Stepped(s))
  {
    PlainFollows(s);
    PlainSteps(s);
    hide Resting, Stepped, Follows, PcOk;
    GotoInv(s, PlainNext(s), Stepped(s).interrupts);
  }

  /** sys_wait returns -1. */
  lemma {:induction false} RefuseInv(s: State)
    requires Inv(s) && s.current in s.table && s.table[s.current].pc.NoneSti?
    ensures Inv(Refused(s))
  {
    hide Resting, Follows, PcOk, Moved;
    Mine(s);
    RefuseFollows(s);
    var out := Goto(s, User).(interrupts := true);
    GotoInv(s, User, true);
    RefuseMoves(s);
    MovedInv(out, Refused(s));
  }

  lemma RefuseMoves(s: State)
    requires s.current in s.table && Resting(Goto(s, User).(interrupts := true))
    ensures var out, s' := Goto(s, User).(interrupts := true), Refused(s);
            && Moved(out, s') && s'.current in out.ring && 0 in s'.table
            && s'.table[0].state == (if s'.current == 0 then Running else Ready)
  {
    var out := Goto(s, User).(interrupts := true);
    NobodyElseRuns(out);
    MineShape(out);
    OutQueued(out);
    IdleReady(out);
    hide Resting, Shape;
  }

  lemma RefuseFollows(s: State)
    requires s.current in s.table && PcOk(s, s.current) && s.table[s.current].pc.NoneSti?
    ensures Follows(s, User)
  {
    hide IsChild;
  }

  lemma DieFits(s: State)
    requires Inv(s) && s.current in s.table && s.table[s.current].pc.ExitMark?
    ensures var q := s.table[s.current].(state := Dead, pc := ExitWake); Continues(s, q) && Fits(s, q, s.exits)
  {
    Mine(s);
    hide Shape, Resting, History, WakeupPending;
  }

  /** Marking the process dead. */
  lemma {:induction false} DieStepInv(s: State)
    requires Inv(s) && Enabled(s, Step) && s.table[s.current].pc.ExitMark?
    ensures Inv(Stepped(s))
  {
    var q := s.table[s.current].(state := Dead, pc := ExitWake);
    DieFits(s);
    assert Stepped(s) == Become(s, q, s.interrupts);
    hide Resting, Stepped, Fits, Continues;
    BecomeInv(s, q, s.interrupts);
  }

  lemma BlockFits(s: State)
    requires Inv(s) && s.current in s.table && s.table[s.current].pc.WaitBlock?
    ensures var me := s.table[s.current];
            var q := me.(state := Blocked, pc := WaitSti(me.pc.w)); Continues(s, q) && Fits(s, q, s.exits)
  {
    Mine(s);
    hide Shape, Resting, History;
  }

  /** Marking the process blocked. */
  lemma {:induction false} BlockStepInv(s: State)
    requires Inv(s) && Enabled(s, Step) && s.table[s.current].pc.WaitBlock?
    ensures Inv(Stepped(s))
  {
    var me := s.table[s.current];
    var q := me.(state := Blocked, pc := WaitSti(me.pc.w));
    BlockFits(s);
    assert Stepped(s) == Become(s, q, s.interrupts);
    hide Resting, Stepped, Fits, Continues;
    BecomeInv(s, q, s.interrupts);
  }

  /** Where the scan leads. */
  function ScanNext(s: State): Pc
    requires s.current in s.table && s.table[s.current].pc.WaitScan?
  {
    var me := s.table[s.current];
    var found := FirstDead(s.table, me.pid, me.pc.w, 0);
    if found.Some? then ReapSti(found.value)
    else if me.pc.w.AnyChild? && !HasChild(s.table, me.pid) then NoneSti
    else WaitBlock(me.pc.w)
  }

  lemma FoundFits(s: State, c: nat)
    requires s.current in s.table && PcOk(s, s.current) && s.table[s.current].pc.WaitScan?
    requires c in s.table && c != s.current && s.table[c].parent == s.table[s.current].pid && s.table[c].state.Dead?
    requires s.current != 0
    ensures var q := s.table[s.current].(pc := ReapSti(c)); Continues(s, q) && Fits(s, q, s.exits)
  {
    hide IsChild;
  }

  lemma NobodyFits(s: State, pc: Pc)
    requires s.current in s.table && PcOk(s, s.current) && s.table[s.current].pc.WaitScan? && s.current != 0
    requires pc.NoneSti? || pc == WaitBlock(s.table[s.current].pc.w)
    requires pc.WaitBlock? ==> exists c :: IsChild(s, c, s.table[s.current].pid, pc.w)
    requires pc.WaitBlock? ==> forall c | IsChild(s, c, s.table[s.current].pid, pc.w) :: !s.table[c].state.Dead?
    ensures var q := s.table[s.current].(pc := pc); Continues(s, q) && Fits(s, q, s.exits)
  {
    hide IsChild;
  }

  lemma ScanFits(s: State)
    requires Inv(s) && s.current in s.table && s.table[s.current].pc.WaitScan?
    ensures var q := s.table[s.current].(pc := ScanNext(s)); Continues(s, q) && Fits(s, q, s.exits)
  {
    Mine(s);
    ScanFinds(s);
    ScanCases(s);
    assert s.current != 0;
    hide Shape, Resting, FirstDead, HasChild, WakeupPending, History, IsChild, ScanNext, PcOk, Fits, Continues;
    var pc := ScanNext(s);
    if pc.ReapSti? { FoundFits(s, pc.c); } else { NobodyFits(s, pc); }
  }

  lemma ScanCases(s: State)
    requires s.current in s.table && s.table[s.current].pc.WaitScan?
    ensures var me := s.table[s.current];
            var found := FirstDead(s.table, me.pid, me.pc.w, 0);
            ScanNext(s) == if found.Some? then ReapSti(found.value)
                           else if me.pc.w.AnyChild? && !HasChild(s.table, me.pid) then NoneSti
                           else WaitBlock(me.pc.w)
  {
  }

  /** The scan for a dead child, under cli. */
  lemma {:induction false} ScanStepInv(s: State)
    requires Inv(s) && Enabled(s, Step) && s.table[s.current].pc.WaitScan?
    ensures Inv(Stepped(s))
  {
    hide Resting, Fits, Continues, FirstDead, HasChild;
    var q := s.table[s.current].(pc := ScanNext(s));
    ScanFits(s);
    assert Stepped(s) == Become(s, q, s.interrupts);
    hide Stepped;
    BecomeInv(s, q, s.interrupts);
  }

  // ---------- Steps that touch another process, the queue or the history ----------

  /** For process p, which is not running, nothing changed that its obligations speak of: its entry,
      except that it may have been woken, and its children. */
  ghost predicate Family(s: State, s': State, p: nat)
    requires p in s.table
  {
    var me := s.table[p];
    && p != s.current && s'.current == s.current && p in s'.table
    && (s'.table[p] == me || (me.state.Blocked? && s'.table[p] == me.(state := Ready)))
    && (me.pid in s.exits ==> me.pid in s'.exits && s'.exits[me.pid] == s.exits[me.pid])
    && (forall c | c in s'.table && s'.table[c].parent == me.pid :: c in s.table && s.table[c].parent == me.pid)
    && (forall c | c in s.table && s.table[c].parent == me.pid :: Kept(s, s', c, s'.table[p].state.Blocked?))
  }

  /** Child c of a process that is not running is still that child, as dead and as queued as before. */
  ghost predicate Kept(s: State, s': State, c: nat, blocked: bool)
    requires c in s.table
  {
    && c in s'.table && s'.table[c].parent == s.table[c].parent && s'.table[c].pid == s.table[c].pid
    && (c !in s.ring ==> c !in s'.ring)
    && (s.table[c].state.Dead? ==> s'.table[c].state.Dead? && s'.table[c].exitCode == s.table[c].exitCode)
    && (s'.table[c].state.Dead? && !s.table[c].state.Dead? ==> c == s.current && s'.table[c].pc.ExitWake?)
    && (blocked && s.table[c].pc.ExitWake? && c == s.current ==> s'.table[c].pc.ExitWake?)
    && (c !in s.ring && s.table[c].state.Ready? && s.table[c].pc.User? ==> s'.table[c].state.Ready? && s'.table[c].pc.User?)
  }

  lemma {:induction false} FamilyOk(s: State, s': State, p: nat)
    requires p in s.table && PcOk(s, p) && WakeupPending(s, p) && Family(s, s', p)
    ensures PcOk(s', p) && WakeupPending(s', p)
  {
    var me := s.table[p];
    forall c, w ensures IsChild(s', c, me.pid, w) == IsChild(s, c, me.pid, w) { }
    if WaitsFor(me.pc).Some? && (WaitsFor(me.pc).value.Child? || me.state.Blocked? || me.pc.WaitBlock?) {
      var c :| IsChild(s, c, me.pid, WaitsFor(me.pc).value);
      assert IsChild(s', c, me.pid, WaitsFor(me.pc).value);
    }
  }

  /** No wait finished and nothing was released: the history still fits the table. */
  lemma {:induction false} HistoryKept(s: State, s': State)
    requires History(s) && s'.reaps == s.reaps && s'.released == s.released && s'.exits == s.exits
    requires s.nextPid <= s'.nextPid
    requires forall q | q in s.parents && q < s.nextPid :: q in s'.parents && s'.parents[q] == s.parents[q]
    requires forall p | p in s'.table :: (p in s.table && s'.table[p].pid == s.table[p].pid) || s'.table[p].pid == s.nextPid
    requires forall r | r in s.table && s.table[r].pc.ReapClear? :: r in s'.table && s'.table[r].pc == s.table[r].pc
    ensures History(s')
  {
    forall p | p in s'.table && s'.table[p].pid in s'.released
      ensures exists r :: r in s'.table && s'.table[r].pc.ReapClear? && s'.table[r].pc.c == p
    {
      var r :| r in s.table && s.table[r].pc.ReapClear? && s.table[r].pc.c == p;
      assert s'.table[r].pc == s.table[r].pc;
    }
  }

  /** Everyone but the processes in `mine` by family, those in `mine` directly. */
  lemma {:induction false} Assemble(s: State, s': State, mine: set<nat>)
    requires Resting(s) && Shape(s') && History(s')
    requires forall p | p in s'.table && p !in mine :: p in s.table && Family(s, s', p)
    requires forall p | p in s'.table && p in mine :: PcOk(s', p) && WakeupPending(s', p)
    ensures Resting(s')
  {
    hide Shape, History, PcOk, WakeupPending, Family;
    forall p | p in s'.table ensures PcOk(s', p) && WakeupPending(s', p) {
      if p !in mine { FamilyOk(s, s', p); }
    }
  }

  lemma UniquePid(s: State, p: nat, q: nat)
    requires Shape(s) && p in s.table && q in s.table && s.table[p].pid == s.table[q].pid
    ensures p == q
  {
  }

  lemma IdleIs(s: State)
    requires Shape(s)
    ensures 0 in s.table && s.table[0].pid == 0 && !s.table[0].state.Blocked? && !s.table[0].state.Dead?
  {
  }

  lemma {:induction false} WakeFamily(s: State, p: nat)
    requires Shape(s) && p in s.table && p != s.current && s.current in s.table && s.table[s.current].pc.ExitWake?
    ensures Family(s, Woken(s), p)
  {
    hide Shape;
    IdleIs(s);
    var s' := Woken(s);
    var me, cur := s.table[p], s.table[s.current];
    if cur.parent == me.pid && me.state.Blocked? {
      if me.pid == 0 { UniquePid(s, p, 0); }
      assert WakesParent(s, p);
    }
    forall c | c in s.table && s.table[c].parent == me.pid ensures Kept(s, s', c, s'.table[p].state.Blocked?) { }
  }

  lemma {:induction false} WakeMine(s: State)
    requires s.current in s.table && s.table[s.current].pc.ExitWake? && PcOk(s, s.current)
    ensures PcOk(Woken(s), s.current) && WakeupPending(Woken(s), s.current)
  {
  }

  lemma {:induction false} WakeHistory(s: State)
    requires History(s) && s.current in s.table && s.table[s.current].pc.ExitWake?
    ensures History(Woken(s))
  {
    hide History;
    HistoryKept(s, Woken(s));
  }

  lemma WakeStepCurrent(s: State)
    requires s.current in s.table && CurrentOk(s) && s.table[s.current].pc.ExitWake?
    ensures var s' := Woken(s);
            s'.table.Keys == s.table.Keys && s'.current == s.current && CurrentOk(s')
  {
  }

  /** sys_exit's wake-up: the one process that could be waiting for this exit is no longer blocked. */
  lemma {:induction false} WakeStepInv(s: State)
    requires Inv(s) && s.current in s.table && s.table[s.current].pc.ExitWake?
    ensures Inv(Woken(s))
  {
    hide Shape, History, PcOk, WakeupPending, Family, Resting, Woken;
    var s' := Woken(s);
    Mine(s);
    WakeStepCurrent(s);
    WakeShape(s);
    WakeHistory(s);
    WakeMine(s);
    forall p | p in s'.table && p != s.current ensures p in s.table && Family(s, s', p) { WakeFamily(s, p); }
    Assemble(s, s', {s.current});
  }

  lemma {:induction false} WakeShape(s: State)
    requires Shape(s) && PcOk(s, s.current) && s.table[s.current].pc.ExitWake?
    ensures Shape(Woken(s))
  {
  }

  // ---------- Creation ----------

  lemma {:induction false} ForkShape(s: State, slot: nat)
    requires Shape(s) && s.table[s.current].pc.ForkFill? && slot < MAX_PROCESSES && slot !in s.table
    ensures Shape(Forked(s, slot)) && slot !in s.ring
  {
  }

  lemma {:induction false} ForkHistory(s: State, slot: nat)
    requires Shape(s) && History(s) && s.table[s.current].pc.ForkFill? && slot !in s.table
    ensures History(Forked(s, slot))
  {
    Located(s);
    hide History, Shape;
    HistoryKept(s, Forked(s, slot));
  }

  lemma {:induction false} ForkFamily(s: State, slot: nat, p: nat)
    requires Shape(s) && slot !in s.table && p in s.table && p != s.current && s.table[s.current].pc.ForkFill?
    ensures Family(s, Forked(s, slot), p)
  {
    Located(s);
    hide Shape;
    if s.table[p].pid == s.table[s.current].pid { UniquePid(s, p, s.current); }
  }

  lemma {:induction false} ForkMine(s: State, slot: nat)
    requires s.current in s.table && slot !in s.table && s.table[s.current].pc.ForkFill? && PcOk(s, s.current)
    requires slot !in s.ring && slot != 0
    ensures var s' := Forked(s, slot);
            PcOk(s', s.current) && WakeupPending(s', s.current) && PcOk(s', slot) && WakeupPending(s', slot)
  {
  }

  lemma ForkCurrent(s: State, slot: nat)
    requires s.current in s.table && CurrentOk(s) && s.table[s.current].pc.ForkFill? && slot !in s.table
    ensures var s' := Forked(s, slot);
            s'.table.Keys == s.table.Keys + {slot} && s'.current == s.current && CurrentOk(s')
  {
  }

  lemma {:induction false} ForkInv(s: State, slot: nat)
    requires Inv(s) && s.current in s.table && s.table[s.current].pc.ForkFill? && slot < MAX_PROCESSES && slot !in s.table
    ensures Inv(Forked(s, slot))
  {
    hide Shape, History, PcOk, WakeupPending, Family, Resting, Forked;
    var s' := Forked(s, slot);
    Mine(s);
    ForkCurrent(s, slot);
    ForkShape(s, slot);
    ForkHistory(s, slot);
    ForkMine(s, slot);
    forall p | p in s'.table && p !in {s.current, slot} ensures p in s.table && Family(s, s', p) { ForkFamily(s, slot, p); }
    Assemble(s, s', {s.current, slot});
  }

  lemma {:induction false} QueueShape(s: State, c: nat)
    requires Shape(s) && c in s.table && c !in s.ring
    ensures Shape(Queued(s, c))
  {
  }

  lemma {:induction false} QueueFamily(s: State, c: nat, p: nat)
    requires Shape(s) && c in s.table && p in s.table && p != s.current && s.table[s.current].pc.ForkAdd?
    requires s.table[c].parent == s.table[s.current].pid
    ensures Family(s, Queued(s, c), p)
  {
    Located(s);
    hide Shape;
    if s.table[p].pid == s.table[s.current].pid { UniquePid(s, p, s.current); }
  }

  lemma {:induction false} QueueMine(s: State, c: nat)
    requires s.current in s.table && s.table[s.current].pc.ForkAdd? && PcOk(s, s.current)
    ensures PcOk(Queued(s, c), s.current) && WakeupPending(Queued(s, c), s.current)
  {
  }

  lemma {:induction false} QueueHistory(s: State, c: nat)
    requires History(s) && s.current in s.table && s.table[s.current].pc.ForkAdd?
    ensures History(Queued(s, c))
  {
    hide History;
    HistoryKept(s, Queued(s, c));
  }

  lemma ForkedChild(s: State)
    requires s.current in s.table && s.table[s.current].pc.ForkAdd? && PcOk(s, s.current)
    ensures var c := s.table[s.current].pc.slot;
            c in s.table && s.table[c].parent == s.table[s.current].pid && c !in s.ring
  {
  }

  lemma QueueCurrent(s: State, c: nat)
    requires s.current in s.table && CurrentOk(s) && s.table[s.current].pc.ForkAdd?
    ensures var s' := Queued(s, c);
            s'.table.Keys == s.table.Keys && s'.current == s.current && CurrentOk(s')
  {
  }

  lemma {:induction false} QueueInv(s: State)
    requires Inv(s) && s.current in s.table && s.table[s.current].pc.ForkAdd?
    ensures Inv(Queued(s, s.table[s.current].pc.slot))
  {
    hide Shape, History, PcOk, WakeupPending, Family, Resting, Queued;
    var c := s.table[s.current].pc.slot;
    var s' := Queued(s, c);
    Mine(s);
    ForkedChild(s);
    QueueCurrent(s, c);
    QueueShape(s, c);
    QueueHistory(s, c);
    QueueMine(s, c);
    forall p | p in s'.table && p != s.current ensures p in s.table && Family(s, s', p) { QueueFamily(s, c, p); }
    Assemble(s, s', {s.current});
  }

  // ---------- Reaping ----------

  lemma {:induction false} WithoutIs(ring: seq<nat>, c: nat)
    requires Distinct(ring)
    ensures Distinct(Without(ring, c)) && forall x :: x in Without(ring, c) <==> x in ring && x != c
  {
    if ring != [] && ring[0] != c {
      WithoutIs(ring[1..], c);
      assert ring == [ring[0]] + ring[1..];
      var w := Without(ring[1..], c);
      forall j | 0 <= j < |w| ensures w[j] != ring[0] {
        assert w[j] in ring[1..];
      }
    } else if ring != [] {
      assert ring == [ring[0]] + ring[1..];
    }
  }

  /** What a process in the middle of reaping knows of the child in slot c. */
  lemma {:induction false} ReapedChild(s: State, c: nat)
    requires Resting(s) && var pc := s.table[s.current].pc; Reaping(pc) && pc.c == c
    ensures c in s.table && c != s.current && c != 0
    ensures s.table[c].parent == s.table[s.current].pid && s.table[c].state.Dead?
    ensures s.table[c].pid in s.exits && s.exits[s.table[c].pid] == s.table[c].exitCode
    ensures !s.table[c].pc.ReapClear?
  {
    Mine(s);
    IdleIs(s);
    hide History, Shape, WakeupPending;
    assert PcOk(s, c);
  }

  lemma {:induction false} UnlinkShape(s: State, c: nat, code: int)
    requires Shape(s) && c != s.current && c != 0
    ensures Shape(Unlinked(s, c, code))
  {
    WithoutIs(s.ring, c);
  }

  lemma {:induction false} UnlinkMine(s: State, c: nat, code: int)
    requires s.current in s.table && s.table[s.current].pc == ReapUnlink(c, code) && PcOk(s, s.current) && Distinct(s.ring)
    ensures PcOk(Unlinked(s, c, code), s.current) && WakeupPending(Unlinked(s, c, code), s.current)
  {
    WithoutIs(s.ring, c);
  }

  lemma {:induction false} UnlinkFamily(s: State, c: nat, code: int, p: nat)
    requires s.current in s.table && p in s.table && p != s.current && s.table[s.current].pc.ReapUnlink? && Distinct(s.ring)
    ensures Family(s, Unlinked(s, c, code), p)
  {
    WithoutIs(s.ring, c);
  }

  lemma QueueDistinct(s: State)
    requires Shape(s)
    ensures Distinct(s.ring)
  {
  }

  lemma {:induction false} UnlinkHistory(s: State, c: nat, code: int)
    requires History(s) && s.current in s.table && s.table[s.current].pc.ReapUnlink?
    ensures History(Unlinked(s, c, code))
  {
    hide History;
    HistoryKept(s, Unlinked(s, c, code));
  }

  lemma UnlinkCurrent(s: State, c: nat, code: int)
    requires s.current in s.table && CurrentOk(s) && s.table[s.current].pc == ReapUnlink(c, code)
    ensures var s' := Unlinked(s, c, code);
            s'.table.Keys == s.table.Keys && s'.current == s.current && CurrentOk(s')
  {
  }

  lemma {:induction false} UnlinkInv(s: State, c: nat, code: int)
    requires Inv(s) && s.current in s.table && s.table[s.current].pc == ReapUnlink(c, code)
    ensures Inv(Unlinked(s, c, code))
  {
    hide Shape, History, PcOk, WakeupPending, Family, Resting, Distinct, Unlinked;
    var s' := Unlinked(s, c, code);
    Mine(s);
    ReapedChild(s, c);
    QueueDistinct(s);
    UnlinkCurrent(s, c, code);
    UnlinkShape(s, c, code);
    UnlinkHistory(s, c, code);
    UnlinkMine(s, c, code);
    forall p | p in s'.table && p != s.current ensures p in s.table && Family(s, s', p) { UnlinkFamily(s, c, code, p); }
    Assemble(s, s', {s.current});
  }

  lemma {:induction false} ReleaseFamily(s: State, c: nat, code: int, p: nat)
    requires s.current in s.table && c in s.table && p in s.table && p != s.current && s.table[s.current].pc.ReapFree?
    ensures Family(s, Released(s, c, code), p)
  {
  }

  /** The child's frames have not been released before: only its parent could have, and it is only
      now doing so. */
  lemma {:induction false} NotYetReleased(s: State, c: nat)
    requires Resting(s) && s.table[s.current].pc.ReapFree? && s.table[s.current].pc.c == c && c in s.table
    requires s.table[c].parent == s.table[s.current].pid
    ensures s.table[c].pid !in s.released
  {
    Mine(s);
    hide Shape, WakeupPending;
    forall r | r in s.table && s.table[r].pc.ReapClear? && s.table[r].pc.c == c ensures r == s.current {
      assert PcOk(s, r);
      UniquePid(s, r, s.current);
    }
  }

  lemma {:induction false} ReleaseHistory(s: State, c: nat, code: int)
    requires History(s) && s.current in s.table && s.table[s.current].pc.ReapFree? && c in s.table && c != s.current
    requires s.table[c].pid !in s.released && s.table[c].pid < s.nextPid
    requires forall p | p in s.table && p != c :: s.table[p].pid != s.table[c].pid
    ensures History(Released(s, c, code))
  {
    var s' := Released(s, c, code);
    forall p | p in s'.table && s'.table[p].pid in s'.released
      ensures exists r :: r in s'.table && s'.table[r].pc.ReapClear? && s'.table[r].pc.c == p
    {
      if s'.table[p].pid == s.table[c].pid {
        assert p == c && s'.table[s.current].pc.ReapClear?;
      } else {
        assert s.table[p].pid in s.released;
        var r :| r in s.table && s.table[r].pc.ReapClear? && s.table[r].pc.c == p;
        assert s'.table[r].pc == s.table[r].pc;
      }
    }
  }

  lemma {:induction false} ReleaseMine(s: State, c: nat, code: int)
    requires s.current in s.table && s.table[s.current].pc == ReapFree(c, code) && PcOk(s, s.current)
    ensures PcOk(Released(s, c, code), s.current) && WakeupPending(Released(s, c, code), s.current)
  {
  }

  lemma {:induction false} ReleaseShape(s: State, c: nat, code: int)
    requires Shape(s) && c in s.table && s.table[s.current].pc.ReapFree?
    ensures Shape(Released(s, c, code)) && s.table[c].pid < s.nextPid
    ensures forall p | p in s.table && p != c :: s.table[p].pid != s.table[c].pid
  {
  }

  lemma ReleaseCurrent(s: State, c: nat, code: int)
    requires s.current in s.table && CurrentOk(s) && s.table[s.current].pc.ReapFree? && c in s.table
    ensures var s' := Released(s, c, code);
            s'.table.Keys == s.table.Keys && s'.current == s.current && CurrentOk(s')
  {
  }

  lemma {:induction false} ReleaseInv(s: State, c: nat, code: int)
    requires Inv(s) && s.current in s.table && s.table[s.current].pc == ReapFree(c, code) && c in s.table
    ensures Inv(Released(s, c, code))
  {
    hide Shape, History, PcOk, WakeupPending, Family, Resting, Released;
    var s' := Released(s, c, code);
    Mine(s);
    ReapedChild(s, c);
    ReleaseCurrent(s, c, code);
    NotYetReleased(s, c);
    ReleaseShape(s, c, code);
    ReleaseHistory(s, c, code);
    ReleaseMine(s, c, code);
    forall p | p in s'.table && p != s.current ensures p in s.table && Family(s, s', p) { ReleaseFamily(s, c, code, p); }
    Assemble(s, s', {s.current});
  }

  lemma {:induction false} ClearShape(s: State, c: nat, code: int)
    requires Shape(s) && c in s.table && c != s.current && c != 0 && c !in s.ring
    ensures Shape(Cleared(s, c, code))
  {
  }

  lemma {:induction false} ClearFamily(s: State, c: nat, code: int, p: nat)
    requires Shape(s) && c in s.table && c != s.current && p in s.table && p != s.current && p != c
    requires s.table[c].parent == s.table[s.current].pid && s.table[s.current].pc.ReapClear?
    ensures Family(s, Cleared(s, c, code), p)
  {
    Located(s);
    hide Shape;
    if s.table[p].pid == s.table[s.current].pid { UniquePid(s, p, s.current); }
  }

  lemma {:induction false} ClearReleased(s: State, c: nat, code: int)
    requires History(s) && s.current in s.table && s.table[s.current].pc == ReapClear(c, code) && c in s.table
    requires c != s.current && !s.table[c].pc.ReapClear?
    ensures var s' := Cleared(s, c, code);
            forall p | p in s'.table && s'.table[p].pid in s'.released ::
              exists r :: r in s'.table && s'.table[r].pc.ReapClear? && s'.table[r].pc.c == p
  {
    var s' := Cleared(s, c, code);
    forall p | p in s'.table && s'.table[p].pid in s'.released
      ensures exists r :: r in s'.table && s'.table[r].pc.ReapClear? && s'.table[r].pc.c == p
    {
      var r :| r in s.table && s.table[r].pc.ReapClear? && s.table[r].pc.c == p;
      assert s'.table[r].pc == s.table[r].pc;
    }
  }

  lemma PidFacts(s: State, c: nat)
    requires Shape(s) && c in s.table
    ensures s.table[c].pid < s.nextPid && s.table[c].pid in s.parents && s.parents[s.table[c].pid] == s.table[c].parent
    ensures forall p | p in s.table && p != c :: s.table[p].pid != s.table[c].pid
  {
  }

  lemma {:induction false} ClearHistory(s: State, c: nat, code: int)
    requires History(s) && Shape(s) && s.table[s.current].pc == ReapClear(c, code) && c in s.table && c != s.current
    requires s.table[c].parent == s.table[s.current].pid && !s.table[c].pc.ReapClear?
    requires s.table[c].pid in s.exits && s.exits[s.table[c].pid] == code
    ensures History(Cleared(s, c, code))
  {
    Located(s);
    PidFacts(s, c);
    ClearReleased(s, c, code);
    hide Shape, Distinct;
  }

  lemma {:induction false} ClearMine(s: State, c: nat, code: int)
    requires s.current in s.table && s.table[s.current].pc == ReapClear(c, code) && PcOk(s, s.current)
    ensures code == s.table[c].exitCode && c !in s.ring
    ensures s.current in Cleared(s, c, code).table
    ensures PcOk(Cleared(s, c, code), s.current) && WakeupPending(Cleared(s, c, code), s.current)
  {
  }

  lemma ClearCurrent(s: State, c: nat, code: int)
    requires s.current in s.table && CurrentOk(s) && s.table[s.current].pc.ReapClear? && c in s.table && c != s.current
    ensures var s' := Cleared(s, c, code);
            s'.table.Keys == s.table.Keys - {c} && s'.current == s.current && CurrentOk(s')
  {
  }

  lemma {:induction false} ClearInv(s: State, c: nat, code: int)
    requires Inv(s) && s.current in s.table && s.table[s.current].pc == ReapClear(c, code) && c in s.table
    ensures Inv(Cleared(s, c, code))
  {
    hide Shape, History, PcOk, WakeupPending, Family, Resting, Cleared;
    var s' := Cleared(s, c, code);
    Mine(s);
    ReapedChild(s, c);
    ClearCurrent(s, c, code);
    ClearMine(s, c, code);
    ClearShape(s, c, code);
    ClearHistory(s, c, code);
    forall p | p in s'.table && p != s.current ensures p in s.table && Family(s, s', p) { ClearFamily(s, c, code, p); }
    Assemble(s, s', {s.current});
  }

  // ---------- Every event ----------

  lemma {:induction false} FillInv(s: State)
    requires Inv(s) && Enabled(s, Step) && Careful(s, Step) && s.table[s.current].pc.ForkFill?
    ensures Inv(Stepped(s))
  {
    Mine(s);
    var slot := s.table[s.current].pc.slot;
    assert Stepped(s) == Forked(s, slot) && slot < MAX_PROCESSES && slot !in s.table;
    hide Inv, Stepped, Forked;
    ForkInv(s, slot);
  }

  lemma {:induction false} LinkInv(s: State)
    requires Inv(s) && Enabled(s, Step) && Careful(s, Step) && s.table[s.current].pc.ForkAdd?
    ensures Inv(Stepped(s))
  {
    assert Stepped(s) == Queued(s, s.table[s.current].pc.slot);
    hide Inv, Stepped, Queued;
    QueueInv(s);
  }

  lemma StepIs(s: State)
    requires Enabled(s, Step)
    ensures var pc := s.table[s.current].pc;
            && (pc.ExitWake? ==> Stepped(s) == Woken(s)) && (pc.NoneSti? ==> Stepped(s) == Refused(s))
            && (pc.ReapUnlink? ==> Stepped(s) == Unlinked(s, pc.c, pc.code))
            && (pc.ReapFree? ==> pc.c in s.table && Stepped(s) == Released(s, pc.c, pc.code))
            && (pc.ReapClear? ==> pc.c in s.table && Stepped(s) == Cleared(s, pc.c, pc.code))
  {
    hide Woken, Refused, Unlinked, Released, Cleared;
  }

  lemma PointKinds(s: State)
    requires Enabled(s, Step)
    ensures var pc := s.table[s.current].pc;
            || Plain(pc) || pc.ForkFill? || pc.ForkAdd? || pc.Marking? || pc.Picked? || pc.ExitMark? || pc.ExitWake?
            || pc.WaitScan? || pc.WaitBlock? || pc.NoneSti? || pc.ReapUnlink? || pc.ReapFree? || pc.ReapClear?
  {
  }

  lemma {:induction false} StepInv(s: State)
    requires Inv(s) && Enabled(s, Step) && Careful(s, Step)
    ensures Inv(Stepped(s))
  {
    StepIs(s);
    PointKinds(s);
    var pc := s.table[s.current].pc;
    assert s.current in s.table;
    hide Inv, Stepped, Careful, Enabled, Woken, Refused, Unlinked, Released, Cleared, Plain;
    if pc.ForkFill? { FillInv(s); }
    else if pc.ForkAdd? { LinkInv(s); }
    else if pc.Marking? { MarkInv(s); }
    else if pc.Picked? { CommitInv(s); }
    else if pc.ExitMark? { DieStepInv(s); }
    else if pc.ExitWake? { WakeStepInv(s); }
    else if pc.WaitScan? { ScanStepInv(s); }
    else if pc.WaitBlock? { BlockStepInv(s); }
    else if pc.NoneSti? { RefuseInv(s); }
    else if pc.ReapUnlink? { UnlinkInv(s, pc.c, pc.code); }
    else if pc.ReapFree? { ReleaseInv(s, pc.c, pc.code); }
    else if pc.ReapClear? { ClearInv(s, pc.c, pc.code); }
    else { PlainStepInv(s); }
  }

  lemma {:induction false} ApplyInv(s: State, e: Event)
    requires Inv(s) && Enabled(s, e) && Careful(s, e)
    ensures Inv(Apply(s, e))
  {
    hide Inv, Stepped, Ticked, Falls;
    match e {
      case Timer(t) => TickInv(s, t);
      case Step => StepInv(s);
      case Yield => YieldInv(s);
      case Spot(q) => SpotInv(s, q);
      case Choose(next) => ChooseInv(s, next);
      case Switch => SwitchInv(s);
      case _ => CallInv(s, e);
    }
  }

  lemma NotResting(s: State, n: nat)
    requires n in s.table && !s.table[n].state.Dead? && Finished(s.table[n].pc)
    ensures !Resting(s)
  {
    hide Shape, History, WakeupPending;
    assert !PcOk(s, n);
  }

  lemma NotQueued(s: State)
    requires s.current !in s.ring
    ensures !Resting(s)
  {
    hide History, PcOk, WakeupPending;
  }

  /** A late write to a process that has died brings it back to life. */
  lemma {:induction false} LateWriteFails(s: State)
    requires Inv(s) && Enabled(s, Step) && !Careful(s, Step) && (s.table[s.current].pc.Marking? || s.table[s.current].pc.Picked?)
    ensures !Inv(Stepped(s))
  {
    var s', pc := Stepped(s), s.table[s.current].pc;
    var n := if pc.Marking? then pc.q else pc.n;
    if n in s.table && s.table[n].pid == pc.pid {
      Mine(s);
      assert PcOk(s, n);
      hide Shape, History, WakeupPending, Resting;
      if s.table[n].state.Dead? { NotResting(s', n); } else { NotQueued(s'); }
    }
  }

  lemma {:induction false} WildFails(s: State, e: Event)
    requires Enabled(s, e) && !Careful(s, e)
    requires e.Step? ==> !s.table[s.current].pc.Marking? && !s.table[s.current].pc.Picked?
    ensures Apply(s, e).wild
  {
  }

  /** The exact condition: an event keeps the invariant if and only if it is careful. */
  lemma {:induction false} ApplyExact(s: State, e: Event)
    requires Inv(s) && Enabled(s, e)
    ensures Inv(Apply(s, e)) <==> Careful(s, e)
  {
    if Careful(s, e) {
      ApplyInv(s, e);
    } else if e.Step? && (s.table[s.current].pc.Marking? || s.table[s.current].pc.Picked?) {
      LateWriteFails(s);
    } else {
      WildFails(s, e);
    }
  }
}
