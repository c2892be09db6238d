/** What exit and wait promise their callers, over whole runs of the step machine: what the scan of a wait
    decides, whom an exit wakes, what every wait comes back with, and that no process is ever mislaid. */
module LifecycleWaits {
  import opened Wrappers
  import opened Lifecycle
  import opened LifecycleSafety
  import opened LifecycleRuns

  // ---------- One wait, one exit ----------

  /** From s to s' the running process moved to another program point, in another state perhaps, and nothing
      else changed but the interrupt flag. */
  ghost predicate Alone(s: State, s': State) {
    && s.current in s.table && s.current in s'.table
    && var q := s'.table[s.current];
       s' == s.(table := s.table[s.current := s.table[s.current].(state := q.state, pc := q.pc)], interrupts := s'.interrupts)
  }

  /** Under cli nothing but the running process's own next step can happen. */
  lemma OnlyStep(s: State, e: Event)
    requires Inv(s) && Enabled(s, e) && Masked(s.table[s.current].pc)
    ensures e == Step
  {
    hide Resting;
  }

  /** The scan, in terms of the table: it stands at -1 exactly when a wait for any child finds none at all, at
      the lowest dead awaited child exactly when there is one, and otherwise goes on to block. */
  ghost predicate Decided(s: State, s': State, w: Target)
    requires s.current in s.table && s.current in s'.table
  {
    var me, pc := s.table[s.current].pid, s'.table[s.current].pc;
    && (pc.NoneSti? <==> w.AnyChild? && forall c | c in s.table :: s.table[c].parent != me)
    && (pc.ReapSti? <==>
          exists c :: c in s.table && s.table[c].parent == me && (w.Child? ==> s.table[c].pid == w.pid) && s.table[c].state.Dead?)
    && (pc.ReapSti? ==>
          && pc.c in s.table && s.table[pc.c].parent == me && s.table[pc.c].state.Dead?
          && (w.Child? ==> s.table[pc.c].pid == w.pid)
          && forall c | c in s.table && c < pc.c && s.table[c].parent == me && w.AnyChild? :: !s.table[c].state.Dead?)
    && (pc.NoneSti? || pc.ReapSti? || pc == WaitBlock(w))
  }

  lemma ScanMoves(s: State, w: Target)
    requires Enabled(s, Step) && s.table[s.current].pc == WaitScan(w)
    ensures Apply(s, Step) == Goto(s, ScanNext(s))
  {
    hide FirstDead, HasChild;
  }

  /** Slots are below the bound of the scan, and a pid awaited by name is that of one child. */
  lemma {:induction false} ScanSees(s: State, w: Target)
    requires Shape(s) && PcOk(s, s.current) && s.table[s.current].pc == WaitScan(w)
    ensures forall c | c in s.table :: c < MAX_PROCESSES
    ensures w.Child? ==> forall c | c in s.table && s.table[c].pid == w.pid :: s.table[c].parent == s.table[s.current].pid
  {
    hide Distinct;
    if w.Child? {
      var c :| IsChild(s, c, s.table[s.current].pid, w);
    }
  }

  lemma {:induction false} ScanIs(s: State, w: Target)
    requires s.current in s.table && s.table[s.current].pc == WaitScan(w)
    requires forall c | c in s.table :: c < MAX_PROCESSES
    requires w.Child? ==> forall c | c in s.table && s.table[c].pid == w.pid :: s.table[c].parent == s.table[s.current].pid
    ensures Decided(s, Goto(s, ScanNext(s)), w)
  {
    hide FirstDead;
  }

  lemma {:induction false} ScanDecision(s: State, w: Target)
    requires Inv(s) && Enabled(s, Step) && s.table[s.current].pc == WaitScan(w)
    ensures var s' := Apply(s, Step);
            Alone(s, s') && Decided(s, s', w) && s'.table[s.current].state == s.table[s.current].state
  {
    Mine(s);
    ScanMoves(s, w);
    hide Resting, PcOk, WakeupPending, History, Shape, ScanNext, Decided, Apply;
    ScanSees(s, w);
    ScanIs(s, w);
  }

  lemma BlockMoves(s: State, w: Target)
    requires Enabled(s, Step) && s.table[s.current].pc == WaitBlock(w)
    ensures Alone(s, Apply(s, Step)) && Apply(s, Step).table[s.current].state.Blocked?
    ensures Apply(s, Step).table[s.current].pc == WaitSti(w)
  {
  }

  /** What a wait does under cli, in every run: its scan decides by the table alone, and if it goes on to block
      then its very next step makes it blocked, with nothing in between. */
  lemma {:induction false} WaitDecides(run: seq<State>, events: seq<Event>, i: nat, w: Target)
    requires CarefulTo(run, events, i) && i < |events|
    requires run[i].current in run[i].table && run[i].table[run[i].current].pc == WaitScan(w)
    ensures events[i] == Step && Alone(run[i], run[i + 1]) && Decided(run[i], run[i + 1], w)
    ensures run[i + 1].table[run[i].current].state == run[i].table[run[i].current].state
    ensures run[i + 1].table[run[i].current].pc == WaitBlock(w) && i + 1 < |events| ==>
              && events[i + 1] == Step && Alone(run[i + 1], run[i + 2])
              && run[i + 2].table[run[i].current].state.Blocked?
  {
    hide Inv, Enabled, Apply, Careful, Init, Decided;
    Reachable(run, events, i);
    OnlyStep(run[i], events[i]);
    ScanDecision(run[i], w);
    if run[i + 1].table[run[i].current].pc == WaitBlock(w) && i + 1 < |events| {
      ScanStays(run, events, i);
      OnlyStep(run[i + 1], events[i + 1]);
      BlockMoves(run[i + 1], w);
    }
  }

  /** The decision is one more careful event. */
  lemma ScanStays(run: seq<State>, events: seq<Event>, i: nat)
    requires CarefulTo(run, events, i) && i < |events| && events[i] == Step
    requires run[i].current in run[i].table && run[i].table[run[i].current].pc.WaitScan?
    ensures Inv(run[i + 1])
  {
    Reachable(run, events, i);
    hide Inv, Init, Apply, Enabled;
    assert run[i + 1] == Apply(run[i], Step);
    ApplyInv(run[i], Step);
  }

  /** sys_exit under cli, in every run: the process is marked dead and the wake-up loop follows at once, which
      makes ready the parent if it is blocked, and touches nobody else. */
  lemma {:induction false} ExitWakesParent(run: seq<State>, events: seq<Event>, i: nat)
    requires CarefulTo(run, events, i) && i + 1 < |events|
    requires run[i].current in run[i].table && run[i].table[run[i].current].pc.ExitMark?
    ensures events[i] == Step && events[i + 1] == Step
    ensures var s, s', me := run[i], run[i + 2], run[i].table[run[i].current];
            && s' == s.(table := s'.table) && s'.table.Keys == s.table.Keys
            && s'.table[s.current] == me.(state := Dead, pc := ExitSti)
            && forall p | p in s.table && p != s.current ::
                 s'.table[p] == if me.parent != 0 && s.table[p].pid == me.parent && s.table[p].state.Blocked?
                                then s.table[p].(state := Ready) else s.table[p]
  {
    hide Inv, Enabled, Apply, Careful, Init;
    Reachable(run, events, i);
    OnlyStep(run[i], events[i]);
    DieMoves(run[i]);
    assert CarefulTo(run, events, i + 1) by { DieCareful(run[i]); }
    Reachable(run, events, i + 1);
    OnlyStep(run[i + 1], events[i + 1]);
    WakeMoves(run[i + 1]);
  }

  lemma DieCareful(s: State)
    requires Enabled(s, Step) && s.table[s.current].pc.ExitMark?
    ensures Careful(s, Step)
  {
  }

  lemma DieMoves(s: State)
    requires Enabled(s, Step) && s.table[s.current].pc.ExitMark?
    ensures Apply(s, Step) == s.(table := s.table[s.current := s.table[s.current].(state := Dead, pc := ExitWake)])
  {
  }

  lemma WakeMoves(s: State)
    requires Enabled(s, Step) && s.table[s.current].pc.ExitWake?
    ensures var s', me := Apply(s, Step), s.table[s.current];
            && s' == s.(table := s'.table) && s'.table.Keys == s.table.Keys
            && (me.state.Dead? ==> s'.table[s.current] == me.(pc := ExitSti))
            && forall p | p in s.table && p != s.current ::
                 s'.table[p] == if me.parent != 0 && s.table[p].pid == me.parent && s.table[p].state.Blocked?
                                then s.table[p].(state := Ready) else s.table[p]
  {
  }

  // ---------- What any event leaves alone ----------

  /** Process q is the same process at the same program point; only its scheduling state may differ. */
  ghost predicate Stays(s: State, s': State, q: nat) {
    q in s.table && q in s'.table && s'.table[q] == s.table[q].(state := s'.table[q].state)
  }

  /** The step that clears slot q. */
  predicate Clears(s: State, e: Event, q: nat) {
    s.current in s.table && e.Step? && s.table[s.current].pc.ReapClear? && s.table[s.current].pc.c == q
  }

  /** The steps that change no more than the running process's own entry. */
  predicate Private(pc: Pc) {
    Plain(pc) || pc.ExitMark? || pc.WaitScan? || pc.WaitBlock?
  }

  lemma PrivateStep(s: State)
    requires Enabled(s, Step) && Private(s.table[s.current].pc)
    ensures Alone(s, Stepped(s)) && !Stepped(s).table[s.current].pc.ReapClear?
    ensures Stepped(s).table[s.current].pc.NoneSti? ==> s.table[s.current].pc.WaitScan?
  {
    var pc := s.table[s.current].pc;
    if Plain(pc) {
      PlainSteps(s);
      hide Stepped;
    } else if pc.WaitScan? {
      ScanMoves(s, pc.w);
      assert Apply(s, Step) == Stepped(s);
      hide Stepped, FirstDead, HasChild, Apply;
    }
  }

  lemma SharedStep(s: State)
    requires Enabled(s, Step) && Careful(s, Step) && !Private(s.table[s.current].pc)
    ensures var pc := s.table[s.current].pc;
            && (pc.ForkFill? ==> Stepped(s) == Forked(s, pc.slot) && pc.slot !in s.table)
            && (pc.ForkAdd? ==> Stepped(s) == Queued(s, pc.slot))
            && (pc.Marking? ==> Stepped(s) == Marked(s, pc.q, pc.pid, pc.k) && Alive(s, pc.q, pc.pid))
            && (pc.Picked? ==> Stepped(s) == Committed(s, pc.n, pc.pid, pc.k) && Alive(s, pc.n, pc.pid))
    ensures var pc := s.table[s.current].pc;
            || pc.ForkFill? || pc.ForkAdd? || pc.Marking? || pc.Picked? || pc.ExitWake? || pc.NoneSti?
            || pc.ReapUnlink? || pc.ReapFree? || pc.ReapClear?
  {
    hide Forked, Queued, Marked, Committed, Woken, Refused, Unlinked, Released, Cleared, FirstDead, HasChild;
  }

  lemma {:induction false} StepStays(s: State, q: nat)
    requires Enabled(s, Step) && Careful(s, Step) && q in s.table && q != s.current && !Clears(s, Step, q)
    ensures Stays(s, Stepped(s), q)
  {
    if Private(s.table[s.current].pc) {
      PrivateStep(s);
      hide Stepped;
    } else {
      SharedStep(s);
      StepIs(s);
      hide Stepped, Enabled, Careful, Private, Without;
    }
  }

  lemma Ours(s: State)
    requires Inv(s)
    ensures Resting(s) && Shape(s) && s.current in s.table && PcOk(s, s.current)
    ensures forall p | p in s.table && p != s.current :: !s.table[p].state.Running?
  {
    Mine(s);
    NobodyElseRuns(s);
  }

  lemma {:induction false} OtherStays(s: State, e: Event, q: nat)
    requires Inv(s) && Enabled(s, e) && Careful(s, e) && q in s.table && q != s.current && !Clears(s, e, q)
    ensures Stays(s, Apply(s, e), q)
  {
    hide Inv, Falls, Stepped, Ticked, TickOk, WalkOk;
    Ours(s);
    match e {
      case Timer(t) => TickOne(s, t, q);
      case Step => StepStays(s, q);
      case _ =>
    }
  }

  lemma {:induction false} StepSelf(s: State)
    requires Enabled(s, Step) && Careful(s, Step) && PcOk(s, s.current)
    ensures s.current in Stepped(s).table
    ensures var q, q' := s.table[s.current], Stepped(s).table[s.current]; q'.pid == q.pid && q'.parent == q.parent
  {
    if Private(s.table[s.current].pc) {
      PrivateStep(s);
      hide Stepped;
    } else {
      SharedStep(s);
      StepIs(s);
      hide Stepped, Enabled, Careful, Private, Without, IsChild;
    }
  }

  /** The running process keeps its identity; it may end up in another place. */
  lemma {:induction false} SelfStays(s: State, e: Event)
    requires Inv(s) && Enabled(s, e) && Careful(s, e)
    ensures s.current in Apply(s, e).table
    ensures var q, q' := s.table[s.current], Apply(s, e).table[s.current]; q'.pid == q.pid && q'.parent == q.parent
    ensures e.Timer? || e.Switch? ==> Stays(s, Apply(s, e), s.current)
  {
    NobodyElseRuns(s);
    Mine(s);
    hide Inv, Falls, Stepped, Ticked, TickOk, WalkOk, Shape, History, PcOk, WakeupPending;
    match e {
      case Timer(t) => TickOne(s, t, s.current);
      case Step => StepSelf(s);
      case _ =>
    }
  }

  /** What each event adds to the history. */
  ghost predicate Recorded(s: State, e: Event, s': State)
    requires Enabled(s, e)
  {
    var me, pc, step := s.table[s.current].pid, s.table[s.current].pc, e.Step?;
    && s'.exits == (if e.Exit? then s.exits[me := e.code] else s.exits)
    && s'.refusals == (if step && pc.NoneSti? then s.refusals + [me] else s.refusals)
    && s'.released == (if step && pc.ReapFree? then s.released + [s.table[pc.c].pid] else s.released)
    && s'.reaps == (if step && pc.ReapClear? then s.reaps + [Reap(me, s.table[pc.c].pid, pc.code)] else s.reaps)
    && s'.parents == (if step && pc.ForkFill? then s.parents[s.nextPid := me] else s.parents)
    && s'.nextPid == (if step && pc.ForkFill? then s.nextPid + 1 else s.nextPid)
  }

  lemma {:induction false} Records(s: State, e: Event)
    requires Enabled(s, e) && Careful(s, e)
    ensures Recorded(s, e, Apply(s, e))
  {
    if e.Step? {
      if Private(s.table[s.current].pc) {
        PrivateStep(s);
        hide Stepped;
      } else {
        SharedStep(s);
        StepIs(s);
        hide Stepped, Careful, Private, Without;
      }
    } else {
      hide Falls, TickOk, WalkOk;
    }
  }

  // ---------- What a wait comes back with ----------

  /** The process in slot p, with that pid, is inside a wait for w: in its loop, or on its way out with -1,
      childless, or on its way out with the child in slot c. */
  ghost predicate Serving(s: State, p: nat, pid: nat, w: Target) {
    && p in s.table && s.table[p].pid == pid
    && var pc := s.table[p].pc;
       || WaitsFor(pc) == Some(w)
       || (pc.NoneSti? && w.AnyChild? && forall c | c in s.table :: s.table[c].parent != pid)
       || (Reaping(pc) && pc.c in s.table && (w.Child? ==> s.table[pc.c].pid == w.pid))
  }

  /** A wait for w by pid has just come back: with -1, to a caller without children, or with the exit code of
      a child, the awaited one, that is now out of the table. */
  ghost predicate Returned(s: State, s': State, pid: nat, w: Target) {
    || (w.AnyChild? && (forall c | c in s.table :: s.table[c].parent != pid) &&
        s'.refusals == s.refusals + [pid] && s'.reaps == s.reaps)
    || (&& |s'.reaps| == |s.reaps| + 1 && s'.refusals == s.refusals
        && var r := s'.reaps[|s.reaps|];
           && s'.reaps == s.reaps + [r] && r.parent == pid && (w.Child? ==> r.child == w.pid)
           && r.child in s.parents && s.parents[r.child] == pid
           && r.child in s.exits && s.exits[r.child] == r.code
           && forall c | c in s'.table :: s'.table[c].pid != r.child)
  }

  /** Somebody else's event leaves a wait where it is. */
  lemma {:induction false} ServingElsewhere(s: State, e: Event, p: nat, pid: nat, w: Target)
    requires Inv(s) && Enabled(s, e) && Careful(s, e) && Serving(s, p, pid, w)
    requires p != s.current || !(e.Step? || e.Spot? || e.Choose?)
    ensures Serving(Apply(s, e), p, pid, w)
  {
    Mine(s);
    assert PcOk(s, p);
    var pc := s.table[p].pc;
    if p == s.current {
      SelfStays(s, e);
    } else {
      if Clears(s, e, p) { ReapedChild(s, p); }
      OtherStays(s, e, p);
    }
    if Reaping(pc) {
      if Clears(s, e, pc.c) { ReapedChild(s, pc.c); UniquePid(s, p, s.current); }
      if pc.c == s.current { SelfStays(s, e); } else { OtherStays(s, e, pc.c); }
    }
    hide Apply, Careful, Resting, Shape, History, WakeupPending;
  }

  /** Looking around inside the yield of a wait. */
  lemma {:induction false} ServingLooks(s: State, e: Event, pid: nat, w: Target)
    requires Inv(s) && Enabled(s, e) && Careful(s, e) && Serving(s, s.current, pid, w) && (e.Spot? || e.Choose?)
    ensures Serving(Apply(s, e), s.current, pid, w)
  {
    hide Inv, Resting, Shape, Falls, WalkOk, PcOk, Careful;
    if e.Choose? {
      ChooseMoves(s, e.next);
      hide Walked;
    }
  }

  /** The idle process does not yield. */
  lemma LooksAway(s: State)
    requires s.current in s.table && PcOk(s, s.current) && s.table[s.current].pc.Yielding?
    ensures s.current != 0
  {
    hide IsChild;
  }

  lemma YieldPoint(s: State)
    requires Enabled(s, Step) && Careful(s, Step) && (s.table[s.current].pc.Marking? || s.table[s.current].pc.Picked?)
    requires s.table[s.current].pc.Picked? ==> s.table[s.current].pc.n != s.current
    ensures var q, s' := s.table[s.current], Apply(s, Step);
            && s.current in s'.table && s'.table[s.current].pid == q.pid
            && s'.table[s.current].pc == if q.pc.Marking? then Yielding(q.pc.k) else Resume(q.pc.k)
  {
    SharedStep(s);
    hide Stepped, Careful, Private, Enabled;
  }

  lemma {:induction false} ServingSwitches(s: State, pid: nat, w: Target)
    requires Inv(s) && Enabled(s, Step) && Careful(s, Step) && Serving(s, s.current, pid, w)
    requires s.table[s.current].pc.Marking? || s.table[s.current].pc.Picked?
    ensures Serving(Apply(s, Step), s.current, pid, w)
  {
    Mine(s);
    hide Inv, Shape, History, WakeupPending, Reaping, Careful, Stepped, Apply, IsChild;
    YieldPoint(s);
  }

  lemma {:induction false} ServingPlain(s: State, pid: nat, w: Target)
    requires Enabled(s, Step) && Serving(s, s.current, pid, w) && Plain(s.table[s.current].pc)
    ensures Serving(Apply(s, Step), s.current, pid, w)
  {
    PlainSteps(s);
    assert Apply(s, Step) == Stepped(s);
    hide Stepped, Apply, Enabled;
  }

  lemma {:induction false} ServingScan(s: State, pid: nat, w: Target)
    requires Inv(s) && Enabled(s, Step) && Serving(s, s.current, pid, w)
    requires s.table[s.current].pc.WaitScan? || s.table[s.current].pc.WaitBlock?
    ensures Serving(Apply(s, Step), s.current, pid, w)
  {
    hide Inv, Apply, Enabled;
    if s.table[s.current].pc.WaitScan? { ScanDecision(s, w); } else { BlockMoves(s, w); }
  }

  /** The release of the child's frames and its unlinking. */
  lemma {:induction false} ServingRelease(s: State, pid: nat, w: Target)
    requires Enabled(s, Step) && Serving(s, s.current, pid, w)
    requires s.table[s.current].pc.ReapUnlink? || s.table[s.current].pc.ReapFree?
    ensures Serving(Apply(s, Step), s.current, pid, w)
  {
    StepIs(s);
    hide Stepped, Without;
  }

  lemma {:induction false} ServingEnds(s: State, pid: nat, w: Target)
    requires Inv(s) && Enabled(s, Step) && Careful(s, Step) && Serving(s, s.current, pid, w)
    requires s.table[s.current].pc.NoneSti? || s.table[s.current].pc.ReapClear?
    ensures s.current in Apply(s, Step).table && Apply(s, Step).table[s.current].pc.User?
    ensures Returned(s, Apply(s, Step), pid, w)
  {
    hide Inv, Resting, Shape, Careful, Stepped;
    Ours(s);
    Records(s, Step);
    StepIs(s);
    if s.table[s.current].pc.ReapClear? {
      ReapedChild(s, s.table[s.current].pc.c);
      PidFacts(s, s.table[s.current].pc.c);
    }
  }

  /** The step with which a wait comes back to its caller. */
  ghost predicate Comes(s: State, e: Event, s': State, pid: nat, w: Target) {
    && e == Step && s.current in s.table && s.current in s'.table && s.table[s.current].pid == pid
    && s'.table[s.current].pc.User? && Returned(s, s', pid, w)
  }

  /** One event of a wait: it goes on, or it comes back. */
  lemma {:induction false} ServingStep(s: State, e: Event, p: nat, pid: nat, w: Target)
    requires Inv(s) && Enabled(s, e) && Careful(s, e) && Serving(s, p, pid, w)
    ensures Serving(Apply(s, e), p, pid, w) || (p == s.current && Comes(s, e, Apply(s, e), pid, w))
  {
    if p != s.current || !(e.Step? || e.Spot? || e.Choose?) {
      hide Inv, Careful, Apply, Serving;
      ServingElsewhere(s, e, p, pid, w);
    } else if !e.Step? {
      hide Inv, Careful, Apply, Serving;
      ServingLooks(s, e, pid, w);
    } else {
      var pc := s.table[p].pc;
      hide Inv, Careful, Apply, Returned;
      if pc.Marking? || pc.Picked? { ServingSwitches(s, pid, w); }
      else if pc.WaitScan? || pc.WaitBlock? { ServingScan(s, pid, w); }
      else if pc.ReapUnlink? || pc.ReapFree? { ServingRelease(s, pid, w); }
      else if pc.NoneSti? || pc.ReapClear? { ServingEnds(s, pid, w); }
      else { ServingPlain(s, pid, w); }
    }
  }

  ghost predicate CameBack(run: seq<State>, events: seq<Event>, k: nat, p: nat, pid: nat, w: Target) {
    k + 1 < |run| && k < |events| && run[k].current == p && Comes(run[k], events[k], run[k + 1], pid, w)
  }

  /** Some event from i on, before state j, ends the wait. */
  ghost predicate CameBackWithin(run: seq<State>, events: seq<Event>, i: nat, j: nat, p: nat, pid: nat, w: Target) {
    exists k :: i < k < j && CameBack(run, events, k, p, pid, w)
  }

  lemma WaitBegins(s: State, w: Target)
    requires Enabled(s, Wait(w))
    ensures s.current in s.table && Serving(Apply(s, Wait(w)), s.current, s.table[s.current].pid, w)
  {
  }

  lemma {:induction false} WaitGoesOn(run: seq<State>, events: seq<Event>, i: nat, j: nat, p: nat, pid: nat, w: Target)
    requires CarefulTo(run, events, j) && i < j && events[i] == Wait(w)
    requires p == run[i].current && p in run[i].table && run[i].table[p].pid == pid
    ensures Serving(run[j], p, pid, w) || CameBackWithin(run, events, i, j, p, pid, w)
    decreases j
  {
    hide Inv, Apply, Enabled, Init, Careful, Serving, Comes;
    if j == i + 1 {
      WaitBegins(run[i], w);
    } else {
      WaitGoesOn(run, events, i, j - 1, p, pid, w);
      Reachable(run, events, j - 1);
      assert run[j] == Apply(run[j - 1], events[j - 1]);
      if Serving(run[j - 1], p, pid, w) {
        ServingStep(run[j - 1], events[j - 1], p, pid, w);
        if !Serving(run[j], p, pid, w) { assert CameBack(run, events, j - 1, p, pid, w); }
      } else {
        var k :| i < k < j - 1 && CameBack(run, events, k, p, pid, w);
        assert CameBack(run, events, k, p, pid, w);
      }
    }
  }

  /** A wait returns nothing but the truth: whenever its caller is back in user code, the wait came back in
      between, with -1 to a caller that had no child at all, or with the awaited child's exit code. */
  lemma {:induction false} WaitReturns(run: seq<State>, events: seq<Event>, i: nat, j: nat, w: Target)
    requires CarefulTo(run, events, j) && i < j && events[i] == Wait(w)
    requires run[i].current in run[j].table && run[j].table[run[i].current].pc.User?
    ensures run[i].current in run[i].table
    ensures CameBackWithin(run, events, i, j, run[i].current, run[i].table[run[i].current].pid, w)
  {
    hide Inv, Apply, Init, Careful, CameBackWithin;
    assert Enabled(run[i], events[i]);
    WaitGoesOn(run, events, i, j, run[i].current, run[i].table[run[i].current].pid, w);
  }

  // ---------- Nobody is mislaid ----------

  ghost predicate InTable(s: State, q: nat) {
    exists p :: p in s.table && s.table[p].pid == q
  }

  ghost predicate WasReaped(s: State, q: nat) {
    exists j :: 0 <= j < |s.reaps| && s.reaps[j].child == q
  }

  lemma {:induction false} KnownStep(s: State, e: Event, q: nat)
    requires Inv(s) && Enabled(s, e) && Careful(s, e) && (InTable(s, q) || WasReaped(s, q))
    ensures InTable(Apply(s, e), q) || WasReaped(Apply(s, e), q)
  {
    Records(s, e);
    var s' := Apply(s, e);
    hide Inv, Apply, Careful;
    if WasReaped(s, q) {
      var j :| 0 <= j < |s.reaps| && s.reaps[j].child == q;
      assert s'.reaps[j] == s.reaps[j];
    } else {
      var p :| p in s.table && s.table[p].pid == q;
      if Clears(s, e, p) {
        assert s'.reaps[|s.reaps|].child == q;
      } else {
        if p == s.current { SelfStays(s, e); } else { OtherStays(s, e, p); }
        assert s'.table[p].pid == q;
      }
    }
  }

  lemma {:induction false} NewcomerKnown(s: State, e: Event)
    requires Enabled(s, e) && Careful(s, e) && e.Step? && s.table[s.current].pc.ForkFill?
    ensures InTable(Apply(s, e), s.nextPid)
  {
    SharedStep(s);
    hide Stepped, Careful;
    var slot := s.table[s.current].pc.slot;
    assert Apply(s, e).table[slot].pid == s.nextPid;
  }

  lemma {:induction false} AllKnown(run: seq<State>, events: seq<Event>, i: nat, q: nat)
    requires CarefulTo(run, events, i) && q < run[i].nextPid
    ensures InTable(run[i], q) || WasReaped(run[i], q)
  {
    if i == 0 {
      assert run[0].table[0].pid == 0;
    } else {
      hide Inv, Apply, Init, Careful, InTable, WasReaped, Enabled;
      var s, e := run[i - 1], events[i - 1];
      Reachable(run, events, i - 1);
      assert run[i] == Apply(s, e);
      Records(s, e);
      if q < s.nextPid {
        AllKnown(run, events, i - 1, q);
        KnownStep(s, e, q);
      } else {
        NewcomerKnown(s, e);
      }
    }
  }

  lemma NotBoth(s: State, q: nat)
    requires History(s)
    ensures !(InTable(s, q) && WasReaped(s, q))
  {
  }

  /** Conservation of processes: every pid ever given out is either in the table or was reaped by a finished
      wait, and never both. */
  lemma {:induction false} NobodyMislaid(run: seq<State>, events: seq<Event>, i: nat, q: nat)
    requires CarefulTo(run, events, i) && q < run[i].nextPid
    ensures InTable(run[i], q) <==> !WasReaped(run[i], q)
  {
    hide Shape, PcOk, WakeupPending, History, InTable, WasReaped;
    Reachable(run, events, i);
    AllKnown(run, events, i, q);
    NotBoth(run[i], q);
  }

  // ---------- Where the records come from ----------

  /** A process about to clear its child's slot has released the child's frames, and so has everyone who did. */
  ghost predicate FramesFreed(s: State) {
    && (forall j | 0 <= j < |s.reaps| :: s.reaps[j].child in s.released)
    && (forall r | r in s.table && s.table[r].pc.ReapClear? :: s.table[r].pc.c in s.table && s.table[s.table[r].pc.c].pid in s.released)
  }

  /** Where the running process may find itself: about to clear a slot only after releasing the frames, about
      to return -1 only after the scan. */
  lemma {:induction false} StepArrives(s: State)
    requires Enabled(s, Step) && Careful(s, Step) && s.current in Stepped(s).table
    requires s.table[s.current].pc.Picked? ==> s.table[s.current].pc.n != s.current
    ensures var pc, pc' := s.table[s.current].pc, Stepped(s).table[s.current].pc;
            (pc'.ReapClear? ==> pc.ReapFree? && pc'.c == pc.c) && (pc'.NoneSti? ==> pc.WaitScan?)
  {
    var pc := s.table[s.current].pc;
    if Private(pc) {
      PrivateStep(s);
      hide Stepped;
    } else if pc.Marking? || pc.Picked? {
      YieldPoint(s);
    } else {
      SharedStep(s);
      StepIs(s);
      hide Stepped, Careful, Private, Without, Enabled;
    }
  }

  lemma {:induction false} Arrives(s: State, e: Event)
    requires Inv(s) && Enabled(s, e) && Careful(s, e) && s.current in Apply(s, e).table
    ensures var pc, pc' := s.table[s.current].pc, Apply(s, e).table[s.current].pc;
            if e.Step? then (pc'.ReapClear? ==> pc.ReapFree? && pc'.c == pc.c) && (pc'.NoneSti? ==> pc.WaitScan?)
            else (pc'.ReapClear? ==> pc' == pc) && !pc'.NoneSti?
  {
    Mine(s);
    if e.Step? {
      hide Inv, Shape, History, WakeupPending, Careful, Stepped;
      StepArrives(s);
    } else if Masked(s.table[s.current].pc) {
      OnlyStep(s, e);
      assert false;
    } else {
      SelfStays(s, e);
      hide Inv, Shape, History, WakeupPending, PcOk, Falls, WalkOk, TickOk, Ticked;
    }
  }

  lemma {:induction false} FreedStep(s: State, e: Event)
    requires Inv(s) && Enabled(s, e) && Careful(s, e) && FramesFreed(s)
    ensures FramesFreed(Apply(s, e))
  {
    var s' := Apply(s, e);
    hide Inv, Apply, Careful;
    Records(s, e);
    forall r | r in s'.table && s'.table[r].pc.ReapClear?
      ensures s'.table[r].pc.c in s'.table && s'.table[s'.table[r].pc.c].pid in s'.released
    {
      FreedOne(s, e, r);
    }
  }

  /** A slot is only ever filled by a fork, with a process that has done nothing yet. */
  lemma {:induction false} StepNewcomer(s: State, q: nat)
    requires Enabled(s, Step) && Careful(s, Step) && q in Stepped(s).table && (q !in s.table || Clears(s, Step, q))
    ensures Stepped(s).table[q].pc.User?
  {
    hide Stepped, Careful, Without;
    var pc := s.table[s.current].pc;
    if Private(pc) {
      PrivateStep(s);
    } else {
      SharedStep(s);
      StepIs(s);
      hide Private, Enabled;
    }
  }

  lemma TickNewcomer(s: State, t: Tick, q: nat)
    requires Enabled(s, Timer(t)) && Careful(s, Timer(t)) && q in Ticked(s, t).table
    ensures q in s.table
  {
    hide Falls;
  }

  lemma {:induction false} Newcomer(s: State, e: Event, q: nat)
    requires Enabled(s, e) && Careful(s, e) && q in Apply(s, e).table && (q !in s.table || Clears(s, e, q))
    ensures Apply(s, e).table[q].pc.User?
  {
    hide Falls, WalkOk, Ticked, Stepped, TickOk;
    match e {
      case Timer(t) => TickNewcomer(s, t, q);
      case Step => StepNewcomer(s, q);
      case _ =>
    }
  }

  /** The child p is reaping is left alone by any event but p's own. */
  lemma {:induction false} ReapedStays(s: State, e: Event, p: nat)
    requires Inv(s) && Enabled(s, e) && Careful(s, e) && p in s.table && Reaping(s.table[p].pc)
    requires p != s.current || !Clears(s, e, s.table[p].pc.c)
    ensures Stays(s, Apply(s, e), s.table[p].pc.c)
  {
    Mine(s);
    var c := s.table[p].pc.c;
    assert PcOk(s, p);
    hide Apply, Careful, Resting, History, WakeupPending;
    if Clears(s, e, c) { ReapedChild(s, c); UniquePid(s, p, s.current); }
    OtherStays(s, e, c);
  }

  lemma {:induction false} FreedOne(s: State, e: Event, r: nat)
    requires Inv(s) && Enabled(s, e) && Careful(s, e) && FramesFreed(s)
    requires r in Apply(s, e).table && Apply(s, e).table[r].pc.ReapClear?
    ensures var s' := Apply(s, e); var c := s'.table[r].pc.c; c in s'.table && s'.table[c].pid in s'.released
  {
    var s' := Apply(s, e);
    hide Inv, Apply, Careful;
    Records(s, e);
    if r !in s.table || Clears(s, e, r) {
      Newcomer(s, e, r);
      assert false;
    } else if r == s.current {
      Arrives(s, e);
      ReapedStays(s, e, r);
    } else {
      OtherStays(s, e, r);
      ReapedStays(s, e, r);
    }
  }

  lemma NothingFreedYet(s: State)
    requires Init(s)
    ensures FramesFreed(s)
  {
  }

  lemma {:induction false} AllFreed(run: seq<State>, events: seq<Event>, i: nat)
    requires CarefulTo(run, events, i)
    ensures FramesFreed(run[i])
  {
    hide Inv, Apply, Init, Careful, FramesFreed, Enabled;
    if i == 0 {
      NothingFreedYet(run[0]);
    } else {
      AllFreed(run, events, i - 1);
      Reachable(run, events, i - 1);
      assert run[i] == Apply(run[i - 1], events[i - 1]);
      FreedStep(run[i - 1], events[i - 1]);
    }
  }

  /** Event k is the call of sys_exit with that code by pid q. */
  ghost predicate ExitedAt(run: seq<State>, events: seq<Event>, k: nat, q: nat, code: int) {
    && k < |run| && k < |events| && events[k] == Exit(code)
    && run[k].current in run[k].table && run[k].table[run[k].current].pid == q
  }

  /** Event k is the fork with which pid me made pid q. */
  ghost predicate ForkedAt(run: seq<State>, events: seq<Event>, k: nat, me: nat, q: nat) {
    && k < |run| && k < |events| && events[k] == Step && run[k].nextPid == q
    && run[k].current in run[k].table && run[k].table[run[k].current].pid == me && run[k].table[run[k].current].pc.ForkFill?
  }

  /** Event k is the -1 of sys_wait to pid me, which has no child in the table. */
  ghost predicate RefusedAt(run: seq<State>, events: seq<Event>, k: nat, me: nat) {
    && k < |run| && k < |events| && events[k] == Step
    && run[k].current in run[k].table && run[k].table[run[k].current].pid == me && run[k].table[run[k].current].pc.NoneSti?
    && forall c | c in run[k].table :: run[k].table[c].parent != me
  }

  lemma {:induction false} ExitKnown(run: seq<State>, events: seq<Event>, i: nat, q: nat)
    requires CarefulTo(run, events, i) && q in run[i].exits
    ensures exists k: nat :: k < i && ExitedAt(run, events, k, q, run[i].exits[q])
  {
    if i > 0 {
      var s, e := run[i - 1], events[i - 1];
      assert Enabled(s, e) && Careful(s, e) && run[i] == Apply(s, e);
      Records(s, e);
      hide Apply, Init, Careful;
      if q in s.exits && run[i].exits[q] == s.exits[q] {
        ExitKnown(run, events, i - 1, q);
      } else {
        assert ExitedAt(run, events, i - 1, q, run[i].exits[q]);
      }
    }
  }

  lemma {:induction false} ForkKnown(run: seq<State>, events: seq<Event>, i: nat, q: nat)
    requires CarefulTo(run, events, i) && q in run[i].parents && q != 0
    ensures exists k: nat :: k < i && ForkedAt(run, events, k, run[i].parents[q], q)
  {
    if i > 0 {
      var s, e := run[i - 1], events[i - 1];
      assert Enabled(s, e) && Careful(s, e) && run[i] == Apply(s, e);
      Records(s, e);
      hide Apply, Init, Careful;
      if q in s.parents && run[i].parents[q] == s.parents[q] {
        ForkKnown(run, events, i - 1, q);
      } else {
        assert ForkedAt(run, events, i - 1, run[i].parents[q], q);
      }
    }
  }

  /** Every finished wait, traced back: its child was made by a fork of the waiter, exited with that very code,
      and had its frames released; nobody is waited for twice. */
  lemma {:induction false} ReapTraced(run: seq<State>, events: seq<Event>, i: nat, j: nat)
    requires CarefulTo(run, events, i) && j < |run[i].reaps|
    ensures var r := run[i].reaps[j];
            && (exists k: nat :: k < i && ExitedAt(run, events, k, r.child, r.code))
            && (r.child != 0 ==> exists k: nat :: k < i && ForkedAt(run, events, k, r.parent, r.child))
            && r.child in run[i].released
            && forall l | 0 <= l < |run[i].reaps| && l != j :: run[i].reaps[l].child != r.child
  {
    ReapedOnce(run, events, i);
    AllFreed(run, events, i);
    hide CarefulTo;
    var r := run[i].reaps[j];
    ExitKnown(run, events, i, r.child);
    if r.child != 0 { ForkKnown(run, events, i, r.child); }
  }

  /** A process about to return -1 has no child. */
  ghost predicate Childless(s: State) {
    s.current in s.table && s.table[s.current].pc.NoneSti? ==>
      forall c | c in s.table :: s.table[c].parent != s.table[s.current].pid
  }

  lemma {:induction false} NoneOfOthers(s: State, e: Event)
    requires Inv(s) && Enabled(s, e) && Careful(s, e) && Inv(Apply(s, e)) && Apply(s, e).current != s.current
    ensures var s' := Apply(s, e); s'.current in s'.table && !s'.table[s'.current].pc.NoneSti?
  {
    var s' := Apply(s, e);
    Mine(s');
    hide Apply, Careful, Shape, History, WakeupPending;
    if s'.current !in s.table || Clears(s, e, s'.current) {
      Newcomer(s, e, s'.current);
    } else {
      OtherStays(s, e, s'.current);
      assert PcOk(s, s'.current);
    }
  }

  lemma {:induction false} ChildlessStep(s: State, e: Event)
    requires Inv(s) && Enabled(s, e) && Careful(s, e) && Inv(Apply(s, e))
    ensures Childless(Apply(s, e))
  {
    var s' := Apply(s, e);
    if s'.current != s.current {
      hide Inv, Apply, Careful;
      NoneOfOthers(s, e);
    } else {
      SelfStays(s, e);
      Arrives(s, e);
      hide Inv, Apply, Careful;
      if s'.table[s.current].pc.NoneSti? { ScanDecision(s, s.table[s.current].pc.w); }
    }
  }

  /** Every -1 of sys_wait was given to a caller that had no child in the table. */
  lemma {:induction false} RefusedChildless(run: seq<State>, events: seq<Event>, i: nat, x: nat)
    requires CarefulTo(run, events, i) && x < |run[i].refusals|
    ensures exists k: nat :: k < i && |run[k].refusals| == x && RefusedAt(run, events, k, run[i].refusals[x])
  {
    if i > 0 {
      var s, e := run[i - 1], events[i - 1];
      assert Enabled(s, e) && Careful(s, e) && run[i] == Apply(s, e);
      Records(s, e);
      hide Inv, Apply, Careful, Init;
      if x < |s.refusals| {
        RefusedChildless(run, events, i - 1, x);
      } else {
        AtNone(run, events, i - 1);
        assert RefusedAt(run, events, i - 1, run[i].refusals[x]);
      }
    }
  }

  lemma {:induction false} AtNone(run: seq<State>, events: seq<Event>, i: nat)
    requires CarefulTo(run, events, i)
    ensures Childless(run[i])
  {
    if i > 0 {
      Reachable(run, events, i - 1);
      Reachable(run, events, i);
      hide Inv, Apply, Init, Careful, Childless, Enabled;
      assert run[i] == Apply(run[i - 1], events[i - 1]);
      ChildlessStep(run[i - 1], events[i - 1]);
    }
  }

  // ---------- Asleep and blocked ----------

  /** The events that make a sleeping or blocked process p ready or run it: the timer finds it due, its child's
      exit wakes it, or a yield that had noticed or picked it earlier writes to it late. */
  predicate Stirs(s: State, e: Event, p: nat) {
    && s.current in s.table && p in s.table
    && var q := s.table[s.current];
       || (e.Timer? && p in e.t.woken && s.table[p].state.Sleeping?)
       || (e.Step? && q.pc.ExitWake? && q.parent == s.table[p].pid && s.table[p].state.Blocked?)
       || (e.Step? && q.pc.Marking? && q.pc.q == p)
       || (e.Step? && q.pc.Picked? && q.pc.n == p)
  }

  predicate AtRest(s: State, p: nat) {
    p in s.table && (s.table[p].state.Sleeping? || s.table[p].state.Blocked?)
  }

  /** The running process sleeps, or is blocked, only on its way out. */
  predicate Awake(s: State) {
    && s.current in s.table
    && var q := s.table[s.current];
       && (q.state.Sleeping? ==> InYield(q.pc))
       && (q.state.Blocked? ==> InYield(q.pc) || q.pc.WaitSti?)
  }

  lemma {:induction false} AwakeStep(s: State)
    requires Enabled(s, Step) && Careful(s, Step) && Awake(s) && PcOk(s, s.current)
    ensures Awake(Stepped(s))
  {
    var pc := s.table[s.current].pc;
    hide IsChild, FirstDead, HasChild, Without;
    if Plain(pc) {
      PlainSteps(s);
      hide Stepped, Careful, Enabled;
    } else if Private(pc) {
      hide Careful;
    } else {
      SharedStep(s);
      StepIs(s);
      hide Stepped, Enabled, Careful, Private;
    }
  }

  /** The walk of a yield only notes whom to switch to. */
  lemma ChooseMoves(s: State, next: Option<nat>)
    requires Inv(s) && Enabled(s, Choose(next)) && Careful(s, Choose(next))
    ensures next.Some? && next.value in s.table
    ensures Apply(s, Choose(next)) == Goto(s, Picked(next.value, s.table[next.value].pid, s.table[s.current].pc.k))
  {
    hide Inv, Resting, Shape, PcOk, Careful, Falls, WalkOk, Walked;
    Ours(s);
    LooksAway(s);
    ChooseStep(s, next);
  }

  lemma {:induction false} AwakeStays(s: State, e: Event)
    requires Inv(s) && Enabled(s, e) && Careful(s, e) && Awake(s)
    ensures Awake(Apply(s, e))
  {
    hide Inv, Resting, Shape, PcOk, Falls, TickOk, Ticked, Stepped;
    Ours(s);
    if e.Choose? { ChooseMoves(s, e.next); }
    hide WalkOk, Walked;
    match e {
      case Timer(t) => AwakeTick(s, t);
      case Step => AwakeStep(s);
      case _ =>
    }
  }

  lemma {:induction false} AwakeTick(s: State, t: Tick)
    requires Inv(s) && Enabled(s, Timer(t)) && Careful(s, Timer(t))
    ensures Awake(Ticked(s, t))
  {
    NobodyElseRuns(s);
    Mine(s);
    TickMoves(s, t);
    hide Resting, Shape, History, WakeupPending, PcOk, Falls, WalkOk, TickOk, Ticked, Careful;
    TickOne(s, t, s.current);
  }

  lemma {:induction false} RestTick(s: State, t: Tick, p: nat)
    requires Enabled(s, Timer(t)) && Careful(s, Timer(t)) && AtRest(s, p) && !Stirs(s, Timer(t), p)
    ensures p in Ticked(s, t).table && Ticked(s, t).table[p].state == s.table[p].state
  {
    hide Falls;
  }

  lemma {:induction false} RestStep(s: State, p: nat)
    requires Enabled(s, Step) && Careful(s, Step) && AtRest(s, p) && Awake(s) && !Stirs(s, Step, p)
    requires Clears(s, Step, p) ==> s.table[p].state.Dead?
    ensures p in Stepped(s).table && Stepped(s).table[p].state == s.table[p].state
  {
    var pc := s.table[s.current].pc;
    hide FirstDead, HasChild, Without;
    if Private(pc) {
      PrivateStep(s);
      if p == s.current { PlainSteps(s); }
      hide Stepped, Careful, Enabled;
    } else {
      SharedStep(s);
      StepIs(s);
      hide Stepped, Enabled, Careful, Private;
    }
  }

  lemma {:induction false} RestStays(s: State, e: Event, p: nat)
    requires Inv(s) && Enabled(s, e) && Careful(s, e) && AtRest(s, p) && Awake(s) && !Stirs(s, e, p)
    ensures p in Apply(s, e).table && Apply(s, e).table[p].state == s.table[p].state
  {
    if Clears(s, e, p) { ReapedChild(s, p); }
    hide Inv, Falls, WalkOk, TickOk, Ticked, Stepped, Careful;
    match e {
      case Timer(t) => RestTick(s, t, p);
      case Step => RestStep(s, p);
      case _ =>
    }
  }

  lemma FirstAwake(s: State)
    requires Init(s)
    ensures Awake(s)
  {
  }

  lemma {:induction false} AlwaysAwake(run: seq<State>, events: seq<Event>, i: nat)
    requires CarefulTo(run, events, i)
    ensures Awake(run[i])
  {
    hide Inv, Apply, Init, Careful, Awake, Enabled;
    if i == 0 {
      FirstAwake(run[0]);
    } else {
      AlwaysAwake(run, events, i - 1);
      Reachable(run, events, i - 1);
      assert run[i] == Apply(run[i - 1], events[i - 1]);
      AwakeStays(run[i - 1], events[i - 1]);
    }
  }

  ghost predicate StirredWithin(run: seq<State>, events: seq<Event>, i: nat, j: nat, p: nat) {
    exists k :: i <= k < j && k < |run| && k < |events| && Stirs(run[k], events[k], p)
  }

  /** A process that sleeps or is blocked stays so, in its slot, until something stirs it. */
  lemma {:induction false} RestsUntilStirred(run: seq<State>, events: seq<Event>, i: nat, j: nat, p: nat)
    requires CarefulTo(run, events, j) && i <= j && AtRest(run[i], p)
    ensures (p in run[j].table && run[j].table[p].state == run[i].table[p].state) || StirredWithin(run, events, i, j, p)
    decreases j
  {
    hide Inv, Apply, Init, Careful, Enabled, Stirs;
    if i < j {
      RestsUntilStirred(run, events, i, j - 1, p);
      var s, e := run[j - 1], events[j - 1];
      if StirredWithin(run, events, i, j - 1, p) {
        var k :| i <= k < j - 1 && k < |run| && k < |events| && Stirs(run[k], events[k], p);
        assert StirredWithin(run, events, i, j, p);
      } else if !Stirs(s, e, p) {
        Reachable(run, events, j - 1);
        AlwaysAwake(run, events, j - 1);
        assert run[j] == Apply(s, e);
        RestStays(s, e, p);
      }
    }
  }

  lemma SleepFalls(s: State)
    requires Enabled(s, Sleep)
    ensures AtRest(Apply(s, Sleep), s.current) && Apply(s, Sleep).table[s.current].state.Sleeping?
  {
  }

  /** A process that goes to sleep is not ready, and does not run, before something has woken it. */
  lemma {:induction false} SleepLasts(run: seq<State>, events: seq<Event>, i: nat, j: nat)
    requires CarefulTo(run, events, j) && i < j && events[i] == Sleep
    ensures var p := run[i].current;
            (p in run[j].table && run[j].table[p].state.Sleeping?) || StirredWithin(run, events, i + 1, j, p)
  {
    hide Inv, Apply, Init, Careful, StirredWithin, Enabled;
    SleepFalls(run[i]);
    RestsUntilStirred(run, events, i + 1, j, run[i].current);
  }

  // ---------- Yield, fork and unlinking ----------

  /** ring' is ring without c. */
  ghost predicate CutOut(ring: seq<nat>, ring': seq<nat>, c: nat) {
    if c in ring then exists k :: 0 <= k < |ring| && ring[k] == c && ring' == ring[..k] + ring[k + 1..] else ring' == ring
  }

  lemma {:induction false} WithoutFirst(a: seq<nat>, c: nat, b: seq<nat>)
    requires c !in a
    ensures Without(a + [c] + b, c) == a + b
  {
    var ring := a + [c] + b;
    if a == [] {
      assert ring[1..] == b;
    } else {
      assert ring[1..] == a[1..] + [c] + b;
      WithoutFirst(a[1..], c, b);
      assert [a[0]] + (a[1..] + b) == a + b;
    }
  }

  lemma {:induction false} WithoutNone(ring: seq<nat>, c: nat)
    requires c !in ring
    ensures Without(ring, c) == ring
  {
    if ring != [] {
      WithoutNone(ring[1..], c);
      assert [ring[0]] + ring[1..] == ring;
    }
  }

  lemma WithoutCuts(ring: seq<nat>, c: nat)
    ensures CutOut(ring, Without(ring, c), c)
  {
    hide Without;
    if c in ring {
      var k := IndexOf(ring, c);
      hide IndexOf;
      assert ring == ring[..k] + [c] + ring[k + 1..];
      WithoutFirst(ring[..k], c, ring[k + 1..]);
    } else {
      WithoutNone(ring, c);
    }
  }

  /** The first place of c. */
  function IndexOf(ring: seq<nat>, c: nat): (k: nat)
    requires c in ring
    ensures k < |ring| && ring[k] == c && c !in ring[..k]
  {
    if ring[0] == c then 0 else 1 + IndexOf(ring[1..], c)
  }

  /** Entry q of the table was put into the given state and nothing was done to the states of the others. */
  predicate OnlyState(table: map<nat, Pcb>, table': map<nat, Pcb>, q: nat, state: PState) {
    && q in table && table'.Keys == table.Keys && table'[q].state == state
    && forall p | p in table && p != q :: table'[p].state == table[p].state
  }

  /** What the careful steps that touch another process do: the late wake-up makes the sleeper ready; the
      switch of a yield runs the process it had picked and makes the leaving one ready if it was running; the
      fork fills the slot with a ready child of the caller and later puts it at the end of the queue; and the
      reaper takes its child out of the queue. */
  ghost predicate Writes(s: State, s': State)
    requires s.current in s.table
  {
    var me := s.table[s.current];
    match me.pc
    case Marking(q, _, _) => s'.ring == s.ring && s'.current == s.current && OnlyState(s.table, s'.table, q, Ready)
    case Picked(n, _, _) =>
      && s'.ring == s.ring && s'.current == n && s'.switching
      && var left := if me.state.Running? then Ready else me.state;
         OnlyState(s.table[s.current := me.(state := left)], s'.table, n, Running)
    case ForkFill(slot) =>
      && slot !in s.table && s'.ring == s.ring && s'.table.Keys == s.table.Keys + {slot}
      && s'.table[slot] == Pcb(s.nextPid, me.pid, Ready, me.exitCode, User)
    case ForkAdd(slot) => s'.ring == s.ring + [slot]
    case ReapUnlink(c, _) => CutOut(s.ring, s'.ring, c)
    case _ => true
  }

  lemma {:induction false} YieldWrites(s: State)
    requires s.current in s.table && Enabled(s, Step) && Careful(s, Step) && PcOk(s, s.current)
    requires s.table[s.current].pc.Marking? || s.table[s.current].pc.Picked?
    ensures Writes(s, Stepped(s))
  {
    hide Stepped;
    SharedStep(s);
    hide Careful, IsChild, Enabled;
  }

  lemma {:induction false} ForkWrites(s: State)
    requires s.current in s.table && Enabled(s, Step) && Careful(s, Step)
    requires s.table[s.current].pc.ForkFill? || s.table[s.current].pc.ForkAdd?
    ensures Writes(s, Stepped(s))
  {
    hide Stepped;
    SharedStep(s);
    hide Careful, Enabled;
  }

  lemma {:induction false} UnlinkWrites(s: State)
    requires s.current in s.table && Enabled(s, Step) && s.table[s.current].pc.ReapUnlink?
    ensures Writes(s, Stepped(s))
  {
    hide Stepped, CutOut, Without;
    StepIs(s);
    WithoutCuts(s.ring, s.table[s.current].pc.c);
    hide Enabled;
  }

  /** In every run each such step does exactly that. */
  lemma {:induction false} SharedWrites(run: seq<State>, events: seq<Event>, i: nat)
    requires CarefulTo(run, events, i + 1) && events[i] == Step
    ensures run[i].current in run[i].table && Writes(run[i], run[i + 1])
  {
    var s := run[i];
    assert Enabled(s, events[i]) && Careful(s, events[i]) && run[i + 1] == Stepped(s);
    Reachable(run, events, i);
    hide Inv, CarefulTo, Careful, Stepped, CutOut, OnlyState, PcOk;
    Ours(s);
    var pc := s.table[s.current].pc;
    if pc.Marking? || pc.Picked? { YieldWrites(s); }
    else if pc.ForkFill? || pc.ForkAdd? { ForkWrites(s); }
    else if pc.ReapUnlink? { UnlinkWrites(s); }
  }
}
