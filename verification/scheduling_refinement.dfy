/** The concrete tick (scheduler_tick over the ring) against the step machine: from the timer it is a tick
    the machine allows, and in an undisturbed yield it is the machine's walk, switch and context switch. */
module SchedulingRefinement {
  import opened Wrappers
  import opened Lifecycle
  import opened RoundRobin

  /** The machine's queue, current process and states are those of the ring, which is a closed cycle. */
  ghost predicate Represents(s: State, r: Queue) {
    && WellFormed(r) && |r.q| == |s.ring| && Distinct(s.ring) && s.ring[r.cur] == s.current
    && !s.switching && (forall p | p in s.table :: !s.table[p].pc.AddLink?)
    && forall i | 0 <= i < |s.ring| ::
         s.ring[i] in s.table && s.table[s.ring[i]].state == r.q[i].state && s.table[s.ring[i]].pid == r.q[i].pid
  }

  /** The machine's description of what the concrete tick did. */
  ghost function TickOf(s: State, r: Queue, now: int): Lifecycle.Tick
    requires Represents(s, r)
  {
    var r', c := AfterTick(r, now), Charged(r, now);
    Lifecycle.Tick(set i | 0 <= i < |s.ring| && now >= r.q[i].wakeAt :: s.ring[i],
                   !MayContinue(c.q[r.cur]), if r'.cur == r.cur then None else Some(s.ring[r'.cur]))
  }

  lemma {:induction false} WokenState(s: State, r: Queue, now: int, i: nat)
    requires Represents(s, r) && i < |s.ring|
    ensures Wake(s.table, TickOf(s, r, now).woken)[s.ring[i]].state == WakeAll(r.q, now)[i].state
    ensures Wake(s.table, TickOf(s, r, now).woken)[s.ring[i]].pid == r.q[i].pid == WakeAll(r.q, now)[i].pid
  {
    var woken := TickOf(s, r, now).woken;
    if s.ring[i] in woken {
      var j :| 0 <= j < |s.ring| && now >= r.q[j].wakeAt && s.ring[j] == s.ring[i];
      assert i == j;
    }
  }

  lemma {:induction false} TickAllowed(s: State, r: Queue, now: int)
    requires Represents(s, r)
    ensures TickOk(s, TickOf(s, r, now))
  {
    var t, r', c := TickOf(s, r, now), AfterTick(r, now), Charged(r, now);
    forall i: nat | i < |s.ring|
      ensures Wake(s.table, t.woken)[s.ring[i]].state == c.q[i].state && Wake(s.table, t.woken)[s.ring[i]].pid == c.q[i].pid
    {
      WokenState(s, r, now, i);
    }
    if r'.cur == r.cur && !MayContinue(c.q[r.cur]) {
      forall n | n in s.ring && n != s.current ensures !Wake(s.table, t.woken)[n].state.Ready? {
        var i: nat :| i < |s.ring| && s.ring[i] == n;
        assert At(r.cur, Distance(r, i), |r.q|) == i;
      }
    }
  }

  lemma NoFall(s: State, table: map<nat, Pcb>)
    requires forall p | p in s.table :: !s.table[p].pc.AddLink?
    ensures !Falls(s, table)
  {
    hide ReadyAhead;
  }

  /** What the machine's tick does to the process at ring index i. */
  lemma {:induction false} TickedEntry(s: State, r: Queue, now: int, i: nat)
    requires Represents(s, r) && TickOk(s, TickOf(s, r, now)) && i < |s.ring|
    ensures var s', r' := Ticked(s, TickOf(s, r, now)), AfterTick(r, now);
            s.ring[i] in s'.table && s'.table[s.ring[i]].state == r'.q[i].state && s'.table[s.ring[i]].pid == r'.q[i].pid
  {
    hide Falls, TickOk;
    NoFall(s, Wake(s.table, TickOf(s, r, now).woken));
    var r' := AfterTick(r, now);
    WokenState(s, r, now, i);
    assert s.ring[i] == s.current <==> i == r.cur;
    assert s.ring[i] == s.ring[r'.cur] <==> i == r'.cur;
  }

  lemma {:induction false} TickedRest(s: State, r: Queue, now: int)
    requires Represents(s, r) && TickOk(s, TickOf(s, r, now))
    ensures var s', r' := Ticked(s, TickOf(s, r, now)), AfterTick(r, now);
            && WellFormed(r') && |r'.q| == |s.ring| && s'.ring == s.ring && s.ring[r'.cur] == s'.current
            && !s'.switching && forall p | p in s'.table :: !s'.table[p].pc.AddLink?
  {
    hide Falls, TickOk;
    NoFall(s, Wake(s.table, TickOf(s, r, now).woken));
  }

  /** After the timer's tick the machine and the ring still agree. */
  lemma {:induction false} TickRefines(s: State, r: Queue, now: int)
    requires Represents(s, r)
    ensures TickOk(s, TickOf(s, r, now)) && Represents(Ticked(s, TickOf(s, r, now)), AfterTick(r, now))
  {
    TickAllowed(s, r, now);
    TickedRest(s, r, now);
    hide Ticked, AfterTick, TickOk, TickOf;
    var s', r' := Ticked(s, TickOf(s, r, now)), AfterTick(r, now);
    forall i: nat | i < |s.ring|
      ensures s.ring[i] in s'.table && s'.table[s.ring[i]].state == r'.q[i].state && s'.table[s.ring[i]].pid == r'.q[i].pid
    {
      TickedEntry(s, r, now, i);
    }
  }

  /** The ring with the current slice given up. */
  function GivenUp(r: Queue): Queue
    requires WellFormed(r)
  {
    Queue(r.q[r.cur := r.q[r.cur].(ticks := 0)], r.cur)
  }

  /** A yield that nothing disturbs, with no sleeper left to wake: its walk ends where the ring's does, and
      after its switch the machine and the ring still agree. */
  lemma {:induction false} YieldRefines(s: State, r: Queue, now: int)
    requires Represents(s, r) && !s.wild && s.table[s.current].pc.Yielding? && WakeAll(r.q, now) == r.q
    requires AfterTick(GivenUp(r), now).cur != r.cur
    ensures var r', k := AfterTick(GivenUp(r), now), s.table[s.current].pc.k;
            var next := s.ring[r'.cur];
            && Enabled(s, Choose(Some(next))) && Careful(s, Choose(Some(next)))
            && Represents(Committed(Walked(s, Some(next), k), next, s.table[next].pid, k).(switching := false), r')
  {
    hide Falls;
    NoFall(s, s.table);
    var g := GivenUp(r);
    var r', k := AfterTick(g, now), s.table[s.current].pc.k;
    assert WakeAll(g.q, now) == g.q;
    var next := s.ring[r'.cur];
    assert next == s.current <==> r'.cur == r.cur;
    var s' := Committed(Walked(s, Some(next), k), next, s.table[next].pid, k).(switching := false);
    forall i: nat | i < |s.ring|
      ensures s.ring[i] in s'.table && s'.table[s.ring[i]].state == r'.q[i].state && s'.table[s.ring[i]].pid == r'.q[i].pid
    {
      assert s.ring[i] == s.current <==> i == r.cur;
      assert s.ring[i] == next <==> i == r'.cur;
    }
  }
}
