/** The circular run queue (kernel/processes/scheduler.c) as the kernel keeps it: process control
    blocks linked by their next fields. */
module Scheduler {
  import opened Lifecycle
  import opened RoundRobin

  class Pcb {
    const pid: nat
    var state: PState
    var next: Pcb?
    const slice: int
    var ticks: int
    var wakeAt: int

    constructor (pid: nat, slice: int)
      ensures this.pid == pid && state == Ready && next == null && this.slice == slice && ticks == slice
    {
      this.pid, this.slice := pid, slice;
      state, next, ticks, wakeAt := Ready, null, slice, 0;
    }

    function Snapshot(): Snap
      reads this
    {
      Snap(pid, state, slice, ticks, wakeAt)
    }
  }

  /** A list without repetition whose members all occur in another is no longer than it. */
  lemma {:induction false} Pigeonhole<T>(xs: seq<T>, ys: seq<T>)
    requires Distinct(xs) && forall x | x in xs :: x in ys
    ensures |xs| <= |ys|
  {
    if xs != [] {
      assert xs[0] in xs && xs == [xs[0]] + xs[1..];
      var i :| 0 <= i < |ys| && ys[i] == xs[0];
      var zs := ys[..i] + ys[i + 1..];
      forall x | x in xs[1..] ensures x in zs {
        assert x in xs;
        var j :| 0 <= j < |ys| && ys[j] == x;
        if j < i { assert zs[j] == x; } else { assert zs[j - 1] == x; }
      }
      Pigeonhole(xs[1..], zs);
    }
  }

  lemma {:induction false} Cut<T>(xs: seq<T>, k: nat)
    requires Distinct(xs) && k < |xs|
    ensures var ys := xs[..k] + xs[k + 1..];
            && Distinct(ys) && xs[k] !in ys
            && (forall x :: x in ys ==> x in xs)
            && (forall x :: x in xs && x != xs[k] ==> x in ys)
  {
    var ys := xs[..k] + xs[k + 1..];
    assert xs == xs[..k] + [xs[k]] + xs[k + 1..];
    forall i | 0 <= i < |ys| ensures ys[i] == xs[if i < k then i else i + 1] && ys[i] != xs[k] { }
  }

  class RunQueue {
    var head: Pcb?
    var tail: Pcb?
    var current: Pcb?
    var table: seq<Pcb?>        // process_table
    ghost var procs: set<Pcb>   // its occupied slots
    ghost var ring: seq<Pcb>

    /** One simple cycle through the queued processes, all of them in the table. */
    ghost predicate Structure()
      reads this`head, this`tail, this`table, this`procs, this`ring, ring`next
    {
      && |table| == MAX_PROCESSES
      && (forall i | 0 <= i < |table| && table[i] != null :: table[i] in procs)
      && (forall p | p in procs :: p in table)
      && (forall p | p in ring :: p in procs)
      && Distinct(ring)
      && (if ring == [] then head == null && tail == null else head == ring[0] && tail == ring[|ring| - 1])
      && (forall i: nat | i < |ring| :: Linked(i))
    }

    /** Each queued process points at the next one, the last at the first. */
    ghost predicate Linked(i: nat)
      requires i < |ring|
      reads this`ring, ring`next
    {
      ring[i].next == ring[At(i, 1, |ring|)]
    }

    ghost predicate Valid()
      reads this, procs, ring
    {
      && Structure()
      && (current != null ==> current in ring)
      && (forall p | p in procs && p != current :: !p.state.Running?)
    }

    /** The queue in ring order, seen from the current process. */
    ghost function Snaps(): seq<Snap>
      reads this, ring
    {
      seq(|ring|, i requires 0 <= i < |ring| reads this, ring => ring[i].Snapshot())
    }

    constructor ()
      ensures Valid() && ring == [] && current == null && procs == {}
    {
      head, tail, current := null, null, null;
      table := seq(MAX_PROCESSES, _ => null);
      procs, ring := {}, [];
    }

    /** scheduler_add: the process becomes ready and goes to the end of the queue. */
    method Add(p: Pcb)
      requires Valid() && p in procs && p !in ring
      modifies this, procs
      ensures Valid() && procs == old(procs) && table == old(table) && current == old(current)
      ensures ring == old(ring) + [p] && p.state == Ready
      ensures forall q | q in procs && q != p :: q.Snapshot() == old(q.Snapshot())
    {
      p.state := Ready;
      p.next := null;
      if head == null {
        head, tail := p, p;
        p.next := p;
      } else {
        tail.next := p;
        p.next := head;
        tail := p;
      }
      ring := ring + [p];
      forall i: nat | i < |ring| ensures Linked(i) {
        if i + 2 < |ring| {
          assert old(Linked(i));
          assert ring[i] != old(ring)[|old(ring)| - 1];
        }
      }
    }

    /** The splice of scheduler_remove, for the process at ring index k of several. */
    method Splice(ghost k: nat, node: Pcb, prev: Pcb)
      requires Valid() && k < |ring| && |ring| > 1 && node == ring[k] && prev == ring[At(k, |ring| - 1, |ring|)]
      requires node != current
      modifies this`head, this`tail, this`ring, prev`next
      ensures Valid() && ring == old(ring)[..k] + old(ring)[k + 1..]
    {
      assert Linked(k);
      prev.next := node.next;
      if head == node { head := node.next; }
      if tail == node { tail := prev; }
      ring := ring[..k] + ring[k + 1..];
      Cut(old(ring), k);
      forall j: nat | j < |ring| ensures Linked(j) {
        var i := if j < k then j else j + 1;
        assert ring[j] == old(ring)[i];
        assert old(Linked(i));
        assert ring[j] == prev <==> i == At(k, |old(ring)| - 1, |old(ring)|);
      }
    }

    /** scheduler_remove: the walk that finds the process and its predecessor, and the splice. A process
        that is not queued is left alone. */
    method Remove(p: Pcb)
      requires Valid() && p != current
      modifies this`head, this`tail, this`ring, ring
      ensures Valid()
      ensures p !in old(ring) ==> ring == old(ring)
      ensures p in old(ring) ==>
                exists k :: 0 <= k < |old(ring)| && old(ring)[k] == p && ring == old(ring)[..k] + old(ring)[k + 1..]
      ensures forall q | q in procs :: q.Snapshot() == old(q.Snapshot())
    {
      if head == null { return; }
      if head == p && head == tail {
        assert ring == [p];
        head, tail := null, null;
        ring := [];
        assert old(ring)[..0] + old(ring)[1..] == [];
        return;
      }
      Pigeonhole(ring, table);
      var prev, node := tail, head;
      ghost var g: nat := 0;
      var i := 0;
      while i < MAX_PROCESSES
        invariant 0 <= i <= MAX_PROCESSES && Valid() && head != null && ring == old(ring) && (head == p ==> head != tail)
        invariant g < |ring| && node == ring[g] && prev == ring[At(g, |ring| - 1, |ring|)]
        invariant i < |ring| ==> g == i
        invariant forall j | 0 <= j < i && j < |ring| :: ring[j] != p
        invariant forall q | q in procs :: q.Snapshot() == old(q.Snapshot())
      {
        if node == p {
          Splice(g, node, prev);
          return;
        }
        assert Linked(g);
        prev := node;
        node := node.next;
        g := At(g, 1, |ring|);
        i := i + 1;
      }
    }

    /** scheduler_wake_sleepers: over the whole table, queued or not. */
    method WakeSleepers(now: int)
      requires Valid()
      modifies procs`state
      ensures Valid()
      ensures forall p | p in procs :: p.Snapshot() == WakeIfDue(old(p.Snapshot()), now)
      ensures forall p | p in procs ::
                p.state == if old(p.state).Sleeping? && now >= p.wakeAt then Ready else old(p.state)
    {
      var i := 0;
      while i < MAX_PROCESSES
        invariant 0 <= i <= MAX_PROCESSES
        invariant forall p | p in procs ::
                    p.Snapshot() == old(p.Snapshot()) || p.Snapshot() == WakeIfDue(old(p.Snapshot()), now)
        invariant forall j | 0 <= j < i && table[j] != null ::
                    table[j].Snapshot() == WakeIfDue(old(table[j].Snapshot()), now)
      {
        var p := table[i];
        if p != null && p.state == Sleeping && now >= p.wakeAt {
          p.state := Ready;
        }
        i := i + 1;
      }
    }

    /** The walk of scheduler_tick from the process at ring index c. */
    method FindNext(ghost c: nat) returns (next: Pcb, ghost d: nat)
      requires Valid() && current != null && c < |ring| && ring[c] == current
      ensures 1 <= d <= |ring| && d == Pick(Snaps(), c, 1) && next == ring[At(c, d, |ring|)]
      ensures next == ring[At(c, Pick(Snaps(), c, 1), |ring|)]
    {
      Pigeonhole(ring, table);
      assert Linked(c);
      ghost var q := Snaps();
      next := current.next;
      d := 1;
      var checked := 0;
      while checked < MAX_PROCESSES
        invariant 0 <= checked <= MAX_PROCESSES && 1 <= d <= |ring| && d == checked + 1
        invariant next == ring[At(c, d, |ring|)]
        invariant Pick(q, c, 1) == Pick(q, c, d)
      {
        ghost var k := At(c, d, |ring|);
        assert k == c <==> d == |ring|;
        assert q[k].state == next.state;
        assert next == current <==> k == c;
        if next.state == Ready || (next.state == Running && next != current) { break; }
        if next == current { break; }
        assert Linked(k);
        next := next.next;
        d := d + 1;
        checked := checked + 1;
      }
    }

    lemma Queued()
      requires Structure()
      ensures Distinct(ring) && (forall p | p in ring :: p in procs) && (ring == [] <==> head == null)
    {
    }

    /** The queue differs from q at the ring indices c and k only. */
    lemma TwoChanged(q: seq<Snap>, c: nat, k: nat)
      requires |q| == |ring| && c < |ring| && k < |ring|
      requires forall i | 0 <= i < |ring| && i != c && i != k :: ring[i].Snapshot() == q[i]
      ensures Snaps() == q[c := ring[c].Snapshot()][k := ring[k].Snapshot()]
    {
    }

    /** Hands the processor from the process at index c to the one at index k. */
    method SwitchTo(ghost c: nat, ghost k: nat, next: Pcb)
      requires Valid() && current != null && c < |ring| && ring[c] == current
      requires k < |ring| && ring[k] == next && next != current
      modifies this`current, ring`state, ring`ticks
      ensures Valid() && current == next
      ensures var q := old(Snaps());
              var out := if q[c].state.Running? then q[c].(state := Ready) else q[c];
              Snaps() == q[c := out][k := q[k].(state := Running, ticks := q[k].slice)]
    {
      hide Structure;
      Queued();
      ghost var q := Snaps();
      var was := current;
      next.ticks := next.slice;
      was.state := if was.state == Running then Ready else was.state;
      next.state := Running;
      current := next;
      TwoChanged(q, c, k);
    }

    /** The second half of scheduler_tick: the switch, or a new slice. */
    method Reschedule(ghost c: nat)
      requires Valid() && current != null && c < |ring| && ring[c] == current
      modifies this`current, ring`state, ring`ticks
      ensures Valid()
      ensures Snaps() == Rescheduled(Queue(old(Snaps()), c)).q
      ensures current == ring[Rescheduled(Queue(old(Snaps()), c)).cur]
    {
      hide Structure;
      Queued();
      ghost var q := Snaps();
      var was := current;
      var next, d := FindNext(c);
      ghost var k := At(c, d, |ring|);
      assert Snaps()[k].state == next.state && (k == c <==> d == |ring|);
      assert next == was <==> k == c;
      if (next.state != Ready && next.state != Running) || next == was {
        was.ticks := was.slice;
        TwoChanged(q, c, c);
      } else {
        SwitchTo(c, k, next);
      }
    }

    /** scheduler_tick. With a current process, the queue moves as AfterTick says, wherever in the ring
        the current process stands. */
    method TickNow(now: int)
      requires Valid()
      modifies this`current, procs`state, procs`ticks
      ensures Valid() && (old(current) == null ==> current == null)
      ensures forall c: nat | old(current) != null && c < |ring| && ring[c] == old(current) ::
                var s' := AfterTick(Queue(old(Snaps()), c), now);
                Snaps() == s'.q && current == ring[s'.cur]
      ensures forall p | p in procs && (p !in ring || old(current) == null) ::
                p.Snapshot() == WakeIfDue(old(p.Snapshot()), now)
    {
      hide Rescheduled, Structure, WakeIfDue;
      WakeSleepers(now);
      Queued();
      if current == null || head == null { return; }
      ghost var c: nat :| c < |ring| && ring[c] == current;
      assert Snaps() == WakeAll(old(Snaps()), now);
      ghost var q := Snaps();
      current.ticks := current.ticks - 1;
      TwoChanged(q, c, c);
      assert Snaps() == Charged(Queue(old(Snaps()), c), now).q;
      assert forall i: nat | i < |ring| && ring[i] == current :: i == c;
      if current.ticks > 0 && current.pid != 0 && current.state == Running { return; }
      Reschedule(c);
    }

    /** scheduler_yield: the current slice is given up, then a tick. */
    method YieldNow(now: int)
      requires Valid()
      modifies this`current, procs`state, procs`ticks
      ensures Valid() && (old(current) == null ==> current == null)
      ensures forall c: nat | old(current) != null && c < |ring| && ring[c] == old(current) ::
                var q := old(Snaps());
                var s' := AfterTick(Queue(q[c := q[c].(ticks := 0)], c), now);
                Snaps() == s'.q && current == ring[s'.cur]
    {
      if current == null { return; }
      hide Structure, AfterTick;
      Queued();
      ghost var c: nat :| c < |ring| && ring[c] == current;
      ghost var q := Snaps();
      current.ticks := 0;
      TwoChanged(q, c, c);
      ghost var q', cur := Snaps(), current;
      assert q' == q[c := q[c].(ticks := 0)];
      assert forall i: nat | i < |ring| && ring[i] == cur :: i == c;
      TickNow(now);
      assert Snaps() == AfterTick(Queue(q', c), now).q && current == ring[AfterTick(Queue(q', c), now).cur];
    }

    /** process_block, process_exit and the state change of sys_sleep: a process stops running. */
    method Stop(p: Pcb, state: PState, wakeAt: int)
      requires Valid() && p in procs && (state.Blocked? || state.Dead? || state.Sleeping?)
      modifies p`state, p`wakeAt
      ensures Valid()
      ensures p.state == state && p.wakeAt == (if state.Sleeping? then wakeAt else old(p.wakeAt))
    {
      hide Structure;
      p.state := state;
      if state.Sleeping? { p.wakeAt := wakeAt; }
    }

    /** process_wake: only a blocked process becomes ready. */
    method WakeUp(p: Pcb)
      requires Valid() && p in procs
      modifies p`state
      ensures Valid() && p.state == (if old(p.state).Blocked? then Ready else old(p.state))
    {
      hide Structure;
      if p.state == Blocked { p.state := Ready; }
    }

    /** The new process takes a free slot of the table. */
    method Enter(p: Pcb, slot: nat)
      requires Valid() && p !in procs && slot < MAX_PROCESSES && table[slot] == null && !p.state.Running?
      modifies this`table, this`procs
      ensures Valid() && procs == old(procs) + {p} && table == old(table)[slot := p] && p !in ring
    {
      table := table[slot := p];
      procs := procs + {p};
      forall q | q in procs ensures q in table {
        if q == p { assert table[slot] == p; } else {
          var i :| 0 <= i < |old(table)| && old(table)[i] == q;
          assert table[i] == q;
        }
      }
    }

    /** The reaped process, already off the queue, leaves its slot. */
    method Leave(p: Pcb, slot: nat)
      requires Valid() && p in procs && p !in ring && slot < MAX_PROCESSES && table[slot] == p
      requires forall i | 0 <= i < |table| && table[i] == p :: i == slot
      modifies this`table, this`procs
      ensures Valid() && procs == old(procs) - {p} && table == old(table)[slot := null]
    {
      table := table[slot := null];
      procs := procs - {p};
      forall q | q in procs ensures q in table {
        var i :| 0 <= i < |old(table)| && old(table)[i] == q;
        assert table[i] == q;
      }
    }
  }
}
