/** scheduler_tick's decision (kernel/processes/scheduler.c) as a function of the run queue in ring
    order, and how long a ready process can be kept waiting. */
module RoundRobin {
  import opened Lifecycle

  /** The scheduling fields of a queued process. */
  datatype Snap = Snap(pid: nat, state: PState, slice: int, ticks: int, wakeAt: int)

  /** The queue in ring order, and the index of current_process. */
  datatype Queue = Queue(q: seq<Snap>, cur: nat)

  predicate WellFormed(s: Queue) {
    s.cur < |s.q|
  }

  /** The ring index d steps after c. */
  function At(c: nat, d: nat, n: nat): (i: nat)
    requires c < n && d <= n
    ensures i < n
  {
    if c + d < n then c + d else c + d - n
  }

  /** scheduler_wake_sleepers on one process. */
  function WakeIfDue(p: Snap, now: int): Snap {
    if p.state.Sleeping? && now >= p.wakeAt then p.(state := Ready) else p
  }

  function WakeAll(q: seq<Snap>, now: int): (r: seq<Snap>)
    ensures |r| == |q| && forall i | 0 <= i < |q| :: r[i] == WakeIfDue(q[i], now)
  {
    seq(|q|, i requires 0 <= i < |q| => WakeIfDue(q[i], now))
  }

  /** The first ring distance from d on at which a ready process stands; n, back at the current
      process, if there is none. */
  function Pick(q: seq<Snap>, cur: nat, d: nat): (r: nat)
    requires cur < |q| && 1 <= d <= |q|
    ensures d <= r <= |q|
    ensures r < |q| ==> q[At(cur, r, |q|)].state.Ready?
    ensures forall j: nat | d <= j < r :: !q[At(cur, j, |q|)].state.Ready?
    decreases |q| - d
  {
    if d == |q| || q[At(cur, d, |q|)].state.Ready? then d else Pick(q, cur, d + 1)
  }

  predicate MayContinue(p: Snap) {
    p.ticks > 0 && p.pid != 0 && p.state.Running?
  }

  /** The outgoing process gives way to the first ready one after it, or gets a new slice if there is
      none. */
  function Rescheduled(s: Queue): Queue
    requires WellFormed(s)
  {
    var q, cur, n := s.q, s.cur, |s.q|;
    var d := Pick(q, cur, 1);
    if d == n then Queue(q[cur := q[cur].(ticks := q[cur].slice)], cur)
    else
      var next := At(cur, d, n);
      var out := if q[cur].state.Running? then q[cur].(state := Ready) else q[cur];
      Queue(q[cur := out][next := q[next].(state := Running, ticks := q[next].slice)], next)
  }

  /** The queue after the sleepers woke and the current process used up a tick. */
  function Charged(s: Queue, now: int): (r: Queue)
    requires WellFormed(s)
    ensures WellFormed(r)
  {
    var woken := WakeAll(s.q, now);
    Queue(woken[s.cur := woken[s.cur].(ticks := woken[s.cur].ticks - 1)], s.cur)
  }

  function AfterTick(s: Queue, now: int): Queue
    requires WellFormed(s)
  {
    var r := Charged(s, now);
    if MayContinue(r.q[r.cur]) then r else Rescheduled(r)
  }

  /** Steps along the ring from the current process to process k. */
  function Distance(s: Queue, k: nat): (d: nat)
    requires WellFormed(s) && k < |s.q|
    ensures d < |s.q| && (d == 0 <==> k == s.cur)
    ensures At(s.cur, d, |s.q|) == k
  {
    if s.cur <= k then k - s.cur else k + |s.q| - s.cur
  }

  // ---------- What a tick does ----------

  /** Ready, or about to be woken by this tick. */
  predicate Runnable(p: Snap, now: int) {
    p.state.Ready? || (p.state.Sleeping? && now >= p.wakeAt)
  }

  /** Whoever neither leaves nor takes the processor is at most woken. */
  lemma {:induction false} TickOthers(s: Queue, now: int, i: nat)
    requires WellFormed(s) && i < |s.q| && i != s.cur && i != AfterTick(s, now).cur
    ensures |AfterTick(s, now).q| == |s.q|
    ensures AfterTick(s, now).q[i] == if Runnable(s.q[i], now) then s.q[i].(state := Ready) else s.q[i]
  {
  }

  /** A running process other than the idle one, with time left, keeps the processor and loses one tick. */
  lemma TickContinues(s: Queue, now: int)
    requires WellFormed(s)
    ensures var s', p := AfterTick(s, now), s.q[s.cur];
            p.ticks > 1 && p.pid != 0 && p.state.Running? ==>
              s'.cur == s.cur && |s'.q| == |s.q| && s'.q[s.cur] == p.(ticks := p.ticks - 1)
  {
  }

  /** Otherwise the processor goes to the nearest runnable process along the ring, with a full slice; if there
      is no other, the current one starts a new slice. */
  lemma {:induction false} TickSwitches(s: Queue, now: int)
    requires WellFormed(s) && var p := s.q[s.cur]; !(p.ticks > 1 && p.pid != 0 && p.state.Running?)
    ensures var s', p := AfterTick(s, now), s.q[s.cur];
            var rests := if Runnable(p, now) then p.(state := Ready) else p;
            && WellFormed(s') && |s'.q| == |s.q|
            && (s'.cur == s.cur <==> forall i | 0 <= i < |s.q| && i != s.cur :: !Runnable(s.q[i], now))
            && (s'.cur == s.cur ==> s'.q[s.cur] == rests.(ticks := p.slice))
            && (s'.cur != s.cur ==>
                  && Runnable(s.q[s'.cur], now)
                  && s'.q[s'.cur] == s.q[s'.cur].(state := Running, ticks := s.q[s'.cur].slice)
                  && s'.q[s.cur] == (if p.state.Running? then p.(state := Ready) else rests).(ticks := p.ticks - 1)
                  && forall i: nat | i < |s.q| && 0 < Distance(s, i) < Distance(s, s'.cur) :: !Runnable(s.q[i], now))
  {
    var c := Charged(s, now);
    var d := Pick(c.q, s.cur, 1);
    assert forall i | 0 <= i < |s.q| && i != s.cur :: c.q[i].state.Ready? <==> Runnable(s.q[i], now);
    hide Pick;
    if d == |s.q| {
      forall i: nat | i < |s.q| && i != s.cur ensures !Runnable(s.q[i], now) {
        assert At(s.cur, Distance(s, i), |s.q|) == i;
      }
    } else {
      assert AfterTick(s, now).cur == At(s.cur, d, |s.q|);
      forall i: nat | i < |s.q| && 0 < Distance(s, i) < d ensures !Runnable(s.q[i], now) {
        assert At(s.cur, Distance(s, i), |s.q|) == i;
      }
    }
  }

  /** Ticks between which the current process neither stops nor touches its own time. */
  ghost predicate Uninterrupted(run: seq<Queue>) {
    forall i: nat | i + 1 < |run| :: Undisturbed(run[i], run[i + 1])
  }

  ghost predicate Undisturbed(s: Queue, s': Queue) {
    && WellFormed(s)
    && exists mid: Queue, now: int ::
         WellFormed(mid) && mid.cur == s.cur && |mid.q| == |s.q| && mid.q[s.cur] == s.q[s.cur] && s' == AfterTick(mid, now)
  }

  /** A slice lasts: a running process with t ticks left is still the current one after any j < t ticks, one
      less each time, whatever the others do. */
  lemma {:induction false} SliceLasts(run: seq<Queue>, j: nat)
    requires Uninterrupted(run) && j < |run| && WellFormed(run[0])
    requires run[0].q[run[0].cur].state.Running? && run[0].q[run[0].cur].pid != 0 && j < run[0].q[run[0].cur].ticks
    ensures var p := run[0].q[run[0].cur];
            run[j].cur == run[0].cur && |run[j].q| == |run[0].q| && run[j].q[run[0].cur] == p.(ticks := p.ticks - j)
  {
    if j > 0 {
      SliceLasts(run, j - 1);
      hide AfterTick;
      var s := run[j - 1];
      assert Undisturbed(run[j - 1], run[j - 1 + 1]);
      var mid: Queue, now: int :|
        WellFormed(mid) && mid.cur == s.cur && |mid.q| == |s.q| && mid.q[s.cur] == s.q[s.cur] && run[j] == AfterTick(mid, now);
      TickContinues(mid, now);
    }
  }

  // ---------- Bounded waiting ----------

  /** The time slices of the processes at ring distances a..b-1. */
  function Slices(s: Queue, a: nat, b: nat): int
    requires WellFormed(s) && b <= |s.q|
    decreases b - a
  {
    if a >= b then 0 else s.q[At(s.cur, a, |s.q|)].slice + Slices(s, a + 1, b)
  }

  /** Ticks until process k must be running: what is left of the current slice, and the slices in
      between. */
  function Bound(s: Queue, k: nat): int
    requires WellFormed(s) && k < |s.q|
  {
    (if s.q[s.cur].ticks > 1 then s.q[s.cur].ticks else 1) + Slices(s, 1, Distance(s, k))
  }

  /** Between ticks anything may happen to the others; the ring and its slices stay, k stays ready, and
      the current process gains no time. */
  ghost predicate Meanwhile(s: Queue, s': Queue, k: nat)
    requires WellFormed(s) && k < |s.q|
  {
    && s'.cur == s.cur && |s'.q| == |s.q|
    && (forall i | 0 <= i < |s.q| :: s'.q[i].slice == s.q[i].slice)
    && s'.q[s.cur].ticks <= s.q[s.cur].ticks
    && s'.q[k].state.Ready?
  }

  ghost predicate PositiveSlices(s: Queue) {
    forall i | 0 <= i < |s.q| :: s.q[i].slice >= 1
  }

  lemma {:induction false} SlicesSame(s: Queue, s': Queue, a: nat, b: nat, shift: nat)
    requires WellFormed(s) && WellFormed(s') && |s.q| == |s'.q| && b + shift <= |s.q|
    requires forall i | 0 <= i < |s.q| :: s'.q[i].slice == s.q[i].slice
    requires s'.cur == At(s.cur, shift, |s.q|)
    ensures Slices(s', a, b) == Slices(s, a + shift, b + shift)
    decreases b - a
  {
    if a < b {
      SlicesSame(s, s', a + 1, b, shift);
      assert At(s'.cur, a, |s.q|) == At(s.cur, a + shift, |s.q|);
    }
  }

  lemma {:induction false} SlicesSplit(s: Queue, a: nat, b: nat)
    requires WellFormed(s) && PositiveSlices(s) && 1 <= a <= b <= |s.q|
    ensures Slices(s, a, b) <= Slices(s, 1, b)
    decreases a
  {
    if a > 1 {
      SlicesSplit(s, a - 1, b);
      assert Slices(s, a - 1, b) == s.q[At(s.cur, a - 1, |s.q|)].slice + Slices(s, a, b);
    }
  }

  lemma {:induction false} TickShape(s: Queue, now: int)
    requires WellFormed(s)
    ensures var s' := AfterTick(s, now);
            && WellFormed(s') && |s'.q| == |s.q|
            && (forall i | 0 <= i < |s.q| :: s'.q[i].slice == s.q[i].slice && s'.q[i].pid == s.q[i].pid)
            && (forall i | 0 <= i < |s.q| && i != s'.cur && s.q[i].state.Ready? :: s'.q[i].state.Ready?)
  {
  }

  /** A tick picks the first ready process after the current one, so it never passes over k: it comes
      at least one tick closer, and every switch comes closer along the ring. */
  lemma {:induction false} TickProgress(s: Queue, now: int, k: nat)
    requires WellFormed(s) && k < |s.q| && k != s.cur && s.q[k].state.Ready? && PositiveSlices(s)
    ensures var s' := AfterTick(s, now);
            && WellFormed(s') && |s'.q| == |s.q|
            && (s'.cur == k ||
                (s'.q[k].state.Ready? && PositiveSlices(s') && Bound(s', k) + 1 <= Bound(s, k) &&
                 Distance(s', k) <= Distance(s, k) && (s'.cur != s.cur ==> Distance(s', k) < Distance(s, k))))
  {
    TickShape(s, now);
    var s', q := AfterTick(s, now), Charged(s, now).q;
    if MayContinue(q[s.cur]) {
      SlicesSame(s, s', 1, Distance(s, k), 0);
    } else {
      var e, d := Pick(q, s.cur, 1), Distance(s, k);
      assert q[At(s.cur, d, |s.q|)].state.Ready?;
      assert e <= d && s'.cur == At(s.cur, e, |s.q|);
      assert s'.q[s'.cur].ticks == s'.q[s'.cur].slice;
      hide AfterTick, Charged, Pick, Slices;
      if s'.cur != k { SwitchedCloser(s, s', k, e); }
    }
  }

  /** Switching to a process before k with a full slice: the bound shrinks by at least a tick. */
  lemma {:induction false} SwitchedCloser(s: Queue, s': Queue, k: nat, e: nat)
    requires WellFormed(s) && WellFormed(s') && |s.q| == |s'.q| && k < |s.q| && PositiveSlices(s)
    requires forall i | 0 <= i < |s.q| :: s'.q[i].slice == s.q[i].slice
    requires 1 <= e <= Distance(s, k) && s'.cur == At(s.cur, e, |s.q|) && s'.cur != k
    requires s'.q[s'.cur].ticks == s'.q[s'.cur].slice
    ensures Bound(s', k) + 1 <= Bound(s, k) && Distance(s', k) == Distance(s, k) - e
  {
    var d := Distance(s, k);
    Closer(s, s', k, e);
    SlicesSame(s, s', 0, d - e, e);
    assert Slices(s', 0, d - e) == s'.q[s'.cur].slice + Slices(s', 1, d - e);
    SlicesSplit(s, e, d);
  }

  lemma Closer(s: Queue, s': Queue, k: nat, e: nat)
    requires WellFormed(s) && WellFormed(s') && |s.q| == |s'.q| && k < |s.q|
    requires 1 <= e <= Distance(s, k) && s'.cur == At(s.cur, e, |s.q|)
    ensures Distance(s', k) == Distance(s, k) - e
  {
  }

  /** One round: anything allowed between ticks, then a tick. */
  ghost predicate Round(s: Queue, s': Queue, k: nat)
    requires WellFormed(s) && k < |s.q|
  {
    exists mid: Queue, now: int :: Meanwhile(s, mid, k) && WellFormed(mid) && s' == AfterTick(mid, now)
  }

  /** Rounds in which k, ready at the start, has not run yet. */
  ghost predicate StillWaiting(run: seq<Queue>, k: nat) {
    && run != [] && WellFormed(run[0]) && k < |run[0].q| && PositiveSlices(run[0])
    && (forall i | 0 <= i < |run| :: WellFormed(run[i]) && |run[i].q| == |run[0].q| && run[i].cur != k)
    && forall i | 0 <= i < |run| - 1 :: Round(run[i], run[i + 1], k)
  }

  function Switches(run: seq<Queue>): nat {
    if |run| < 2 then 0
    else Switches(run[..|run| - 1]) + if run[|run| - 1].cur != run[|run| - 2].cur then 1 else 0
  }

  lemma {:induction false} MeanwhileBound(s: Queue, mid: Queue, k: nat)
    requires WellFormed(s) && WellFormed(mid) && k < |s.q| && Meanwhile(s, mid, k)
    ensures Bound(mid, k) <= Bound(s, k) && Distance(mid, k) == Distance(s, k)
  {
    SlicesSame(s, mid, 1, Distance(s, k), 0);
  }

  /** A process that stays ready runs after at most Bound ticks and fewer switches than its ring
      distance. */
  lemma {:induction false} BoundedWaiting(run: seq<Queue>, k: nat)
    requires StillWaiting(run, k)
    ensures var last := run[|run| - 1];
            && PositiveSlices(last) && Bound(last, k) >= 1
            && |run| - 1 + Bound(last, k) <= Bound(run[0], k)
            && Switches(run) + Distance(last, k) <= Distance(run[0], k)
    decreases |run|
  {
    if |run| == 1 {
      BoundPositive(run[0], k);
    } else {
      var front, i := run[..|run| - 1], |run| - 2;
      BoundedWaiting(front, k);
      assert Round(run[i], run[i + 1], k);
      var mid: Queue, now: int :| Meanwhile(run[i], mid, k) && WellFormed(mid) && run[i + 1] == AfterTick(mid, now);
      MeanwhileBound(run[i], mid, k);
      TickProgress(mid, now, k);
      BoundPositive(run[i + 1], k);
    }
  }

  /** The same as a promise: after Bound rounds, k has been the current process. */
  lemma {:induction false} RunsWithinBound(run: seq<Queue>, k: nat)
    requires run != [] && WellFormed(run[0]) && k < |run[0].q| && PositiveSlices(run[0])
    requires forall i | 0 <= i < |run| :: WellFormed(run[i]) && |run[i].q| == |run[0].q|
    requires forall i | 0 <= i < |run| - 1 :: Round(run[i], run[i + 1], k)
    requires Bound(run[0], k) <= |run| - 1
    ensures exists i :: 0 <= i < |run| && run[i].cur == k
  {
    if StillWaiting(run, k) { BoundedWaiting(run, k); }
  }

  lemma {:induction false} BoundPositive(s: Queue, k: nat)
    requires WellFormed(s) && k < |s.q| && PositiveSlices(s)
    ensures Bound(s, k) >= 1
  {
    SlicesNonNegative(s, 1, Distance(s, k));
  }

  lemma {:induction false} SlicesNonNegative(s: Queue, a: nat, b: nat)
    requires WellFormed(s) && PositiveSlices(s) && b <= |s.q|
    ensures Slices(s, a, b) >= 0
    decreases b - a
  {
    if a < b { SlicesNonNegative(s, a + 1, b); }
  }
}
