/**
 The round-robin scheduler of kernel/sched.c, with the thread removals of kernel/proc.c.
 Tasks are numbers, the task list a sequence of them; kernel code is not preempted, so
 every operation here is one step.
 */
module Scheduler {
  import opened Common

  datatype TaskState = Starting | Running | Suspended | Sleeping(wake: nat) | Dying

  /** `entry` is the item of `current_entry`, `task` is `current_task`. */
  datatype Sched = Sched(tasks: seq<nat>, entry: nat, task: nat, states: map<nat, TaskState>, preempt: bool)

  // ----- The task list -----

  function IndexOf(s: seq<nat>, x: nat): (i: nat)
    requires x in s
    ensures i < |s| && s[i] == x
  {
    if s[0] == x then 0 else IndexOf(s[1..], x) + 1
  }

  /** `list_remove` of the entry of `x`. */
  function Without(s: seq<nat>, x: nat): seq<nat>
    requires x in s
  {
    s[..IndexOf(s, x)] + s[IndexOf(s, x) + 1..]
  }

  function Next(n: nat, i: nat): nat {
    if i + 1 < n then i + 1 else 0
  }

  /** How many steps of `Next` lead from `i` to `k`; a whole round if they are the same. */
  function Distance(n: nat, i: int, k: int): int {
    if k > i then k - i else k - i + n
  }

  function DistanceTo(s: seq<nat>, a: nat, b: nat): (d: int)
    requires a in s && b in s
    ensures 1 <= d <= |s|
  {
    Distance(|s|, IndexOf(s, a), IndexOf(s, b))
  }

  lemma IndexUnique(s: seq<nat>, i: nat)
    requires Distinct(s) && i < |s|
    ensures IndexOf(s, s[i]) == i
  {
    OnePlace(s, IndexOf(s, s[i]), i);
  }

  /** Exactly `x` is gone. */
  lemma WithoutKeeps(s: seq<nat>, x: nat)
    requires Distinct(s) && x in s
    ensures Distinct(Without(s, x)) && x !in Without(s, x)
    ensures forall y :: y in Without(s, x) <==> y in s && y != x
  {
    var t, i := Without(s, x), IndexOf(s, x);
    DistinctDrop(s, i, t);
    forall y | y in s && y != x
      ensures y in t
    {
      var j :| 0 <= j < |s| && s[j] == y;
      assert t[if j < i then j else j - 1] == y;
    }
  }

  lemma WithoutIndex(s: seq<nat>, x: nat, y: nat)
    requires Distinct(s) && x in s && y in s && x != y
    ensures var t := Without(s, x);
            && Distinct(t) && x !in t && y in t && |t| == |s| - 1
            && IndexOf(t, y) == IndexOf(s, y) - if IndexOf(s, x) < IndexOf(s, y) then 1 else 0
  {
    var t, i, j := Without(s, x), IndexOf(s, x), IndexOf(s, y);
    var k := if i < j then j - 1 else j;
    DistinctDrop(s, i, t);
    assert t[k] == y;
    IndexUnique(t, k);
  }

  /** Removing a third task brings two tasks no further apart. */
  lemma WithoutDistance(s: seq<nat>, x: nat, a: nat, b: nat)
    requires Distinct(s) && x in s && a in s && b in s && x != a && x != b
    ensures a in Without(s, x) && b in Without(s, x) && DistanceTo(Without(s, x), a, b) <= DistanceTo(s, a, b)
  {
    WithoutIndex(s, x, a);
    WithoutIndex(s, x, b);
  }

  /** Adding one at the end puts them at most one further apart. */
  lemma PushedDistance(s: seq<nat>, x: nat, a: nat, b: nat)
    requires Distinct(s) && x !in s && a in s && b in s
    ensures Distinct(s + [x]) && DistanceTo(s + [x], a, b) <= DistanceTo(s, a, b) + 1
  {
    var t := s + [x];
    DistinctAdd(s, x);
    assert t[IndexOf(s, a)] == a && t[IndexOf(s, b)] == b;
    IndexUnique(t, IndexOf(s, a));
    IndexUnique(t, IndexOf(s, b));
  }

  // ----- pick_next_task -----

  /** What the picker does not pass over: anything but a task that sleeps past `ticks`. */
  predicate Eligible(st: TaskState, ticks: nat) {
    st.Sleeping? ==> st.wake <= ticks
  }

  ghost predicate Pickable(s: seq<nat>, states: map<nat, TaskState>, idle: nat) {
    (forall x :: x in s ==> x in states) && idle in s && !states[idle].Sleeping?
  }

  /** Task `k` is the nearest eligible one after task `i`. */
  ghost predicate Nearest(s: seq<nat>, states: map<nat, TaskState>, ticks: nat, i: nat, k: nat)
    requires forall x :: x in s ==> x in states
  {
    && i < |s| && k < |s| && Eligible(states[s[k]], ticks)
    && forall m: nat :: m < |s| && Distance(|s|, i, m) < Distance(|s|, i, k) ==> !Eligible(states[s[m]], ticks)
  }

  /** The picker's answer; it stops at idle at the latest. */
  function Pick(s: seq<nat>, states: map<nat, TaskState>, ghost idle: nat, i: nat, ticks: nat): (k: nat)
    requires Pickable(s, states, idle) && i < |s|
    ensures k < |s|
    decreases Distance(|s|, i, IndexOf(s, idle))
  {
    var j := Next(|s|, i);
    if Eligible(states[s[j]], ticks) then j else Pick(s, states, idle, j, ticks)
  }

  lemma {:induction false} PickNearest(s: seq<nat>, states: map<nat, TaskState>, idle: nat, i: nat, ticks: nat)
    requires Pickable(s, states, idle) && i < |s|
    ensures Nearest(s, states, ticks, i, Pick(s, states, idle, i, ticks))
    decreases Distance(|s|, i, IndexOf(s, idle))
  {
    var j := Next(|s|, i);
    if !Eligible(states[s[j]], ticks) {
      PickNearest(s, states, idle, j, ticks);
    }
  }

  lemma NearestUnique(s: seq<nat>, states: map<nat, TaskState>, ticks: nat, i: nat, k: nat, m: nat)
    requires forall x :: x in s ==> x in states
    requires Nearest(s, states, ticks, i, k) && Nearest(s, states, ticks, i, m)
    ensures k == m
  {
  }

  // ----- The operations on values -----

  function Woken(st: TaskState): TaskState {
    if st.Sleeping? then Running else st
  }

  /** `reschedule`: the caller is destroyed if it is dying; without preemption it just goes on. */
  function Resched(s: Sched, ghost idle: nat, ticks: nat): Sched
    requires Inv(s, idle)
  {
    if !s.preempt then s
    else
      var next := s.tasks[Pick(s.tasks, s.states, idle, IndexOf(s.tasks, s.entry), ticks)];
      var states := s.states[next := Woken(s.states[next])];
      if states[s.task].Dying? then Sched(Without(s.tasks, s.task), next, next, states - {s.task}, s.preempt)
      else Sched(s.tasks, next, next, states, s.preempt)
  }

  datatype Op =
    | Add(t: nat)                      // sched_add
    | Sleep(wake: nat)                 // the current task goes to sleep
    | Mark(t: nat, state: TaskState)   // a task is marked dying, suspended or running
    | Kill(t: nat)                     // thread_destroy of a thread that is not running
    | Preempt(on: bool)                // preempt_enable, preempt_disable
    | Yield(ticks: nat)                // reschedule

  ghost predicate Allowed(s: Sched, idle: nat, op: Op) {
    match op
    case Add(t) => t !in s.tasks
    case Sleep(wake) => s.task != idle
    case Mark(t, st) => t in s.tasks && t != idle && !st.Sleeping?
    case Kill(t) => t in s.tasks && t != s.task && t != idle
    case Preempt(on) => true
    case Yield(ticks) => true
  }

  function Step(s: Sched, ghost idle: nat, op: Op): Sched
    requires Inv(s, idle) && Allowed(s, idle, op)
  {
    match op
    case Add(t) => s.(tasks := s.tasks + [t], states := s.states[t := Starting])
    case Sleep(wake) => s.(states := s.states[s.task := Sleeping(wake)])
    case Mark(t, st) => s.(states := s.states[t := st])
    case Kill(t) => s.(tasks := Without(s.tasks, t), states := s.states - {t})
    case Preempt(on) => s.(preempt := on)
    case Yield(ticks) => Resched(s, idle, ticks)
  }

  /** The current entry is in the list with the current task as its item, each task is listed once,
      exactly the listed tasks exist, and idle is among them, neither asleep nor dying. */
  ghost predicate Inv(s: Sched, idle: nat) {
    && Distinct(s.tasks) && s.entry == s.task && s.task in s.tasks && idle in s.tasks
    && (forall x :: x in s.tasks <==> x in s.states)
    && !s.states[idle].Sleeping? && !s.states[idle].Dying?
  }

  // ----- One reschedule -----

  /** Where the picked task is, and that it is never the dying one. */
  lemma Picked(s: Sched, idle: nat, ticks: nat) returns (k: nat)
    requires Inv(s, idle) && s.preempt
    ensures Nearest(s.tasks, s.states, ticks, IndexOf(s.tasks, s.task), k) && Resched(s, idle, ticks).task == s.tasks[k]
    ensures s.states[s.task].Dying? ==> s.tasks[k] != s.task
  {
    var i, z := IndexOf(s.tasks, s.task), IndexOf(s.tasks, idle);
    k := Pick(s.tasks, s.states, idle, i, ticks);
    PickNearest(s.tasks, s.states, idle, i, ticks);
    assert Eligible(s.states[s.tasks[z]], ticks);
    IndexUnique(s.tasks, k);
  }

  lemma ReschedKeeps(s: Sched, idle: nat, ticks: nat)
    requires Inv(s, idle)
    ensures Inv(Resched(s, idle, ticks), idle)
  {
    if s.preempt {
      var k := Picked(s, idle, ticks);
      var s' := Resched(s, idle, ticks);
      if s.states[s.task].Dying? {
        assert s.states[s.tasks[k]] == s.states[s'.task];
        WithoutKeeps(s.tasks, s.task);
        assert idle != s.task;
      }
    }
  }

  /** `a` comes before `b` in the list. */
  predicate Before(s: seq<nat>, a: nat, b: nat) {
    a in s && b in s && IndexOf(s, a) < IndexOf(s, b)
  }

  /** What a reschedule leaves alone: the order of the list and, but for a sleeper that is picked and wakes, the
      state of every task; only a dying caller leaves. */
  lemma ReschedLeaves(s: Sched, idle: nat, ticks: nat, x: nat, y: nat)
    requires Inv(s, idle)
    ensures var s' := Resched(s, idle, ticks);
            && s'.preempt == s.preempt
            && (x in s'.tasks <==> x in s.tasks && !(s.preempt && x == s.task && s.states[x].Dying?))
            && (x in s'.tasks && y in s'.tasks ==> (Before(s'.tasks, x, y) <==> Before(s.tasks, x, y)))
            && (x in s'.tasks ==> x in s'.states && x in s.states)
            && (x in s'.tasks && x != s'.task ==> s'.states[x] == s.states[x])
            && (!s.preempt ==> s' == s)
            && (s.preempt && x == s'.task ==>
                  && x in s.states && x in s'.states
                  && s'.states[x] == if s.states[x].Sleeping? then Running else s.states[x])
  {
    ReschedKeeps(s, idle, ticks);
    if s.preempt {
      var k := Picked(s, idle, ticks);
      if s.states[s.task].Dying? {
        WithoutKeeps(s.tasks, s.task);
        if x in s.tasks && y in s.tasks && x != s.task && y != s.task {
          WithoutIndex(s.tasks, s.task, x);
          WithoutIndex(s.tasks, s.task, y);
          SameIndex(s.tasks, x, y);
          SameIndex(s.tasks, x, s.task);
          SameIndex(s.tasks, y, s.task);
        }
      }
    }
  }

  lemma SameIndex(s: seq<nat>, x: nat, y: nat)
    requires x in s && y in s
    ensures IndexOf(s, x) == IndexOf(s, y) ==> x == y
  {
  }

  /** With preemption on, a dying caller is gone afterwards and something else runs; nobody else is destroyed. */
  lemma DestroyedNeverResumed(s: Sched, idle: nat, ticks: nat)
    requires Inv(s, idle)
    ensures var s' := Resched(s, idle, ticks);
            && (s.states[s.task].Dying? ==> (s'.task != s.task && s.task !in s'.tasks <==> s.preempt))
            && (forall x :: x in s.tasks && !(x == s.task && s.states[x].Dying?) ==> x in s'.tasks)
  {
    ReschedKeeps(s, idle, ticks);
    if s.preempt {
      var k := Picked(s, idle, ticks);
      var s' := Resched(s, idle, ticks);
      WithoutKeeps(s.tasks, s.task);
    }
  }

  /** What runs after a reschedule is not asleep past the clock, exactly if preemption is on or the
      caller was not; with preemption on it is awake. */
  lemma NoEarlyWake(s: Sched, idle: nat, ticks: nat)
    requires Inv(s, idle)
    ensures var s' := Resched(s, idle, ticks);
            && Inv(s', idle) && s'.task in s.states
            && (Eligible(s.states[s'.task], ticks) <==> s.preempt || Eligible(s.states[s.task], ticks))
            && (s.preempt ==> !s'.states[s'.task].Sleeping?)
  {
    ReschedKeeps(s, idle, ticks);
    if s.preempt {
      var k := Picked(s, idle, ticks);
    }
  }

  // ----- Every run -----

  lemma StepKeeps(s: Sched, idle: nat, op: Op)
    requires Inv(s, idle) && Allowed(s, idle, op)
    ensures Inv(Step(s, idle, op), idle)
  {
    match op
    case Yield(ticks) => ReschedKeeps(s, idle, ticks);
    case Kill(t) =>
      var s' := Step(s, idle, op);
      WithoutKeeps(s.tasks, t);
      assert s.task in s'.tasks;
    case Add(t) => DistinctAdd(s.tasks, t);
    case _ =>
  }

  ghost predicate AllAllowed(s: Sched, idle: nat, ops: seq<Op>)
    requires Inv(s, idle)
    decreases |ops|
  {
    ops == [] ||
    (&& Allowed(s, idle, ops[0])
     && (StepKeeps(s, idle, ops[0]); AllAllowed(Step(s, idle, ops[0]), idle, ops[1..])))
  }

  ghost function Run(s: Sched, idle: nat, ops: seq<Op>): (r: Sched)
    requires Inv(s, idle) && AllAllowed(s, idle, ops)
    ensures Inv(r, idle)
    decreases |ops|
  {
    if ops == [] then s else (StepKeeps(s, idle, ops[0]); Run(Step(s, idle, ops[0]), idle, ops[1..]))
  }

  // ----- No sleeper runs before its time -----

  /** The step is a reschedule, and preemption is on. */
  predicate Switches(s: Sched, op: Op) {
    op.Yield? && s.preempt
  }

  /** Nobody marks, kills or puts to sleep task `t` along the run, and reschedules come before tick `w`. */
  ghost predicate LeftAsleep(s: Sched, idle: nat, ops: seq<Op>, t: nat, w: nat)
    requires Inv(s, idle) && AllAllowed(s, idle, ops)
    decreases |ops|
  {
    ops == [] ||
    (&& !(ops[0].Mark? && ops[0].t == t) && !(ops[0].Kill? && ops[0].t == t) && !(ops[0].Sleep? && s.task == t)
     && (ops[0].Yield? ==> ops[0].ticks < w)
     && (StepKeeps(s, idle, ops[0]); LeftAsleep(Step(s, idle, ops[0]), idle, ops[1..], t, w)))
  }

  /** No reschedule of the run that finds preemption on makes `t` the current task. */
  ghost predicate NeverResumed(s: Sched, idle: nat, ops: seq<Op>, t: nat)
    requires Inv(s, idle) && AllAllowed(s, idle, ops)
    decreases |ops|
  {
    ops == [] ||
    (StepKeeps(s, idle, ops[0]);
     var s' := Step(s, idle, ops[0]);
     (Switches(s, ops[0]) ==> s'.task != t) && NeverResumed(s', idle, ops[1..], t))
  }

  /** A task asleep until `w` stays so, and is not resumed, over every run that leaves it asleep. */
  lemma {:induction false} SleepsOn(s: Sched, idle: nat, ops: seq<Op>, t: nat, w: nat)
    requires Inv(s, idle) && AllAllowed(s, idle, ops) && LeftAsleep(s, idle, ops, t, w)
    requires t in s.tasks && s.states[t] == Sleeping(w)
    ensures NeverResumed(s, idle, ops, t)
    ensures var r := Run(s, idle, ops); t in r.tasks && t in r.states && r.states[t] == Sleeping(w)
    decreases |ops|
  {
    if ops != [] {
      StepKeeps(s, idle, ops[0]);
      StaysAsleep(s, idle, ops[0], t, w);
      SleepsOn(Step(s, idle, ops[0]), idle, ops[1..], t, w);
    }
  }

  lemma StaysAsleep(s: Sched, idle: nat, op: Op, t: nat, w: nat)
    requires Inv(s, idle) && Allowed(s, idle, op) && t in s.tasks && s.states[t] == Sleeping(w)
    requires !(op.Mark? && op.t == t) && !(op.Kill? && op.t == t) && !(op.Sleep? && s.task == t)
    requires op.Yield? ==> op.ticks < w
    ensures var s' := Step(s, idle, op);
            t in s'.tasks && t in s'.states && s'.states[t] == Sleeping(w) && (Switches(s, op) ==> s'.task != t)
  {
    StepKeeps(s, idle, op);
    match op
    case Yield(ticks) =>
      ReschedLeaves(s, idle, ticks, t, t);
      NoEarlyWake(s, idle, ticks);
    case Kill(x) => WithoutKeeps(s.tasks, x);
    case _ =>
  }

  /** From the moment it goes to sleep: the current task sleeps until `w` and is not resumed before. */
  lemma SleepHolds(s: Sched, idle: nat, w: nat, s': Sched, ops: seq<Op>)
    requires Inv(s, idle) && s.task != idle && s' == Step(s, idle, Sleep(w))
    requires Inv(s', idle) && AllAllowed(s', idle, ops) && LeftAsleep(s', idle, ops, s.task, w)
    ensures NeverResumed(s', idle, ops, s.task)
    ensures var r := Run(s', idle, ops); s.task in r.states && r.states[s.task] == Sleeping(w)
  {
    SleepsOn(s', idle, ops, s.task, w);
  }

  // ----- Bounded waiting -----

  /** How many of them a run has. */
  ghost function Switchings(s: Sched, idle: nat, ops: seq<Op>): nat
    requires Inv(s, idle) && AllAllowed(s, idle, ops)
    decreases |ops|
  {
    if ops == [] then 0
    else
      StepKeeps(s, idle, ops[0]);
      (if Switches(s, ops[0]) then 1 else 0) + Switchings(Step(s, idle, ops[0]), idle, ops[1..])
  }

  function Adds(ops: seq<Op>): nat {
    if ops == [] then 0 else (if ops[0].Add? then 1 else 0) + Adds(ops[1..])
  }

  /** Along the run task `t` stays listed, and is eligible but not picked at every reschedule that finds
      preemption on; others do nothing. */
  ghost predicate Overlooked(s: Sched, idle: nat, ops: seq<Op>, t: nat)
    requires Inv(s, idle) && AllAllowed(s, idle, ops)
    decreases |ops|
  {
    t in s.tasks &&
    (ops == [] ||
     (StepKeeps(s, idle, ops[0]);
      var s' := Step(s, idle, ops[0]);
      && (Switches(s, ops[0]) ==> Eligible(s.states[t], ops[0].ticks) && s'.task != t)
      && Overlooked(s', idle, ops[1..], t)))
  }

  /** One reschedule that does not pick `t` brings it at least one step closer. */
  lemma Closer(s: Sched, idle: nat, ticks: nat, t: nat)
    requires Inv(s, idle) && t in s.tasks && Eligible(s.states[t], ticks)
    ensures var s' := Resched(s, idle, ticks);
            && s'.task in s'.tasks && (!s.preempt ==> s' == s)
            && (s.preempt && s'.task != t && t in s'.tasks ==>
                  DistanceTo(s'.tasks, s'.task, t) < DistanceTo(s.tasks, s.task, t))
  {
    if !s.preempt {
      return;
    }
    var k := Picked(s, idle, ticks);
    var s' := Resched(s, idle, ticks);
    ReschedKeeps(s, idle, ticks);
    NearestCloser(s.tasks, s.states, ticks, s.task, k, t);
    if s'.task != t && t in s'.tasks && s.states[s.task].Dying? {
      WithoutIndex(s.tasks, s.task, s'.task);
      WithoutDistance(s.tasks, s.task, s'.task, t);
    }
  }

  lemma NearestCloser(s: seq<nat>, states: map<nat, TaskState>, ticks: nat, c: nat, k: nat, t: nat)
    requires Distinct(s) && (forall x :: x in s ==> x in states) && c in s && t in s && Eligible(states[t], ticks)
    requires Nearest(s, states, ticks, IndexOf(s, c), k)
    ensures s[k] != t ==> DistanceTo(s, s[k], t) < DistanceTo(s, c, t)
  {
    var n, i, m := |s|, IndexOf(s, c), IndexOf(s, t);
    IndexUnique(s, k);
    assert Eligible(states[s[m]], ticks);
    if k != m {
      Between(n, i, k, m);
    }
  }

  lemma Between(n: nat, i: nat, k: nat, m: nat)
    requires i < n && k < n && m < n && k != m && Distance(n, i, k) <= Distance(n, i, m)
    ensures Distance(n, k, m) < Distance(n, i, m)
  {
  }

  lemma StepDistance(s: Sched, idle: nat, op: Op, t: nat)
    requires Inv(s, idle) && Allowed(s, idle, op) && t in s.tasks && t in Step(s, idle, op).tasks
    requires Switches(s, op) ==> Eligible(s.states[t], op.ticks) && Step(s, idle, op).task != t
    ensures var s' := Step(s, idle, op);
            && s'.task in s'.tasks
            && DistanceTo(s'.tasks, s'.task, t)
               <= DistanceTo(s.tasks, s.task, t) + (if op.Add? then 1 else 0) - (if Switches(s, op) then 1 else 0)
  {
    match op
    case Yield(ticks) =>
      if s.preempt {
        Closer(s, idle, ticks, t);
      }
    case Add(x) => PushedDistance(s.tasks, x, s.task, t);
    case Kill(x) =>
      WithoutIndex(s.tasks, x, s.task);
      if x != t {
        WithoutDistance(s.tasks, x, s.task, t);
      }
    case _ =>
  }

  /** Whatever other tasks sleep, wake, die or come, an eligible task at distance `d` is overlooked by
      fewer reschedules than `d` plus the number of tasks added, not counting those with preemption off. */
  lemma {:induction false} BoundedWaiting(s: Sched, idle: nat, ops: seq<Op>, t: nat)
    requires Inv(s, idle) && AllAllowed(s, idle, ops) && Overlooked(s, idle, ops, t)
    ensures Switchings(s, idle, ops) < DistanceTo(s.tasks, s.task, t) + Adds(ops)
    decreases |ops|
  {
    if ops != [] {
      StepKeeps(s, idle, ops[0]);
      StepDistance(s, idle, ops[0], t);
      BoundedWaiting(Step(s, idle, ops[0]), idle, ops[1..], t);
    }
  }

  // ----- In place -----

  class Kernel {
    var tasks: seq<nat>
    var entry: nat
    var task: nat
    var states: map<nat, TaskState>
    var preempt: bool
    ghost const idle: nat

    ghost function State(): Sched
      reads this
    {
      Sched(tasks, entry, task, states, preempt)
    }

    /** `sched_init`: idle alone, without preemption. */
    constructor (idle: nat)
      ensures this.idle == idle && State() == Sched([idle], idle, idle, map[idle := Starting], false)
      ensures Inv(State(), idle)
    {
      this.idle := idle;
      tasks, entry, task, states, preempt := [idle], idle, idle, map[idle := Starting], false;
    }

    /** `pick_next_task`: the retry loop, which wakes a sleeper it stops at. */
    method PickNext(ticks: nat) returns (k: nat)
      requires Inv(State(), idle)
      modifies `states
      ensures k == Pick(tasks, old(states), idle, IndexOf(tasks, entry), ticks)
      ensures states == old(states)[tasks[k] := Woken(old(states)[tasks[k]])]
    {
      k := IndexOf(tasks, entry);
      ghost var picked, z := Pick(tasks, states, idle, k, ticks), IndexOf(tasks, idle);
      while true
        invariant k < |tasks| && states == old(states)
        invariant Pick(tasks, states, idle, k, ticks) == picked
        decreases Distance(|tasks|, k, z)
      {
        k := Next(|tasks|, k);
        var st := states[tasks[k]];
        if st.Sleeping? && st.wake <= ticks {
          states := states[tasks[k] := Running];
          return;
        } else if !st.Sleeping? {
          return;
        }
      }
    }

    /** `reschedule` up to the switch. */
    method Reschedule(ticks: nat)
      requires Inv(State(), idle)
      modifies this
      ensures State() == Resched(old(State()), idle, ticks) && Inv(State(), idle)
    {
      ghost var s := State();
      if preempt {
        Switch(ticks);
      }
      ReschedKeeps(s, idle, ticks);
    }

    method Switch(ticks: nat)
      requires Inv(State(), idle) && preempt
      modifies this
      ensures State() == Resched(old(State()), idle, ticks)
    {
      var k := PickNext(ticks);
      var next := tasks[k];
      if states[task].Dying? {
        SchedRemove(task);
      }
      entry := next;
      task := next;
    }

    method SchedAdd(t: nat)
      requires Inv(State(), idle) && t !in tasks
      modifies `tasks, `states
      ensures State() == Step(old(State()), idle, Add(t)) && Inv(State(), idle)
    {
      DistinctAdd(tasks, t);
      tasks := tasks + [t];
      states := states[t := Starting];
    }

    /** `sched_remove` and the release of the task. */
    method SchedRemove(t: nat)
      requires t in tasks
      modifies `tasks, `states
      ensures tasks == Without(old(tasks), t) && states == old(states) - {t}
    {
      var i := IndexOf(tasks, t);
      tasks := tasks[..i] + tasks[i + 1..];
      states := states - {t};
    }

    /** `thread_destroy` as `process_kill` calls it for a thread that is not running. */
    method Destroy(t: nat)
      requires Inv(State(), idle) && t in tasks && t != task && t != idle
      modifies `tasks, `states
      ensures State() == Step(old(State()), idle, Kill(t)) && Inv(State(), idle)
    {
      StepKeeps(State(), idle, Kill(t));
      SchedRemove(t);
    }
  }
}
