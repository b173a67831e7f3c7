/**
 Process identifiers and the reaping of children (kernel/proc.c).  A process is named by
 the identity of its record, so that the uniqueness of live PIDs is something to prove.
 */
module Processes {
  import opened Common

  datatype Status = Running | Exited(code: int) | Dead(signal: int)
  datatype Process = Process(pid: nat, status: Status, parent: Option<nat>, children: seq<nat>)

  /** `current_pid`, `free_pid` and the process records. */
  datatype Table = Table(next: nat, free: seq<nat>, procs: map<nat, Process>)

  // ----- The operations -----

  /** `generate_pid` */
  function NewPid(t: Table): nat {
    if t.free != [] then t.free[0] else t.next
  }

  function TakePid(t: Table): Table {
    if t.free != [] then t.(free := t.free[1..]) else t.(next := t.next + 1)
  }

  /** `process_spawn` and `sys_fork`: a record `h` that was not there before. */
  function Create(t: Table, h: nat, parent: Option<nat>): Table
    requires parent.Some? ==> parent.value in t.procs
  {
    var procs := t.procs[h := Process(NewPid(t), Running, parent, [])];
    match parent
    case None => TakePid(t).(procs := procs)
    case Some(p) => TakePid(t).(procs := procs[p := t.procs[p].(children := t.procs[p].children + [h])])
  }

  /** `sys_exit` and `kill_with_signal` */
  function End(t: Table, h: nat, status: Status): Table
    requires h in t.procs
  {
    t.(procs := t.procs[h := t.procs[h].(status := status)])
  }

  /** The first child that exited or was killed, or the number of children. */
  function FirstEnded(procs: map<nat, Process>, children: seq<nat>): (i: nat)
    requires forall c :: c in children ==> c in procs
    ensures i <= |children| && (i < |children| ==> !procs[children[i]].status.Running?)
    ensures forall j :: 0 <= j < i ==> procs[children[j]].status.Running?
  {
    if children == [] || !procs[children[0]].status.Running? then 0 else FirstEnded(procs, children[1..]) + 1
  }

  /** `process_delete` of child `i` of `p`. */
  function Delete(t: Table, p: nat, i: nat): Table
    requires p in t.procs && i < |t.procs[p].children| && t.procs[p].children[i] in t.procs
  {
    var children := t.procs[p].children;
    var c := children[i];
    Table(t.next, t.free + [t.procs[c].pid],
         t.procs[p := t.procs[p].(children := children[..i] + children[i + 1..])] - {c})
  }

  // ----- The invariant -----

  ghost function Pids(procs: map<nat, Process>): map<nat, nat> {
    map h | h in procs :: procs[h].pid
  }

  ghost predicate Known(free: seq<nat>, pids: map<nat, nat>, n: nat) {
    n in free || n in pids.Values
  }

  /** Live PIDs and free PIDs: no duplicates, nothing in common, together all below `next`. */
  ghost predicate Partitioned(next: nat, free: seq<nat>, pids: map<nat, nat>) {
    && Distinct(free) && (forall n :: n in free ==> n < next)
    && (forall h :: h in pids ==> pids[h] < next && pids[h] !in free)
    && (forall h, g :: h in pids && g in pids && h != g ==> pids[h] != pids[g])
    && (forall n: nat {:trigger Known(free, pids, n)} :: n < next ==> Known(free, pids, n))
  }

  /** The children lists: live processes, each once, each with the right parent. */
  ghost predicate Families(procs: map<nat, Process>) {
    && (forall h :: h in procs ==> Distinct(procs[h].children))
    && (forall h, c :: h in procs && c in procs[h].children ==> c != h && c in procs && procs[c].parent == Some(h))
  }

  ghost predicate Inv(t: Table) {
    Partitioned(t.next, t.free, Pids(t.procs)) && Families(t.procs)
  }

  lemma PidTaken(t: Table, h: nat)
    requires Partitioned(t.next, t.free, Pids(t.procs)) && h !in t.procs
    ensures var t' := TakePid(t); Partitioned(t'.next, t'.free, Pids(t.procs)[h := NewPid(t)])
    ensures NewPid(t) !in Pids(t.procs).Values
  {
    if t.free != [] {
      PidReused(t.next, t.free, Pids(t.procs), h);
    } else {
      PidFresh(t.next, Pids(t.procs), h);
    }
  }

  lemma PidReused(next: nat, free: seq<nat>, pids: map<nat, nat>, h: nat)
    requires Partitioned(next, free, pids) && h !in pids && free != []
    ensures Partitioned(next, free[1..], pids[h := free[0]]) && free[0] !in pids.Values
  {
    var n, pids' := free[0], pids[h := free[0]];
    assert free[1..] == free[..0] + free[1..];
    DistinctDrop(free, 0, free[1..]);
    assert n in free && pids'[h] == n && n in pids'.Values;
    assert forall m :: m in free[1..] ==> m in free;
    ValuesKept(pids, h, n);
    forall m: nat | m < next
      ensures Known(free[1..], pids', m)
    {
      assert Known(free, pids, m);
    }
  }

  lemma PidFresh(next: nat, pids: map<nat, nat>, h: nat)
    requires Partitioned(next, [], pids) && h !in pids
    ensures Partitioned(next + 1, [], pids[h := next]) && next !in pids.Values
  {
    var pids' := pids[h := next];
    assert pids'[h] == next && next in pids'.Values;
    ValuesKept(pids, h, next);
    forall m: nat | m < next
      ensures Known([], pids', m)
    {
      assert Known([], pids, m);
    }
  }

  lemma ValuesKept(pids: map<nat, nat>, h: nat, n: nat)
    requires h !in pids
    ensures forall m :: m in pids.Values ==> m in pids[h := n].Values
  {
    forall m | m in pids.Values
      ensures m in pids[h := n].Values
    {
      var g :| g in pids && pids[g] == m;
      assert pids[h := n][g] == m;
    }
  }

  lemma PidFreed(next: nat, free: seq<nat>, pids: map<nat, nat>, c: nat)
    requires Partitioned(next, free, pids) && c in pids
    ensures Partitioned(next, free + [pids[c]], pids - {c})
  {
    DistinctAdd(free, pids[c]);
    forall n: nat | n < next
      ensures Known(free + [pids[c]], pids - {c}, n)
    {
      assert Known(free, pids, n);
      if n !in free && n != pids[c] {
        var g :| g in pids && pids[g] == n;
        assert (pids - {c})[g] == n;
      }
    }
  }

  lemma CreateKeeps(t: Table, h: nat, parent: Option<nat>)
    requires Inv(t) && h !in t.procs && (parent.Some? ==> parent.value in t.procs)
    ensures Inv(Create(t, h, parent)) && Create(t, h, parent).procs[h].pid == NewPid(t)
    ensures NewPid(t) !in Pids(t.procs).Values
  {
    PidTaken(t, h);
    assert Pids(Create(t, h, parent).procs) == Pids(t.procs)[h := NewPid(t)];
    FamiliesGrow(t, h, parent);
  }

  lemma FamiliesGrow(t: Table, h: nat, parent: Option<nat>)
    requires Families(t.procs) && h !in t.procs && (parent.Some? ==> parent.value in t.procs)
    ensures Families(Create(t, h, parent).procs)
  {
    var procs := Create(t, h, parent).procs;
    forall g | g in procs
      ensures Distinct(procs[g].children)
    {
      if parent == Some(g) {
        assert h !in t.procs[g].children;
        DistinctAdd(t.procs[g].children, h);
      }
    }
    forall g, c | g in procs && c in procs[g].children
      ensures c != g && c in procs && procs[c].parent == Some(g)
    {
      if c != h {
        assert g in t.procs && c in t.procs[g].children;
      }
    }
  }

  lemma EndKeeps(t: Table, h: nat, status: Status)
    requires Inv(t) && h in t.procs
    ensures Inv(End(t, h, status))
  {
    var procs := End(t, h, status).procs;
    assert Pids(procs) == Pids(t.procs);
    forall g, c | g in procs && c in procs[g].children
      ensures c != g && c in procs && procs[c].parent == Some(g)
    {
      assert c in t.procs[g].children;
    }
  }

  lemma DeleteKeeps(t: Table, p: nat, i: nat)
    requires Inv(t) && p in t.procs && i < |t.procs[p].children| && t.procs[p].children[i] in t.procs
    ensures Inv(Delete(t, p, i))
  {
    var c := t.procs[p].children[i];
    assert c in t.procs[p].children;
    PidFreed(t.next, t.free, Pids(t.procs), c);
    assert Pids(Delete(t, p, i).procs) == Pids(t.procs) - {c};
    FamiliesShrink(t, p, i);
  }

  lemma FamiliesShrink(t: Table, p: nat, i: nat)
    requires Families(t.procs) && p in t.procs && i < |t.procs[p].children| && t.procs[p].children[i] in t.procs
    ensures Families(Delete(t, p, i).procs)
  {
    var procs, s, c := Delete(t, p, i).procs, t.procs[p].children, t.procs[p].children[i];
    var s' := s[..i] + s[i + 1..];
    DistinctDrop(s, i, s');
    forall h, d | h in procs && d in procs[h].children
      ensures d != c && d in t.procs[h].children
    {
      if h != p {
        assert c in s && procs[h] == t.procs[h];
      }
    }
  }

  // ----- Every run -----

  datatype Op =
    | Spawn(h: nat, parent: Option<nat>)   // process_spawn, sys_fork
    | Finish(h: nat, status: Status)       // sys_exit, a fatal signal
    | Wait(p: nat)                         // one round of sys_waitpid that finds a child

  /** A table with its history: which processes ended, and which were reaped, in order. */
  datatype History = History(table: Table, made: set<nat>, ended: set<nat>, reaped: seq<nat>)

  ghost predicate Allowed(s: History, op: Op) {
    match op
    case Spawn(h, parent) => h !in s.made && (parent.Some? ==> parent.value in s.table.procs)
    case Finish(h, status) => h in s.table.procs && s.table.procs[h].status.Running? && !status.Running?
    case Wait(p) =>
      && p in s.table.procs && (forall c :: c in s.table.procs[p].children ==> c in s.table.procs)
      && FirstEnded(s.table.procs, s.table.procs[p].children) < |s.table.procs[p].children|
  }

  function Step(s: History, op: Op): History
    requires Allowed(s, op)
  {
    match op
    case Spawn(h, parent) => s.(table := Create(s.table, h, parent), made := s.made + {h})
    case Finish(h, status) => s.(table := End(s.table, h, status), ended := s.ended + {h})
    case Wait(p) =>
      var i := FirstEnded(s.table.procs, s.table.procs[p].children);
      s.(table := Delete(s.table, p, i), reaped := s.reaped + [s.table.procs[p].children[i]])
  }

  /** Besides the table's invariant: nobody is reaped twice, nor before it ended, nor still there. */
  ghost predicate Sound(s: History) {
    && Inv(s.table) && Distinct(s.reaped)
    && (forall h :: h in s.table.procs ==> h in s.made && (!s.table.procs[h].status.Running? ==> h in s.ended))
    && (forall h :: h in s.reaped ==> h in s.made && h in s.ended && h !in s.table.procs)
  }

  lemma StepSound(s: History, op: Op)
    requires Sound(s) && Allowed(s, op)
    ensures Sound(Step(s, op))
  {
    match op
    case Spawn(h, parent) => CreateKeeps(s.table, h, parent);
    case Finish(h, status) => EndKeeps(s.table, h, status);
    case Wait(p) =>
      var i := FirstEnded(s.table.procs, s.table.procs[p].children);
      var c := s.table.procs[p].children[i];
      DeleteKeeps(s.table, p, i);
      assert c !in s.reaped && c in s.ended;
      DistinctAdd(s.reaped, c);
  }

  ghost predicate AllAllowed(s: History, ops: seq<Op>)
    decreases |ops|
  {
    ops == [] || (Allowed(s, ops[0]) && AllAllowed(Step(s, ops[0]), ops[1..]))
  }

  ghost function Run(s: History, ops: seq<Op>): History
    requires AllAllowed(s, ops)
    decreases |ops|
  {
    if ops == [] then s else Run(Step(s, ops[0]), ops[1..])
  }

  lemma {:induction false} RunSound(s: History, ops: seq<Op>)
    requires Sound(s) && AllAllowed(s, ops)
    ensures Sound(Run(s, ops))
    decreases |ops|
  {
    if ops != [] {
      StepSound(s, ops[0]);
      RunSound(Step(s, ops[0]), ops[1..]);
    }
  }

  /** From boot: PIDs stay partitioned, and every reaped process ended first and is reaped once. */
  lemma ProcessesSound(ops: seq<Op>)
    requires AllAllowed(History(Table(0, [], map[]), {}, {}, []), ops)
    ensures Sound(Run(History(Table(0, [], map[]), {}, {}, []), ops))
  {
    RunSound(History(Table(0, [], map[]), {}, {}, []), ops);
  }

  // ----- In place -----

  class ProcessManager {
    var currentPid: nat
    var freePid: seq<nat>
    var procs: map<nat, Process>

    ghost function State(): Table
      reads this
    {
      Table(currentPid, freePid, procs)
    }

    constructor ()
      ensures State() == Table(0, [], map[]) && Inv(State())
    {
      currentPid, freePid, procs := 0, [], map[];
    }

    method GeneratePid() returns (pid: nat)
      modifies this
      ensures pid == NewPid(old(State())) && State() == TakePid(old(State()))
    {
      if |freePid| > 0 {
        pid := freePid[0];
        freePid := freePid[1..];
      } else {
        pid := currentPid;
        currentPid := currentPid + 1;
      }
    }

    /** The part of `sys_fork` and `process_spawn` that makes the process. */
    method Fork(h: nat, parent: Option<nat>) returns (pid: nat)
      requires Inv(State()) && h !in procs && (parent.Some? ==> parent.value in procs)
      modifies this
      ensures State() == Create(old(State()), h, parent) && Inv(State()) && procs[h].pid == pid
      ensures forall g :: g in old(procs) ==> old(procs)[g].pid != pid
    {
      CreateKeeps(State(), h, parent);
      assert forall g :: g in procs ==> procs[g].pid == Pids(procs)[g];
      pid := GeneratePid();
      procs := procs[h := Process(pid, Running, parent, [])];
      if parent.Some? {
        var p := parent.value;
        procs := procs[p := procs[p].(children := procs[p].children + [h])];
      }
    }

    /** One round of `sys_waitpid`: the PID and the status of the child it reaps, if there is one. */
    method Wait(p: nat) returns (r: Option<(nat, Status)>)
      requires Inv(State()) && p in procs
      modifies this
      ensures Inv(State())
      ensures var children := old(procs[p].children);
              var i := FirstEnded(old(procs), children);
              if i == |children| then r == None && State() == old(State())
              else && r == Some((old(procs)[children[i]].pid, old(procs)[children[i]].status))
                   && State() == Delete(old(State()), p, i)
    {
      var children := procs[p].children;
      var i := 0;
      while i < |children|
        invariant State() == old(State()) && i <= FirstEnded(procs, children)
      {
        var c := children[i];
        if !procs[c].status.Running? {
          r := Some((procs[c].pid, procs[c].status));
          DeleteKeeps(State(), p, i);
          ProcessDelete(p, i);
          return;
        }
        i := i + 1;
      }
      return None;
    }

    method ProcessDelete(p: nat, i: nat)
      requires p in procs && i < |procs[p].children| && procs[p].children[i] in procs
      modifies this
      ensures State() == Delete(old(State()), p, i)
    {
      var children := procs[p].children;
      var c := children[i];
      freePid := freePid + [procs[c].pid];
      procs := procs[p := procs[p].(children := children[..i] + children[i + 1..])] - {c};
    }
  }
}
