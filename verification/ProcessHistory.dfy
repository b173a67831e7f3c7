/**
 The process table of kernel/proc.c as a function of what happened: who was made by whom, who
 ended how, and who was reaped, in order.  Every operation on the table keeps it that function.
 */
module ProcessHistory {
  import opened Common
  import opened Processes

  /** `reused` counts the processes that got the PID of a reaped one. */
  datatype Past = Past(made: seq<nat>, parents: map<nat, Option<nat>>, pids: map<nat, nat>, ended: map<nat, Status>,
                       reaped: seq<nat>, reused: nat)

  const NOTHING := Past([], map[], map[], map[], [], 0)

  predicate Live(p: Past, h: nat) {
    h in p.made && h !in p.reaped
  }

  /** Everybody has a parent entry and a PID, was made once and after its parent, and ended before it was reaped. */
  ghost predicate Orderly(p: Past) {
    && Distinct(p.made) && Distinct(p.reaped) && p.reused <= |p.reaped| && p.reused <= |p.made|
    && (forall h :: h in p.made ==> h in p.parents && h in p.pids && p.parents[h] != Some(h))
    && (forall h, g :: h in p.made && p.parents[h] == Some(g) ==> g in p.made)
    && (forall h :: h in p.reaped ==> h in p.made && h in p.ended)
    && (forall h :: h in p.ended ==> h in p.made && !p.ended[h].Running?)
  }

  /** The live children of `h` among `made`, in the order they were made. */
  function Offspring(p: Past, made: seq<nat>, h: nat): seq<nat>
    requires forall c :: c in made ==> c in p.parents
  {
    if made == [] then []
    else
      var rest, c := Offspring(p, made[..|made| - 1], h), made[|made| - 1];
      if c !in p.reaped && p.parents[c] == Some(h) then rest + [c] else rest
  }

  function ProcessOf(p: Past, h: nat): Process
    requires h in p.pids && h in p.parents && forall c :: c in p.made ==> c in p.parents
  {
    Process(p.pids[h], if h in p.ended then p.ended[h] else Running, p.parents[h], Offspring(p, p.made, h))
  }

  function PidOf(pids: map<nat, nat>, h: nat): nat {
    if h in pids then pids[h] else 0
  }

  function PidsOf(pids: map<nat, nat>, hs: seq<nat>): (r: seq<nat>)
    ensures |r| == |hs|
  {
    if hs == [] then [] else [PidOf(pids, hs[0])] + PidsOf(pids, hs[1..])
  }

  /** The PIDs of the reaped that are not in use again, oldest first. */
  ghost function FreePids(p: Past): seq<nat>
    requires p.reused <= |p.reaped|
  {
    PidsOf(p.pids, p.reaped[p.reused..])
  }

  /** The table that the past determines. */
  ghost function TableOf(p: Past): Table
    requires Orderly(p)
  {
    Table(|p.made| - p.reused, FreePids(p), Procs(p))
  }

  /** The PID of the next process: that of the first reaped one not in use again, or a new one. */
  ghost function NextPid(p: Past): nat
    requires Orderly(p)
  {
    if p.reused < |p.reaped| then PidOf(p.pids, p.reaped[p.reused]) else |p.made| - p.reused
  }

  ghost function Made(p: Past, h: nat, parent: Option<nat>): Past
    requires Orderly(p)
  {
    p.(made := p.made + [h], parents := p.parents[h := parent], pids := p.pids[h := NextPid(p)],
       reused := if p.reused < |p.reaped| then p.reused + 1 else p.reused)
  }

  // ----- Offspring -----

  lemma {:induction false} OffspringIs(p: Past, made: seq<nat>, h: nat, c: nat)
    requires forall c :: c in made ==> c in p.parents
    ensures c in Offspring(p, made, h) <==> c in made && c !in p.reaped && p.parents[c] == Some(h)
    decreases |made|
  {
    if made != [] {
      var n := |made| - 1;
      OffspringIs(p, made[..n], h, c);
      assert made == made[..n] + [made[n]];
    }
  }

  lemma {:induction false} OffspringSame(p: Past, p': Past, made: seq<nat>, h: nat)
    requires forall c :: c in made ==> c in p.parents && c in p'.parents && p'.parents[c] == p.parents[c]
    requires forall c :: c in made && p.parents[c] == Some(h) ==> (c in p'.reaped <==> c in p.reaped)
    ensures Offspring(p', made, h) == Offspring(p, made, h)
    decreases |made|
  {
    if made != [] {
      var n := |made| - 1;
      assert made[n] in made && forall c :: c in made[..n] ==> c in made;
      OffspringSame(p, p', made[..n], h);
    }
  }

  lemma OffspringAdded(p: Past, h: nat, parent: Option<nat>, g: nat)
    requires Orderly(p) && h !in p.made && h !in p.reaped
    ensures var p' := Made(p, h, parent);
            && (forall c :: c in p'.made ==> c in p'.parents)
            && Offspring(p', p'.made, g) == Offspring(p, p.made, g) + if parent == Some(g) then [h] else []
  {
    var p' := Made(p, h, parent);
    assert p'.made[..|p.made|] == p.made;
    OffspringSame(p, p', p.made, g);
  }

  // ----- Making -----

  lemma MadeOrderly(p: Past, h: nat, parent: Option<nat>)
    requires Orderly(p) && h !in p.made && (parent.Some? ==> parent.value in p.made)
    ensures Orderly(Made(p, h, parent))
  {
    DistinctAdd(p.made, h);
  }

  lemma {:induction false} PidsSame(pids: map<nat, nat>, pids': map<nat, nat>, hs: seq<nat>)
    requires forall h :: h in hs ==> PidOf(pids', h) == PidOf(pids, h)
    ensures PidsOf(pids', hs) == PidsOf(pids, hs)
  {
    if hs != [] {
      PidsSame(pids, pids', hs[1..]);
    }
  }

  lemma {:induction false} PidsAdded(pids: map<nat, nat>, hs: seq<nat>, h: nat)
    ensures PidsOf(pids, hs + [h]) == PidsOf(pids, hs) + [PidOf(pids, h)]
  {
    if hs != [] {
      assert (hs + [h])[1..] == hs[1..] + [h];
      PidsAdded(pids, hs[1..], h);
    }
  }

  /** The free PIDs after one more was made. */
  lemma FreeMade(p: Past, h: nat, parent: Option<nat>)
    requires Orderly(p) && h !in p.made
    ensures var p' := Made(p, h, parent);
            FreePids(p') == if FreePids(p) == [] then [] else FreePids(p)[1..]
    ensures FreePids(p) == [] <==> p.reused == |p.reaped|
    ensures FreePids(p) != [] ==> FreePids(p)[0] == NextPid(p)
  {
    var p' := Made(p, h, parent);
    var rest := p.reaped[p.reused..];
    if p.reused < |p.reaped| {
      assert rest[1..] == p.reaped[p.reused + 1..];
    }
    PidsSame(p.pids, p'.pids, p.reaped[p'.reused..]);
  }

  /** One record after a process was made. */
  lemma MadeProcess(p: Past, h: nat, parent: Option<nat>, p': Past, g: nat)
    requires Orderly(p) && h !in p.made && Orderly(p') && p' == Made(p, h, parent) && parent != Some(h)
    ensures g in Procs(p') <==> g == h || g in Procs(p)
    ensures g in Procs(p') ==>
              Procs(p')[g] == if g == h then Process(NextPid(p), Running, parent, [])
                              else if parent == Some(g) then Procs(p)[g].(children := Procs(p)[g].children + [h])
                              else Procs(p)[g]
  {
    OffspringAdded(p, h, parent, g);
    if g == h {
      NoOffspring(p, h);
    }
  }

  lemma NoOffspring(p: Past, h: nat)
    requires Orderly(p) && h !in p.made
    ensures Offspring(p, p.made, h) == []
  {
    var s := Offspring(p, p.made, h);
    if s != [] {
      assert s[0] in s;
      OffspringIs(p, p.made, h, s[0]);
    }
  }

  ghost function Procs(p: Past): map<nat, Process>
    requires Orderly(p)
  {
    map h | h in p.made && h !in p.reaped :: ProcessOf(p, h)
  }

  lemma ProcsMade(p: Past, h: nat, parent: Option<nat>)
    requires Orderly(p) && h !in p.made && (parent.Some? ==> Live(p, parent.value)) && Orderly(Made(p, h, parent))
    ensures var procs := Procs(p)[h := Process(NextPid(p), Running, parent, [])];
            Procs(Made(p, h, parent))
            == match parent
               case None => procs
               case Some(g) => procs[g := Procs(p)[g].(children := Procs(p)[g].children + [h])]
  {
    var p' := Made(p, h, parent);
    forall g: nat
      ensures g in Procs(p') <==> g == h || g in Procs(p)
      ensures g in Procs(p') ==>
                Procs(p')[g] == if g == h then Process(NextPid(p), Running, parent, [])
                                else if parent == Some(g) then Procs(p)[g].(children := Procs(p)[g].children + [h])
                                else Procs(p)[g]
    {
      MadeProcess(p, h, parent, p', g);
    }
    WithChild(Procs(p), Procs(p'), h, Process(NextPid(p), Running, parent, []), parent);
  }

  lemma WithChild(a: map<nat, Process>, b: map<nat, Process>, h: nat, made: Process, parent: Option<nat>)
    requires h !in a && (parent.Some? ==> parent.value in a)
    requires forall g: nat :: g in b <==> g == h || g in a
    requires forall g: nat :: g in b ==>
               b[g] == if g == h then made else if parent
                    == Some(g) then a[g].(children := a[g].children + [h]) else a[g]
    ensures b == match parent
                 case None => a[h := made]
                 case Some(g) => a[h := made][g := a[g].(children := a[g].children + [h])]
  {
  }

  /** Making a process: the table is that of the past with one more made. */
  lemma CreateIs(p: Past, h: nat, parent: Option<nat>)
    requires Orderly(p) && h !in p.made && (parent.Some? ==> Live(p, parent.value))
    ensures Orderly(Made(p, h, parent)) && NewPid(TableOf(p)) == NextPid(p)
    ensures Create(TableOf(p), h, parent) == TableOf(Made(p, h, parent))
  {
    MadeOrderly(p, h, parent);
    FreeMade(p, h, parent);
    ProcsMade(p, h, parent);
  }

  // ----- Ending -----

  /** Ending a process: the table is that of the past with its end noted. */
  lemma EndIs(p: Past, h: nat, status: Status)
    requires Orderly(p) && Live(p, h) && !status.Running?
    ensures Orderly(p.(ended := p.ended[h := status]))
    ensures End(TableOf(p), h, status) == TableOf(p.(ended := p.ended[h := status]))
  {
    var p' := p.(ended := p.ended[h := status]);
    forall g: nat
      ensures g in Procs(p') <==> g in Procs(p)
      ensures g in Procs(p) ==> Procs(p')[g] == if g == h then Procs(p)[g].(status := status) else Procs(p)[g]
    {
      EndedProcess(p, h, status, p', g);
    }
    WithStatus(Procs(p), Procs(p'), h, status);
  }

  lemma WithStatus(a: map<nat, Process>, b: map<nat, Process>, h: nat, status: Status)
    requires h in a && forall g: nat :: g in b <==> g in a
    requires forall g: nat :: g in a ==> b[g] == if g == h then a[g].(status := status) else a[g]
    ensures b == a[h := a[h].(status := status)]
  {
  }

  lemma EndedProcess(p: Past, h: nat, status: Status, p': Past, g: nat)
    requires Orderly(p) && Orderly(p') && p' == p.(ended := p.ended[h := status])
    ensures g in Procs(p') <==> g in Procs(p)
    ensures g in Procs(p) ==> Procs(p')[g] == if g == h then Procs(p)[g].(status := status) else Procs(p)[g]
  {
    OffspringSame(p, p', p.made, g);
  }

  // ----- Reaping -----

  /** How many of the children come before the first that has ended. */
  function FirstToReap(p: Past, children: seq<nat>): (i: nat)
    ensures i <= |children| && (i < |children| ==> children[i] in p.ended)
    ensures forall j :: 0 <= j < i ==> children[j] !in p.ended
  {
    if children == [] || children[0] in p.ended then 0 else FirstToReap(p, children[1..]) + 1
  }

  lemma {:induction false} OffspringReaped(p: Past, p': Past, made: seq<nat>, h: nat, i: nat, c: nat)
    requires forall c :: c in made ==> c in p.parents
    requires Distinct(made) && i < |Offspring(p, made, h)| && c == Offspring(p, made, h)[i]
    requires p' == p.(reaped := p.reaped + [c])
    ensures Offspring(p', made, h) == Offspring(p, made, h)[..i] + Offspring(p, made, h)[i + 1..]
    decreases |made|
  {
    var n := |made| - 1;
    var rest, last := Offspring(p, made[..n], h), made[n];
    assert made == made[..n] + [last];
    DistinctFront(made, n);
    if i < |rest| {
      OffspringReaped(p, p', made[..n], h, i, c);
      OffspringIs(p, made[..n], h, c);
      assert c in rest;
    } else {
      assert c == last;
      OffspringSame(p, p', made[..n], h);
    }
  }

  lemma DistinctFront(s: seq<nat>, n: nat)
    requires Distinct(s) && n == |s| - 1
    ensures Distinct(s[..n]) && s[n] !in s[..n]
  {
    forall i: nat, j: nat | i < j < n
      ensures Differ(s[..n], i, j)
    {
      assert Differ(s, i, j);
    }
    forall i | 0 <= i < n
      ensures s[..n][i] != s[n]
    {
      assert Differ(s, i, n);
    }
  }

  ghost function Reaped(p: Past, c: nat): Past {
    p.(reaped := p.reaped + [c])
  }

  lemma ReapedOrderly(p: Past, c: nat)
    requires Orderly(p) && Live(p, c) && c in p.ended
    ensures Orderly(Reaped(p, c)) && FreePids(Reaped(p, c)) == FreePids(p) + [p.pids[c]]
  {
    DistinctAdd(p.reaped, c);
    assert (p.reaped + [c])[p.reused..] == p.reaped[p.reused..] + [c];
    PidsAdded(p.pids, p.reaped[p.reused..], c);
  }

  /** One record after child `i` of `h` was reaped. */
  lemma ReapedProcess(p: Past, h: nat, i: nat, c: nat, p': Past, g: nat)
    requires Orderly(p) && i < |Offspring(p, p.made, h)| && c == Offspring(p, p.made, h)[i]
    requires p' == Reaped(p, c) && Orderly(p')
    ensures g in Procs(p') <==> g in Procs(p) && g != c
    ensures g in Procs(p') ==>
              Procs(p')[g] == if g == h then Procs(p)[g].(children := Offspring(p, p.made, h)[..i]
                                                            + Offspring(p, p.made, h)[i + 1..])
                              else Procs(p)[g]
  {
    assert c in Offspring(p, p.made, h);
    OffspringIs(p, p.made, h, c);
    if g == h {
      OffspringReaped(p, p', p.made, h, i, c);
    } else {
      OffspringSame(p, p', p.made, g);
    }
  }

  /** Reaping child `i` of `h`: the table is that of the past with one more reaped. */
  lemma DeleteIs(p: Past, h: nat, i: nat)
    requires Orderly(p) && Live(p, h) && i < |Offspring(p, p.made, h)| && Offspring(p, p.made, h)[i] in p.ended
    ensures var c := Offspring(p, p.made, h)[i];
            && Live(p, c) && p.parents[c] == Some(h) && Orderly(Reaped(p, c))
            && Delete(TableOf(p), h, i) == TableOf(Reaped(p, c))
  {
    var s, c := Offspring(p, p.made, h), Offspring(p, p.made, h)[i];
    assert c in s;
    OffspringIs(p, p.made, h, c);
    ReapedOrderly(p, c);
    var p' := Reaped(p, c);
    forall g: nat
      ensures g in Procs(p') <==> g in Procs(p) && g != c
      ensures g in Procs(p') ==>
                Procs(p')[g] == if g == h then Procs(p)[g].(children := s[..i] + s[i + 1..]) else Procs(p)[g]
    {
      ReapedProcess(p, h, i, c, p', g);
    }
    WithoutChild(Procs(p), Procs(p'), h, c, s[..i] + s[i + 1..]);
  }

  lemma WithoutChild(a: map<nat, Process>, b: map<nat, Process>, h: nat, c: nat, children: seq<nat>)
    requires h in a && c in a
    requires forall g: nat :: g in b <==> g in a && g != c
    requires forall g: nat :: g in b ==> b[g] == if g == h then a[g].(children := children) else a[g]
    ensures b == a[h := a[h].(children := children)] - {c}
  {
  }

  /** The search of `sys_waitpid` ends at that child. */
  lemma {:induction false} FirstEndedIs(p: Past, children: seq<nat>)
    requires Orderly(p) && forall c :: c in children ==> Live(p, c)
    ensures (forall c :: c in children ==> c in Procs(p)) && FirstEnded(Procs(p), children) == FirstToReap(p, children)
  {
    forall c | c in children
      ensures c in Procs(p) && (Procs(p)[c].status.Running? <==> c !in p.ended)
    {
      assert Live(p, c);
    }
    SameFirst(p, Procs(p), children);
  }

  lemma {:induction false} SameFirst(p: Past, procs: map<nat, Process>, children: seq<nat>)
    requires forall c :: c in children ==> c in procs && (procs[c].status.Running? <==> c !in p.ended)
    ensures FirstEnded(procs, children) == FirstToReap(p, children)
  {
    if children != [] {
      SameFirst(p, procs, children[1..]);
    }
  }

  // ----- Every run -----

  /** What can happen next. */
  ghost predicate Can(p: Past, op: Op) {
    match op
    case Spawn(h, parent) => h !in p.made && (parent.Some? ==> Live(p, parent.value))
    case Finish(h, status) => Live(p, h) && !status.Running?
    case Wait(h) => Live(p, h)
  }

  /** The past afterwards; a wait that finds no ended child changes nothing. */
  ghost function Then(p: Past, op: Op): Past
    requires Orderly(p) && Can(p, op)
  {
    match op
    case Spawn(h, parent) => Made(p, h, parent)
    case Finish(h, status) => p.(ended := p.ended[h := status])
    case Wait(h) =>
      var children := Offspring(p, p.made, h);
      var i := FirstToReap(p, children);
      if i < |children| then Reaped(p, children[i]) else p
  }

  /** The operation on the table. */
  ghost function TableThen(t: Table, op: Op): Table
    requires op.Spawn? && op.parent.Some? ==> op.parent.value in t.procs
    requires op.Finish? ==> op.h in t.procs
    requires op.Wait? ==> op.p in t.procs && forall c :: c in t.procs[op.p].children ==> c in t.procs
  {
    match op
    case Spawn(h, parent) => Create(t, h, parent)
    case Finish(h, status) => End(t, h, status)
    case Wait(h) =>
      var i := FirstEnded(t.procs, t.procs[h].children);
      if i < |t.procs[h].children| then
        assert t.procs[h].children[i] in t.procs[h].children;
        Delete(t, h, i)
      else t
  }

  lemma OffspringLive(p: Past, h: nat)
    requires Orderly(p)
    ensures forall c :: c in Offspring(p, p.made, h) ==> Live(p, c) && c in Procs(p)
  {
    forall c | c in Offspring(p, p.made, h)
      ensures Live(p, c) && c in Procs(p)
    {
      OffspringIs(p, p.made, h, c);
    }
  }

  /** Every operation keeps the table what the past determines. */
  lemma StepIs(p: Past, op: Op)
    requires Orderly(p) && Can(p, op)
    ensures op.Wait? ==> forall c :: c in Procs(p)[op.p].children ==> c in Procs(p)
    ensures Orderly(Then(p, op)) && TableThen(TableOf(p), op) == TableOf(Then(p, op))
  {
    match op
    case Spawn(h, parent) => CreateIs(p, h, parent);
    case Finish(h, status) => EndIs(p, h, status);
    case Wait(h) =>
      var children := Offspring(p, p.made, h);
      OffspringLive(p, h);
      FirstEndedIs(p, children);
      if FirstToReap(p, children) < |children| {
        DeleteIs(p, h, FirstToReap(p, children));
      }
  }

  ghost predicate AllCan(p: Past, ops: seq<Op>)
    requires Orderly(p)
    decreases |ops|
  {
    ops == [] || (Can(p, ops[0]) && (StepIs(p, ops[0]); AllCan(Then(p, ops[0]), ops[1..])))
  }

  ghost function AllThen(p: Past, ops: seq<Op>): (r: Past)
    requires Orderly(p) && AllCan(p, ops)
    ensures Orderly(r)
    decreases |ops|
  {
    if ops == [] then p else (StepIs(p, ops[0]); AllThen(Then(p, ops[0]), ops[1..]))
  }

  /** The table after a run of operations, each as the kernel does it. */
  ghost function TableRun(t: Table, p: Past, ops: seq<Op>): Table
    requires Orderly(p) && AllCan(p, ops) && t == TableOf(p)
    decreases |ops|
  {
    if ops == [] then t
    else
      StepIs(p, ops[0]);
      TableRun(TableThen(t, ops[0]), Then(p, ops[0]), ops[1..])
  }

  /** Over every run from boot, the table is exactly the one its past determines. */
  lemma {:induction false} TableIsPast(p: Past, ops: seq<Op>)
    requires Orderly(p) && AllCan(p, ops)
    ensures TableRun(TableOf(p), p, ops) == TableOf(AllThen(p, ops))
    decreases |ops|
  {
    if ops != [] {
      StepIs(p, ops[0]);
      TableIsPast(Then(p, ops[0]), ops[1..]);
    }
  }

  lemma FromBoot(ops: seq<Op>)
    requires AllCan(NOTHING, ops)
    ensures TableOf(NOTHING) == Table(0, [], map[])
    ensures TableRun(Table(0, [], map[]), NOTHING, ops) == TableOf(AllThen(NOTHING, ops))
  {
    assert TableOf(NOTHING) == Table(0, [], map[]);
    TableIsPast(NOTHING, ops);
  }

  /** In such a table a process is on its parent's list exactly if that parent is its parent and it is not reaped. */
  lemma ListedIff(p: Past, h: nat, c: nat)
    requires Orderly(p) && Live(p, h)
    ensures c in TableOf(p).procs[h].children <==> c in TableOf(p).procs && TableOf(p).procs[c].parent == Some(h)
  {
    OffspringIs(p, p.made, h, c);
  }
}
