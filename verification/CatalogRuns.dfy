/** Vacuums over whole runs: what the scan found, and exactly which generations are lost. */
module CatalogRuns {
  import opened Wrappers
  import opened CatalogProtocol

  /** A process without the history its vacuum keeps. */
  function Plain(p: Process): Process {
    match p
    case Scanning(todo, v) => Scanning(todo, v.(watched := {}))
    case Scanned(v) => Scanned(v.(watched := {}))
    case Vacuuming(todo, kept, v) => Vacuuming(todo, kept, v.(watched := {}))
    case _ => p
  }

  /** A step of one process leaves every other where it is. */
  lemma Bystander(w: World, q: nat, step: Step, u: World, pid: nat)
    requires Next(w, q, step, u) && q != pid && pid in w.processes
    ensures pid in u.processes && Plain(u.processes[pid]) == Plain(w.processes[pid])
  {
    MovesOrNot(w, q, step, u);
    hide Next;
    if u.processes != w.processes {
      var p := u.processes[q];
      Moved(w, q, p, pid);
      hide Move;
    }
  }

  lemma MovesOrNot(w: World, q: nat, step: Step, u: World)
    requires Next(w, q, step, u)
    ensures u.processes == w.processes || (q in u.processes && u.processes == Move(w, q, u.processes[q]).processes)
  {
    hide IsNextId, LockFree, Leases, Keep, TestFile, Unwatch;
  }

  // -------------------------------------------------------------------------------------- scans

  /** From step a to before step n, the process does nothing but scan. */
  ghost predicate Scans(steps: seq<(nat, Step)>, pid: nat, a: nat, n: nat) {
    && a < n <= |steps| && steps[a].0 == pid && steps[a].1.ScanStart?
    && forall i :: a < i < n && steps[i].0 == pid ==> steps[i].1.ScanOne?
  }

  /** The scan's test of a generation's lock, and someone holding it then. */
  ghost predicate FoundAt(worlds: seq<World>, steps: seq<(nat, Step)>, pid: nat, i: nat, g: nat) {
    i < |steps| && i < |worlds| && steps[i] == (pid, ScanOne(g)) && LockHolders(worlds[i], g) != {}
  }

  ghost predicate FoundBy(worlds: seq<World>, steps: seq<(nat, Step)>, pid: nat, a: nat, n: nat, g: nat) {
    exists i :: a < i < n && FoundAt(worlds, steps, pid, i, g)
  }

  ghost predicate TestedAt(steps: seq<(nat, Step)>, pid: nat, i: nat, g: nat) {
    i < |steps| && steps[i] == (pid, ScanOne(g))
  }

  ghost predicate TestedBy(steps: seq<(nat, Step)>, pid: nat, a: nat, n: nat, g: nat) {
    exists i :: a < i < n && TestedAt(steps, pid, i, g)
  }

  /** Where a scan stands: what is left to test, and what has been found. */
  ghost predicate ScanState(worlds: seq<World>, steps: seq<(nat, Step)>, pid: nat, a: nat, n: nat, p: Process) {
    && a < |steps| && steps[a].1.ScanStart? && p.Scanning?
    && p.vacuum.retain == steps[a].1.retain && p.vacuum.protect == steps[a].1.protect
    && (forall g :: g in p.todo <==> g in steps[a].1.files && !TestedBy(steps, pid, a, n, g))
    && (forall g :: g in p.vacuum.found <==> FoundBy(worlds, steps, pid, a, n, g))
  }

  lemma {:induction false} ScanFinds(worlds: seq<World>, steps: seq<(nat, Step)>, pid: nat, a: nat, n: nat)
    requires Run(worlds, steps) && Scans(steps, pid, a, n)
    ensures n < |worlds| && pid in worlds[n].processes && ScanState(worlds, steps, pid, a, n, worlds[n].processes[pid])
  {
    RunStep(worlds, steps, n - 1);
    hide Run, Next, ScanState;
    if n == a + 1 {
      ScanFirst(worlds, steps, pid, a);
    } else {
      ScanFinds(worlds, steps, pid, a, n - 1);
      var w, u := worlds[n - 1], worlds[n];
      var p := w.processes[pid];
      if steps[n - 1].0 == pid {
        var id := steps[n - 1].1.id;
        ScanTests(w, pid, id, u);
        ScanNext(worlds, steps, pid, a, n - 1, p, id, u.processes[pid]);
      } else {
        Bystander(w, steps[n - 1].0, steps[n - 1].1, u, pid);
        ScanSame(worlds, steps, pid, a, n - 1, p, u.processes[pid]);
      }
    }
  }

  lemma ScanFirst(worlds: seq<World>, steps: seq<(nat, Step)>, pid: nat, a: nat)
    requires a < |steps| && a + 1 < |worlds| && steps[a].0 == pid && steps[a].1.ScanStart?
    requires Next(worlds[a], pid, steps[a].1, worlds[a + 1])
    ensures pid in worlds[a + 1].processes && ScanState(worlds, steps, pid, a, a + 1, worlds[a + 1].processes[pid])
  {
    ScanStarts(worlds[a], pid, steps[a].1, worlds[a + 1]);
    hide Next, FoundAt, TestedAt;
    var n := a + 1;
    assert forall g :: !TestedBy(steps, pid, a, n, g);
    assert forall g :: !FoundBy(worlds, steps, pid, a, n, g);
  }

  lemma RunStep(worlds: seq<World>, steps: seq<(nat, Step)>, i: nat)
    requires Run(worlds, steps) && i < |steps|
    ensures |worlds| == |steps| + 1 && Next(worlds[i], steps[i].0, steps[i].1, worlds[i + 1])
  {
  }

  lemma ScanStarts(w: World, pid: nat, step: Step, u: World)
    requires Next(w, pid, step, u) && step.ScanStart?
    ensures pid in u.processes && u.processes[pid] == Scanning(step.files, Vacuum(step.retain, step.protect, {}, Leases(w)))
  {
    hide Leases;
  }

  lemma ScanTests(w: World, pid: nat, id: nat, u: World)
    requires Next(w, pid, ScanOne(id), u)
    ensures pid in w.processes && w.processes[pid].Scanning? && id in w.processes[pid].todo && pid in u.processes
    ensures var p, q := w.processes[pid], u.processes[pid];
            && q.Scanning? && q.todo == p.todo - {id} && q.vacuum.retain == p.vacuum.retain && q.vacuum.protect == p.vacuum.protect
            && q.vacuum.found == p.vacuum.found + if LockHolders(w, id) != {} then {id} else {}
  {
    hide LockHolders;
  }

  /** One more step of the run, the scan's own test of a lock. */
  lemma ScanNext(worlds: seq<World>, steps: seq<(nat, Step)>, pid: nat, a: nat, n: nat, p: Process, id: nat, q: Process)
    requires a < n < |steps| && n < |worlds| && ScanState(worlds, steps, pid, a, n, p) && steps[n] == (pid, ScanOne(id)) && q.Scanning?
    requires q.todo == p.todo - {id} && q.vacuum.retain == p.vacuum.retain && q.vacuum.protect == p.vacuum.protect
    requires q.vacuum.found == p.vacuum.found + if LockHolders(worlds[n], id) != {} then {id} else {}
    ensures ScanState(worlds, steps, pid, a, n + 1, q)
  {
    hide LockHolders;
    forall g
      ensures TestedBy(steps, pid, a, n + 1, g) <==> TestedBy(steps, pid, a, n, g) || g == id
      ensures FoundBy(worlds, steps, pid, a, n + 1, g) <==> FoundBy(worlds, steps, pid, a, n, g) || (g == id && LockHolders(worlds[n], id) != {})
    {
      assert TestedAt(steps, pid, n, g) <==> g == id;
      assert FoundAt(worlds, steps, pid, n, g) <==> g == id && LockHolders(worlds[n], id) != {};
      OneLater(worlds, steps, pid, a, n, g);
    }
  }

  /** One more step of the run, another process's. */
  lemma ScanSame(worlds: seq<World>, steps: seq<(nat, Step)>, pid: nat, a: nat, n: nat, p: Process, q: Process)
    requires a < n < |steps| && ScanState(worlds, steps, pid, a, n, p) && steps[n].0 != pid && Plain(q) == Plain(p)
    ensures ScanState(worlds, steps, pid, a, n + 1, q)
  {
    forall g
      ensures TestedBy(steps, pid, a, n + 1, g) <==> TestedBy(steps, pid, a, n, g)
      ensures FoundBy(worlds, steps, pid, a, n + 1, g) <==> FoundBy(worlds, steps, pid, a, n, g)
    {
      OneLater(worlds, steps, pid, a, n, g);
    }
  }

  lemma OneLater(worlds: seq<World>, steps: seq<(nat, Step)>, pid: nat, a: nat, n: nat, g: nat)
    requires a < n
    ensures TestedBy(steps, pid, a, n + 1, g) <==> TestedBy(steps, pid, a, n, g) || TestedAt(steps, pid, n, g)
    ensures FoundBy(worlds, steps, pid, a, n + 1, g) <==> FoundBy(worlds, steps, pid, a, n, g) || FoundAt(worlds, steps, pid, n, g)
  {
    hide TestedAt, FoundAt;
    if TestedBy(steps, pid, a, n, g) {
      var i :| a < i < n && TestedAt(steps, pid, i, g);
      assert a < i < n + 1 && TestedAt(steps, pid, i, g);
    }
    if FoundBy(worlds, steps, pid, a, n, g) {
      var i :| a < i < n && FoundAt(worlds, steps, pid, i, g);
      assert a < i < n + 1 && FoundAt(worlds, steps, pid, i, g);
    }
  }

  // ------------------------------------------------------------------------------------ vacuums

  /** A vacuum's way to the lock: it starts its scan at step a, ends it at step b, and takes the lock at
      step e. */
  ghost predicate Vacuums(steps: seq<(nat, Step)>, pid: nat, a: nat, b: nat, e: nat) {
    && b < e < |steps| && Scans(steps, pid, a, b) && steps[b] == (pid, ScanEnd) && steps[e] == (pid, VacuumBegin)
    && forall i :: b < i < e ==> steps[i].0 != pid
  }

  lemma {:induction false} Waits(worlds: seq<World>, steps: seq<(nat, Step)>, pid: nat, b: nat, n: nat)
    requires Run(worlds, steps) && b < n <= |steps| && steps[b] == (pid, ScanEnd) && forall i :: b < i < n ==> steps[i].0 != pid
    ensures |worlds| == |steps| + 1 && pid in worlds[b].processes && worlds[b].processes[pid].Scanning? && worlds[b].processes[pid].todo == {}
    ensures pid in worlds[n].processes && Plain(worlds[n].processes[pid]) == Plain(Scanned(worlds[b].processes[pid].vacuum))
  {
    RunStep(worlds, steps, n - 1);
    hide Run, Next, Plain;
    if n > b + 1 {
      Waits(worlds, steps, pid, b, n - 1);
      Bystander(worlds[n - 1], steps[n - 1].0, steps[n - 1].1, worlds[n], pid);
    } else {
      ScanEnds(worlds[b], pid, worlds[n]);
    }
  }

  lemma ScanEnds(w: World, pid: nat, u: World)
    requires Next(w, pid, ScanEnd, u)
    ensures pid in w.processes && w.processes[pid].Scanning? && w.processes[pid].todo == {}
    ensures pid in u.processes && u.processes[pid] == Scanned(w.processes[pid].vacuum)
  {
  }

  /** What a vacuum is to lose: a generation that is neither CURRENT nor protected, whose lock no one held
      when the scan tested it, if it did, and that has enough newer ones. */
  ghost predicate ToLose(worlds: seq<World>, steps: seq<(nat, Step)>, pid: nat, a: nat, b: nat, e: nat, g: nat)
    requires Vacuums(steps, pid, a, b, e) && e < |worlds|
  {
    && g in worlds[e].published && worlds[e].current != Some(g) && g !in steps[a].1.protect
    && !FoundBy(worlds, steps, pid, a, b, g) && |Newer(worlds[e].published.Keys, g)| >= steps[a].1.retain
  }

  /** Taking the lock dooms exactly what is to be lost, leased or not. Every lock file listed when the scan
      started has been tested once. */
  lemma Doomed(worlds: seq<World>, steps: seq<(nat, Step)>, pid: nat, a: nat, b: nat, e: nat)
    requires Run(worlds, steps) && Inv(worlds[0]) && Vacuums(steps, pid, a, b, e)
    ensures |worlds| == |steps| + 1 && pid in worlds[e + 1].processes && worlds[e + 1].processes[pid].Vacuuming?
    ensures worlds[e + 1].published == worlds[e].published
    ensures forall g :: g in worlds[e + 1].processes[pid].todo <==> ToLose(worlds, steps, pid, a, b, e, g)
    ensures forall g :: g in steps[a].1.files ==> TestedBy(steps, pid, a, b, g)
  {
    RunStep(worlds, steps, e);
    RunInv(worlds, steps, e);
    ScanFinds(worlds, steps, pid, a, b);
    Waits(worlds, steps, pid, b, e);
    hide Run, Inv, Next, FoundBy, TestedBy;
    VacuumKeeps(worlds[e], pid, worlds[e + 1]);
    Begins(worlds[e], pid, worlds[e + 1]);
  }

  lemma Begins(w: World, pid: nat, u: World)
    requires Next(w, pid, VacuumBegin, u)
    ensures pid in w.processes && w.processes[pid].Scanned? && pid in u.processes
  {
  }

  /** From step e on, the process does nothing but delete. */
  ghost predicate Deletes(steps: seq<(nat, Step)>, pid: nat, e: nat, n: nat) {
    && e < n <= |steps| && steps[e] == (pid, VacuumBegin)
    && forall i :: e < i < n && steps[i].0 == pid ==> steps[i].1.VacuumTear? || steps[i].1.VacuumDelete? || steps[i].1.VacuumSweep?
  }

  /** While one process vacuums, no other adds or removes a generation. */
  lemma DiskStays(w: World, q: nat, step: Step, u: World, pid: nat)
    requires Inv(w) && Next(w, q, step, u) && q != pid && pid in w.processes && w.processes[pid].Vacuuming?
    ensures u.published.Keys == w.published.Keys
  {
    assert HoldsLock(w.processes[pid]);
    hide Move, TestFile, Keep, IsNextId, ProcessOk, Leases;
  }

  /** What a process has deleted, of what it was to delete. */
  ghost predicate Deleted(w: World, u: World, pid: nat) {
    && pid in w.processes && w.processes[pid].Vacuuming? && pid in u.processes && u.processes[pid].Vacuuming?
    && u.processes[pid].todo <= w.processes[pid].todo
    && u.published.Keys == w.published.Keys - (w.processes[pid].todo - u.processes[pid].todo)
  }

  lemma DeletesOne(w: World, pid: nat, step: Step, u: World)
    requires Next(w, pid, step, u) && (step.VacuumTear? || step.VacuumDelete? || step.VacuumSweep?)
    ensures Deleted(w, u, pid)
  {
    var p := w.processes[pid];
    if step.VacuumDelete? {
      var next := Vacuuming(p.todo - {step.id}, p.kept, p.vacuum);
      MoveItself(w, pid, next);
      hide Move;
      assert p.todo - next.todo == {step.id};
    } else {
      assert u.processes == w.processes;
      assert p.todo - p.todo == {};
      assert u.published.Keys == w.published.Keys;
    }
  }

  lemma MoveItself(w: World, pid: nat, p: Process)
    ensures pid in Move(w, pid, p).processes && Move(w, pid, p).processes[pid] == p
  {
  }

  lemma DeletedMore(w: World, u: World, x: World, pid: nat)
    requires Deleted(w, u, pid) && Deleted(u, x, pid)
    ensures Deleted(w, x, pid)
  {
  }

  lemma StillVacuums(w: World, q: nat, step: Step, u: World, pid: nat)
    requires Inv(w) && Next(w, q, step, u) && q != pid && pid in w.processes && w.processes[pid].Vacuuming?
    ensures Deleted(w, u, pid)
  {
    DiskStays(w, q, step, u, pid);
    Bystander(w, q, step, u, pid);
    hide Inv, Next;
  }

  /** What is gone at step n is what has been doomed and is no longer to do. */
  lemma {:induction false} Deleting(worlds: seq<World>, steps: seq<(nat, Step)>, pid: nat, e: nat, n: nat)
    requires Run(worlds, steps) && Inv(worlds[0]) && Deletes(steps, pid, e, n)
    ensures |worlds| == |steps| + 1 && Deleted(worlds[e + 1], worlds[n], pid)
  {
    RunStep(worlds, steps, n - 1);
    RunInv(worlds, steps, n - 1);
    hide Run, Inv, Next, Deleted;
    if n == e + 1 {
      Begun(worlds[e], pid, worlds[n]);
    } else {
      Deleting(worlds, steps, pid, e, n - 1);
      WhoDeletes(worlds[e + 1], worlds[n - 1], pid);
      DeletesStep(worlds[n - 1], steps[n - 1].0, steps[n - 1].1, worlds[n], pid);
      DeletedMore(worlds[e + 1], worlds[n - 1], worlds[n], pid);
    }
  }

  lemma DeletesStep(w: World, q: nat, step: Step, u: World, pid: nat)
    requires Inv(w) && Next(w, q, step, u) && pid in w.processes && w.processes[pid].Vacuuming?
    requires q == pid ==> step.VacuumTear? || step.VacuumDelete? || step.VacuumSweep?
    ensures Deleted(w, u, pid)
  {
    hide *;
    if q == pid {
      DeletesOne(w, pid, step, u);
    } else {
      StillVacuums(w, q, step, u, pid);
    }
  }

  lemma Begun(w: World, pid: nat, u: World)
    requires Inv(w) && Next(w, pid, VacuumBegin, u)
    ensures Deleted(u, u, pid)
  {
    VacuumKeeps(w, pid, u);
    Begins(w, pid, u);
    hide Inv, Next;
    assert u.published.Keys == u.published.Keys - (u.processes[pid].todo - u.processes[pid].todo);
  }

  lemma WhoDeletes(w: World, u: World, pid: nat)
    requires Deleted(w, u, pid)
    ensures pid in u.processes && u.processes[pid].Vacuuming?
  {
  }

  /** When a vacuum ends, the generations lost are exactly those that were to be lost: a lease saves its
      generation if and only if its lock was held when the scan tested it, or something else saves it. */
  lemma LostExactly(worlds: seq<World>, steps: seq<(nat, Step)>, pid: nat, a: nat, b: nat, e: nat, f: nat)
    requires Run(worlds, steps) && Inv(worlds[0]) && Vacuums(steps, pid, a, b, e)
    requires f < |steps| && Deletes(steps, pid, e, f) && steps[f] == (pid, VacuumEnd)
    ensures |worlds| == |steps| + 1
    ensures forall g :: g in worlds[e].published ==> (g !in worlds[f + 1].published <==> ToLose(worlds, steps, pid, a, b, e, g))
    ensures forall g :: g in worlds[f + 1].published ==> g in worlds[e].published
  {
    Doomed(worlds, steps, pid, a, b, e);
    Deleting(worlds, steps, pid, e, f);
    RunStep(worlds, steps, f);
    Ends(worlds[f], pid, worlds[f + 1]);
    hide *;
    ToLoseThere(worlds, steps, pid, a, b, e);
  }

  lemma Ends(w: World, pid: nat, u: World)
    requires Next(w, pid, VacuumEnd, u)
    ensures pid in w.processes && w.processes[pid].Vacuuming? && w.processes[pid].todo == {} && u.published == w.published
  {
  }

  lemma ToLoseThere(worlds: seq<World>, steps: seq<(nat, Step)>, pid: nat, a: nat, b: nat, e: nat)
    requires Vacuums(steps, pid, a, b, e) && e < |worlds|
    ensures forall g :: ToLose(worlds, steps, pid, a, b, e, g) ==> g in worlds[e].published
  {
  }
}
