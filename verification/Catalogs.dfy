/** The catalog directory and its operations, each a walk through steps of the protocol by one process
    while no other steps. What an operation promises is the state it leaves; that the steps in between
    are safe whoever else steps is the protocol's theorem. */
module Catalogs {
  import opened Wrappers
  import opened CatalogProtocol
  import RowSets

  class Catalog {
    var published: map<nat, bool>
    var current: Option<nat>
    var stages: set<(nat, nat)>
    var processes: map<nat, Process>
    var lockFiles: set<nat>
    /** What was damaged from outside: known to no one, kept for the argument. */
    var damaged: set<nat>

    function View(): World
      reads this
    {
      World(published, current, stages, processes, damaged)
    }

    /** The protocol's invariant, and a lock file for every lease. */
    ghost predicate Valid()
      reads this
    {
      Inv(View()) && forall lease :: lease in Leases(View()) ==> lease.1 in lockFiles
    }

    /** An empty catalog with the given processes, all idle. */
    constructor (pids: set<nat>)
      ensures Valid() && published == map[] && current == None && stages == {} && lockFiles == {}
      ensures processes == map pid | pid in pids :: Idle
    {
      published, current, stages, lockFiles, damaged := map[], None, {}, {}, {};
      processes := map pid | pid in pids :: Idle;
      new;
      InvStart(View());
    }

    predicate SomeoneHolds()
      reads this
    {
      exists pid :: pid in processes && HoldsLock(processes[pid])
    }

    /** A step that changes no more than where the process is. */
    method Become(pid: nat, p: Process, ghost step: Step)
      requires Valid() && pid in processes && Next(View(), pid, step, Move(View(), pid, p))
      requires p.Leased? ==> p.id in lockFiles
      modifies this`processes
      ensures Valid() && processes == Move(old(View()), pid, p).processes
      ensures pid in processes && processes[pid] == p
    {
      ghost var w := View();
      InvStep(w, pid, step, Move(w, pid, p));
      LeasesMoved(w, pid, p);
      MoveBack(w, pid, p);
      hide Inv, Next, Move;
      processes := Move(View(), pid, p).processes;
      assert View() == Move(w, pid, p) by { MoveOnly(w, pid, p); }
    }

    /** One above the greatest number on disk or in CURRENT; fails past 64 bits. */
    method NextGenerationId() returns (r: Result<nat>)
      requires Valid()
      ensures r.Ok? ==> IsNextId(View(), r.value)
      ensures r.Err? ==> forall id :: !IsNextId(View(), id)
    {
      var max: nat := if current.Some? then current.value else 0;
      var left := published.Keys;
      while left != {}
        invariant left <= published.Keys
        invariant forall g :: g in published && g !in left ==> g <= max
        invariant current.Some? ==> current.value <= max
        invariant max == 0 || max in published || current == Some(max)
        decreases |left|
      {
        var g :| g in left;
        if g > max {
          max := g;
        }
        left := left - {g};
      }
      if max + 1 > U64_MAX {
        return Err(Overflow);
      }
      return Ok(max + 1);
    }

    method BeginGeneration(pid: nat) returns (r: Result<nat>)
      requires Valid() && At(View(), pid, Idle)
      modifies this
      ensures Valid() && lockFiles == old(lockFiles)
      ensures r.Ok? ==> Next(old(View()), pid, Begin(r.value), View())
      ensures r.Ok? ==>
                && stages == old(stages) + {(r.value, pid)} && (r.value, pid) !in old(stages) && At(View(), pid, Staged(r.value))
                && published == old(published) && current == old(current)
      ensures r.Err? ==> View() == old(View())
      ensures r.Err? ==> !LockFree(View()) || forall id: nat :: IsNextId(View(), id) ==> (id, pid) in stages
    {
      if SomeoneHolds() {
        return Err(WouldBlock);
      }
      r := NextGenerationId();
      if r.Err? {
        return;
      }
      if (r.value, pid) in stages {
        OneNextId(View(), r.value);
        return Err(AlreadyExists);
      }
      ghost var w := View();
      processes := Move(View(), pid, Staged(r.value)).processes;
      stages := stages + {(r.value, pid)};
      assert Next(w, pid, Begin(r.value), View());
      InvStep(w, pid, Begin(r.value), View());
      LeasesKept(w, pid, Staged(r.value), View());
    }

    /** Verifies the stage, renames it into place and names it in CURRENT. When verification fails the
        staging directory stays behind and the lock is let go. */
    method PublishGeneration(pid: nat, verifies: bool) returns (r: Result<nat>)
      requires Valid() && pid in processes && processes[pid].Staged?
      modifies this
      ensures Valid() && lockFiles == old(lockFiles)
      ensures r.Ok? <==> verifies
      ensures processes == Move(old(View()), pid, Idle).processes
      ensures r.Ok? ==>
                && r.value == old(processes[pid].id) && r.value !in old(published)
                && published == old(published)[r.value := true] && current == Some(r.value)
                && stages == old(stages) - {(r.value, pid)}
      ensures r.Err? ==> published == old(published) && current == old(current) && stages == old(stages)
    {
      var id := processes[pid].id;
      ghost var w := View();
      assert ProcessOk(w, pid, processes[pid]);
      if !verifies {
        Become(pid, Idle, PublishFail);
        return Err(InvalidData);
      }
      if id in published {
        assert false;
      }
      RenameStage(pid);
      ghost var renamed := View();
      MoveAgain(w, pid, renamed, Idle);
      NameCurrent(pid);
      return Ok(id);
    }

    /** The first rename: the stage becomes a published generation. */
    method RenameStage(pid: nat)
      requires Valid() && pid in processes && processes[pid].Staged? && processes[pid].id !in published
      modifies this`published, this`stages, this`processes, this`damaged
      ensures Valid()
      ensures var id := old(processes[pid]).id;
              && processes == Move(old(View()), pid, Renamed(id)).processes && pid in processes && processes[pid] == Renamed(id)
              && published == old(published)[id := true] && stages == old(stages) - {(id, pid)}
    {
      ghost var w := View();
      var id := processes[pid].id;
      processes := Move(View(), pid, Renamed(id)).processes;
      published := published[id := true];
      stages := stages - {(id, pid)};
      damaged := damaged - {id};
      MoveBack(w, pid, Renamed(id));
      assert Next(w, pid, PublishRename, View());
      InvStep(w, pid, PublishRename, View());
      LeasesKept(w, pid, Renamed(id), View());
    }

    /** The second rename: CURRENT names it. */
    method NameCurrent(pid: nat)
      requires Valid() && pid in processes && processes[pid].Renamed?
      modifies this`current, this`processes
      ensures Valid() && current == Some(old(processes[pid]).id) && processes == Move(old(View()), pid, Idle).processes
    {
      ghost var w := View();
      current := Some(processes[pid].id);
      processes := Move(View(), pid, Idle).processes;
      MoveIgnoresDisk(w, View().(processes := w.processes), pid, Idle);
      InvStep(w, pid, PublishCurrent, View());
      LeasesKept(w, pid, Idle, View());
    }

    /** Removes the staging directory and lets go of the lock: the number can be begun again. */
    method AbandonGeneration(pid: nat)
      requires Valid() && pid in processes && processes[pid].Staged?
      modifies this`stages, this`processes
      ensures Valid() && Next(old(View()), pid, Abandon, View())
      ensures stages == old(stages) - {(old(processes[pid]).id, pid)} && At(View(), pid, Idle) && LockFree(View())
    {
      ghost var w := View();
      stages := stages - {(processes[pid].id, pid)};
      processes := Move(View(), pid, Idle).processes;
      InvStep(w, pid, Abandon, View());
      LeasesKept(w, pid, Idle, View());
      LockLetGo(w, pid);
    }

    /** Makes an existing, verified generation CURRENT. */
    method RollbackGeneration(pid: nat, id: nat) returns (r: Result<()>)
      requires Valid() && At(View(), pid, Idle)
      modifies this`current
      ensures Valid()
      ensures r.Ok? <==> LockFree(old(View())) && id in published && published[id]
      ensures current == if r.Ok? then Some(id) else old(current)
    {
      if SomeoneHolds() {
        return Err(WouldBlock);
      }
      if id !in published {
        return Err(NotFound);
      }
      if !published[id] {
        return Err(InvalidData);
      }
      ghost var w := View();
      current := Some(id);
      InvStep(w, pid, Rollback(id), View());
      return Ok(());
    }

    /** Resolves CURRENT and takes a shared lock on its generation. */
    method AcquireLease(pid: nat) returns (r: Result<nat>)
      requires Valid() && At(View(), pid, Idle)
      modifies this`processes, this`lockFiles
      ensures Valid()
      ensures r.Ok? <==> current.Some?
      ensures r.Ok? ==> current == Some(r.value) && At(View(), pid, Leased(r.value)) && r.value in published
      ensures r.Err? ==> View() == old(View()) && lockFiles == old(lockFiles)
    {
      CurrentThere(View(), pid);
      hide Inv, Next, Move, Leases, Unwatch;
      if current.None? {
        return Err(NotFound);
      }
      var id := current.value;
      if id !in published {
        return Err(NotFound);
      }
      CanResolve(View(), pid);
      Become(pid, Resolved(id), LeaseResolve);
      lockFiles := lockFiles + {id};
      CanLock(View(), pid);
      Become(pid, Leased(id), LeaseLock);
      return Ok(id);
    }

    /** Tests one reader lock file. */
    method TestLock(pid: nat, id: nat) returns (v: Vacuum)
      requires Valid() && pid in processes && processes[pid].Scanning? && id in processes[pid].todo
      modifies this`processes
      ensures Valid()
      ensures var p := old(processes[pid]);
              && v == TestFile(old(View()), p.vacuum, id)
              && processes == Move(old(View()), pid, Scanning(p.todo - {id}, v)).processes
    {
      ghost var before := View();
      var p := processes[pid];
      v := TestFile(View(), p.vacuum, id);
      processes := Move(View(), pid, Scanning(p.todo - {id}, v)).processes;
      InvStep(before, pid, ScanOne(id), View());
      LeasesKept(before, pid, Scanning(p.todo - {id}, v), View());
    }

    method EndScan(pid: nat)
      requires Valid() && pid in processes && processes[pid].Scanning? && processes[pid].todo == {}
      modifies this`processes
      ensures Valid() && processes == Move(old(View()), pid, Scanned(old(processes[pid]).vacuum)).processes
    {
      ghost var before := View();
      var v := processes[pid].vacuum;
      processes := Move(View(), pid, Scanned(v)).processes;
      InvStep(before, pid, ScanEnd, View());
      LeasesKept(before, pid, Scanned(v), View());
    }

    /** Lists the reader lock files to test. */
    method StartScan(pid: nat, retain: nat, protect: set<nat>) returns (v: Vacuum)
      requires Valid() && At(View(), pid, Idle)
      modifies this`processes
      ensures Valid() && v == Vacuum(retain, protect, {}, Leases(old(View())))
      ensures processes == Move(old(View()), pid, Scanning(lockFiles, v)).processes
    {
      ghost var w := View();
      var watched := set q | q in processes && processes[q].Leased? :: (q, processes[q].id);
      assert watched == Leases(w);
      v := Vacuum(retain, protect, {}, watched);
      processes := Move(View(), pid, Scanning(lockFiles, v)).processes;
      InvStep(w, pid, ScanStart(retain, protect, lockFiles), View());
      LeasesKept(w, pid, Scanning(lockFiles, v), View());
    }

    /** Tests every reader lock file, one at a time. */
    method ScanLeases(pid: nat, retain: nat, protect: set<nat>)
      requires Valid() && At(View(), pid, Idle)
      modifies this`processes
      ensures Valid()
      ensures processes == Move(old(View()), pid,
                Scanned(Vacuum(retain, protect, LeasedIds(old(View())), Leases(old(View()))))).processes
    {
      ghost var w := View();
      hide Inv, Next, Move, Leases, LeasedIds, LockHolders, TestFile;
      AtIdle(w, pid);
      FilesOfLeases(lockFiles, w);
      var todo := lockFiles;
      var v := StartScan(pid, retain, protect);
      ghost var start := v;
      assert FoundSoFar(w, lockFiles - todo) == {} by { NoneFound(w, lockFiles - todo); }
      while todo != {}
        invariant Valid() && todo <= lockFiles
        invariant v == start.(found := FoundSoFar(w, lockFiles - todo))
        invariant processes == Move(w, pid, Scanning(todo, v)).processes
        decreases |todo|
      {
        var id :| id in todo;
        ghost var before := View();
        MoveBack(w, pid, Scanning(todo, v));
        HoldersAre(w, pid, Scanning(todo, v), before, id);
        TestedMore(before, start, v, w, id);
        v := TestLock(pid, id);
        FoundMore(w, lockFiles, todo, id);
        todo := todo - {id};
        MoveAgain(w, pid, before, Scanning(todo, v));
      }
      AllFound(w, lockFiles - todo);
      ghost var before := View();
      MoveBack(w, pid, Scanning(todo, v));
      EndScan(pid);
      MoveAgain(w, pid, before, Scanned(v));
    }

    /** Deletes every generation but those kept, one after the other, and all staging directories. It
        refuses while another writer holds the lock, without a verified CURRENT, and when something to be
        kept does not exist; then nothing is deleted. */
    method VacuumGenerations(pid: nat) returns (r: Result<()>)
      requires Valid() && pid in processes && processes[pid].Scanned?
      modifies this`published, this`stages, this`processes
      ensures Valid() && processes == Move(old(View()), pid, Idle).processes
      ensures var v := old(processes[pid]).vacuum;
              && (r.Ok? <==>
                    && LockFree(old(View())) && current.Some? && old(published)[current.value]
                    && v.protect + v.found <= old(published).Keys)
              && (r.Ok? ==> published == Restrict(old(published), Keep(old(View()), v)) && stages == {})
      ensures r.Err? ==> published == old(published) && stages == old(stages)
    {
      ghost var w := View();
      var v := processes[pid].vacuum;
      var doomed := PlanVacuum(pid);
      if doomed.Err? {
        return Err(doomed.error);
      }
      ghost var keep := Keep(w, v);
      ghost var planned := View();
      MoveBack(w, pid, Vacuuming(doomed.value, keep, v));
      hide Inv, Next, Move, Keep;
      DeleteDoomed(pid, doomed.value);
      MoveAgain(w, pid, planned, Vacuuming({}, keep, v));
      RestrictKept(w.published, keep, doomed.value);
      ghost var deleted := View();
      MoveBack(w, pid, Vacuuming({}, keep, v));
      Sweep(pid);
      MoveAgain(w, pid, deleted, Idle);
      return Ok(());
    }

    /** Deletes what is doomed, one generation at a time. */
    method DeleteDoomed(pid: nat, doomed: set<nat>)
      requires Valid() && pid in processes && processes[pid].Vacuuming? && processes[pid].todo == doomed
      modifies this`published, this`processes
      ensures Valid() && published == old(published) - doomed
      ensures var p := old(processes[pid]);
              processes == Move(old(View()), pid, Vacuuming({}, p.kept, p.vacuum)).processes
    {
      ghost var w := View();
      ghost var p := processes[pid];
      var todo := doomed;
      MoveSame(w, pid);
      hide Inv, Next, Move;
      RemoveNone(w.published, doomed - todo);
      while todo != {}
        invariant Valid() && todo <= doomed && published == w.published - (doomed - todo)
        invariant processes == Move(w, pid, Vacuuming(todo, p.kept, p.vacuum)).processes
        decreases |todo|
      {
        var id :| id in todo;
        ghost var before := View();
        MoveBack(w, pid, Vacuuming(todo, p.kept, p.vacuum));
        DeleteOne(pid, id);
        RemoveMore(w.published, doomed, todo, id);
        todo := todo - {id};
        MoveAgain(w, pid, before, Vacuuming(todo, p.kept, p.vacuum));
      }
      assert doomed - todo == doomed;
    }

    /** Takes the lock and settles what to delete. */
    method PlanVacuum(pid: nat) returns (r: Result<set<nat>>)
      requires Valid() && pid in processes && processes[pid].Scanned?
      modifies this`processes
      ensures Valid()
      ensures var v := old(processes[pid]).vacuum;
              && (r.Ok? <==>
                    && LockFree(old(View())) && current.Some? && published[current.value]
                    && v.protect + v.found <= published.Keys)
              && (r.Ok? ==>
                    && r.value == published.Keys - Keep(old(View()), v)
                    && processes == Move(old(View()), pid, Vacuuming(r.value, Keep(old(View()), v), v)).processes)
      ensures r.Err? ==> processes == Move(old(View()), pid, Idle).processes
    {
      ghost var w := View();
      var v := processes[pid].vacuum;
      NotHolding(w, pid);
      if SomeoneHolds() || current.None? || !published[current.value] || !(v.protect + v.found <= published.Keys) {
        processes := Move(View(), pid, Idle).processes;
        InvStep(w, pid, Crash, View());
        LeasesKept(w, pid, Idle, View());
        return Err(if SomeoneHolds() then WouldBlock else NotFound);
      }
      var newest := NewestOf(published.Keys, v.retain);
      var keep := {current.value} + v.protect + v.found + newest;
      assert keep == Keep(w, v);
      var todo := published.Keys - keep;
      processes := Move(View(), pid, Vacuuming(todo, keep, v)).processes;
      InvStep(w, pid, VacuumBegin, View());
      LeasesKept(w, pid, Vacuuming(todo, keep, v), View());
      return Ok(todo);
    }

    method DeleteOne(pid: nat, id: nat)
      requires Valid() && pid in processes && processes[pid].Vacuuming? && id in processes[pid].todo
      modifies this`published, this`processes
      ensures Valid() && published == old(published) - {id}
      ensures var p := old(processes[pid]);
              processes == Move(old(View()), pid, Vacuuming(p.todo - {id}, p.kept, p.vacuum)).processes
    {
      ghost var before := View();
      var p := processes[pid];
      var next := Vacuuming(p.todo - {id}, p.kept, p.vacuum);
      CanDelete(before, pid, id);
      hide Inv, Next, Move;
      published := published - {id};
      processes := Move(View(), pid, next).processes;
      MoveIgnoresDisk(before, View().(processes := before.processes), pid, next);
      assert View() == Move(before, pid, next).(published := before.published - {id}) by { MoveOnly(before, pid, next); }
      InvStep(before, pid, VacuumDelete(id), View());
      LeasesKept(before, pid, next, View());
    }

    /** Removes every staging directory, all of them abandoned, and lets go of the lock. */
    method Sweep(pid: nat)
      requires Valid() && pid in processes && processes[pid].Vacuuming? && processes[pid].todo == {}
      modifies this`stages, this`processes
      ensures Valid() && stages == {} && processes == Move(old(View()), pid, Idle).processes
    {
      ghost var w := View();
      while stages != {}
        invariant Valid() && processes == w.processes
        decreases |stages|
      {
        var stage :| stage in stages;
        ghost var before := View();
        stages := stages - {stage};
        InvStep(before, pid, VacuumSweep(stage), View());
      }
      ghost var before := View();
      processes := Move(View(), pid, Idle).processes;
      InvStep(before, pid, VacuumEnd, View());
      LeasesKept(before, pid, Idle, View());
      MoveIgnoresDisk(w, before, pid, Idle);
    }

    /** Vacuums, keeping what the reader locks show to be leased. */
    method VacuumWithReaderLeases(pid: nat, retain: nat, protect: set<nat>) returns (r: Result<()>)
      requires Valid() && At(View(), pid, Idle)
      modifies this`published, this`stages, this`processes
      ensures Valid()
      ensures r.Ok? <==>
                && LockFree(old(View())) && current.Some? && old(published)[current.value]
                && protect + LeasedIds(old(View())) <= old(published).Keys
      ensures r.Ok? ==>
                && published == Restrict(old(published), Keep(old(View()), Vacuum(retain, protect, LeasedIds(old(View())), {})))
                && stages == {}
      ensures r.Err? ==> published == old(published) && stages == old(stages)
    {
      ghost var w := View();
      ScanLeases(pid, retain, protect);
      SameLocks(w, pid, processes[pid], View());
      r := VacuumGenerations(pid);
    }

    /** Makes the newest verified generation CURRENT, if it is not, and sweeps abandoned stages without
        deleting any generation. */
    method RecoverCatalog(pid: nat) returns (r: Result<nat>)
      requires Valid() && At(View(), pid, Idle)
      modifies this`current, this`published, this`stages, this`processes
      ensures Valid()
      ensures published == old(published)
      ensures r.Ok? ==>
                && current == Some(r.value) && r.value in published && published[r.value] && stages == {}
                && forall g :: g in published && published[g] ==> g <= r.value
      ensures r.Ok? <==> LockFree(old(View())) && exists g :: g in published && published[g]
    {
      ghost var w := View();
      var chosen := NewestVerified(published);
      if chosen.None? {
        return Err(NotFound);
      }
      var id := chosen.value;
      var activated := Activate(pid, id);
      if activated.Err? {
        return Err(activated.error);
      }
      ghost var scanned := View();
      var vacuumed := VacuumGenerations(pid);
      if vacuumed.Err? {
        return Err(vacuumed.error);
      }
      KeepsAll(scanned, scanned.processes[pid].vacuum);
      return Ok(id);
    }

    /** Rolls forward or back to the chosen generation, unless it is CURRENT already; what follows is a
        vacuum that retains everything. */
    method Activate(pid: nat, id: nat) returns (r: Result<()>)
      requires Valid() && At(View(), pid, Idle) && id in published && published[id]
      requires forall g :: g in published && published[g] ==> g <= id
      modifies this`current, this`processes
      ensures Valid()
      ensures r.Ok? ==> current == Some(id) && At(View(), pid, Scanned(Vacuum(U64_MAX, {}, {}, {})))
      ensures LockFree(View()) <==> LockFree(old(View()))
      ensures r.Err? ==> !LockFree(old(View()))
    {
      ghost var w := View();
      CurrentThere(w, pid);
      CanChoose(w, pid, id);
      hide Inv, Next, Move, Leases, Unwatch, LockFree, HoldsLock;
      Become(pid, Recovering(id), RecoverChoose(id));
      SameLocks(w, pid, Recovering(id), View());
      r := Settle(pid);
    }

    /** The chosen generation becomes CURRENT; that needs the lock unless it is CURRENT already. */
    method Settle(pid: nat) returns (r: Result<()>)
      requires Valid() && pid in processes && processes[pid].Recovering?
      requires processes[pid].chosen in published && published[processes[pid].chosen]
      modifies this`current, this`processes
      ensures Valid()
      ensures r.Ok? ==> current == Some(old(processes[pid].chosen)) && At(View(), pid, Scanned(Vacuum(U64_MAX, {}, {}, {})))
      ensures LockFree(View()) <==> LockFree(old(View()))
      ensures r.Err? ==> !LockFree(old(View()))
    {
      ghost var w := View();
      CanSkip(w, pid);
      var v := Vacuum(U64_MAX, {}, {}, {});
      hide Inv, Next, Move, Leases, Unwatch, LockFree;
      SomeHolder(w);
      if current == Some(processes[pid].chosen) {
        Become(pid, Scanned(v), RecoverSkip);
      } else if SomeoneHolds() {
        Become(pid, Idle, Crash);
        SameLocks(w, pid, Idle, View());
        return Err(WouldBlock);
      } else {
        RollForward(pid, v);
      }
      SameLocks(w, pid, Scanned(v), View());
      return Ok(());
    }

    method RollForward(pid: nat, v: Vacuum)
      requires Valid() && pid in processes && processes[pid].Recovering? && LockFree(View()) && v == Vacuum(U64_MAX, {}, {}, {})
      requires processes[pid].chosen in published && published[processes[pid].chosen]
      modifies this`current, this`processes
      ensures Valid() && current == Some(old(processes[pid]).chosen)
      ensures processes == Move(old(View()), pid, Scanned(v)).processes && pid in processes && processes[pid] == Scanned(v)
    {
      ghost var w := View();
      current := Some(processes[pid].chosen);
      processes := Move(View(), pid, Scanned(v)).processes;
      MoveIgnoresDisk(w, View().(processes := w.processes), pid, Scanned(v));
      MoveBack(w, pid, Scanned(v));
      assert Next(w, pid, RecoverRollback, View());
      InvStep(w, pid, RecoverRollback, View());
      LeasesKept(w, pid, Scanned(v), View());
    }
  }

  /** The last `n` of the numbers in order. */
  method NewestOf(ids: set<nat>, n: nat) returns (newest: set<nat>)
    ensures newest == Newest(ids, n)
  {
    newest := {};
    var left := ids;
    while left != {} && |newest| < n
      invariant left <= ids && newest == ids - left
      invariant forall x, y :: x in newest && y in left ==> y < x
      invariant |newest| <= n
      decreases |left|
    {
      var g := Greatest(left);
      left := left - {g};
      newest := newest + {g};
    }
    forall g | g in ids ensures g in newest <==> |Newer(ids, g)| < n {
      if g in newest {
        RowSets.SubsetSize(Newer(ids, g) + {g}, newest);
      } else {
        RowSets.SubsetSize(newest, Newer(ids, g));
      }
    }
  }

  method Greatest(ids: set<nat>) returns (g: nat)
    requires ids != {}
    ensures g in ids && forall x :: x in ids ==> x <= g
  {
    g :| g in ids;
    var rest := ids - {g};
    while rest != {}
      invariant rest <= ids && g in ids
      invariant forall x :: x in ids && x !in rest ==> x <= g
      decreases |rest|
    {
      var x :| x in rest;
      if x > g {
        g := x;
      }
      rest := rest - {x};
    }
  }

  /** The newest generation that verifies, looking from the newest down. */
  method NewestVerified(published: map<nat, bool>) returns (chosen: Option<nat>)
    ensures chosen.None? <==> !exists g :: g in published && published[g]
    ensures chosen.Some? ==>
              && chosen.value in published && published[chosen.value]
              && forall g :: g in published && published[g] ==> g <= chosen.value
  {
    var left := published.Keys;
    while left != {}
      invariant left <= published.Keys
      invariant forall g :: g in published && g !in left ==> !published[g]
      decreases |left|
    {
      var g := Greatest(left);
      if published[g] {
        return Some(g);
      }
      left := left - {g};
    }
    return None;
  }

  ghost function LeasedIds(w: World): set<nat> {
    set pid | pid in w.processes && w.processes[pid].Leased? :: w.processes[pid].id
  }

  function Restrict(published: map<nat, bool>, keep: set<nat>): map<nat, bool> {
    map g | g in published && g in keep :: published[g]
  }

  lemma OneNextId(w: World, id: nat)
    requires IsNextId(w, id)
    ensures forall other :: IsNextId(w, other) ==> other == id
  {
  }

  /** The one holder of the lock lets it go. */
  lemma LockLetGo(w: World, pid: nat)
    requires Inv(w) && pid in w.processes && HoldsLock(w.processes[pid])
    ensures LockFree(Move(w, pid, Idle))
  {
    forall q | q in w.processes && q != pid ensures !HoldsLock(w.processes[q]) {
      assert OneHolder(w);
    }
  }

  lemma LeasesKept(w: World, pid: nat, p: Process, u: World)
    requires pid in w.processes && !p.Leased? && u.processes == Move(w, pid, p).processes
    ensures Leases(u) <= Leases(w)
  {
    forall q | q in u.processes && u.processes[q].Leased? ensures (q, u.processes[q].id) in Leases(w) {
      if q != pid {
        Moved(w, pid, p, q);
        assert w.processes[q] == u.processes[q];
      }
    }
  }

  lemma MoveBack(w: World, pid: nat, p: Process)
    requires pid in w.processes
    ensures pid in Move(w, pid, p).processes && Move(w, pid, p).processes[pid] == p
  {
  }

  /** Moving on from a move is one move from the start, when nothing was leased. */
  lemma MoveAgain(w: World, pid: nat, before: World, b: Process)
    requires pid in w.processes && !w.processes[pid].Leased? && pid in before.processes && !before.processes[pid].Leased?
    requires before.processes == Move(w, pid, before.processes[pid]).processes
    ensures Move(before, pid, b).processes == Move(w, pid, b).processes
    ensures forall u: World :: u.processes == before.processes ==> Move(u, pid, b).processes == Move(w, pid, b).processes
  {
  }

  /** While only the scan moves, the holders of a lock are those there were. */
  lemma HoldersAre(w: World, pid: nat, p: Process, u: World, id: nat)
    requires pid in w.processes && !w.processes[pid].Leased? && !p.Leased? && u.processes == Move(w, pid, p).processes
    ensures LockHolders(u, id) <= Leases(w) && (LockHolders(u, id) != {} <==> id in LeasedIds(w))
  {
    if id in LeasedIds(w) {
      var q :| q in w.processes && w.processes[q].Leased? && w.processes[q].id == id;
      Moved(w, pid, p, q);
      assert (q, id) in LockHolders(u, id);
    }
    forall lease | lease in LockHolders(u, id) ensures lease in Leases(w) && id in LeasedIds(w) {
      Moved(w, pid, p, lease.0);
      assert w.processes[lease.0] == Leased(id);
    }
  }

  /** A test of the scan finds a leased generation, and watches no more than was watched. */
  lemma TestedMore(u: World, start: Vacuum, v: Vacuum, w: World, id: nat)
    requires v == start.(found := v.found) && start.watched == Leases(w) && LockHolders(u, id) <= Leases(w)
    requires LockHolders(u, id) != {} <==> id in LeasedIds(w)
    ensures TestFile(u, v, id) == start.(found := v.found + if id in LeasedIds(w) then {id} else {})
  {
    assert v.watched + LockHolders(u, id) == v.watched;
  }

  lemma AtIdle(w: World, pid: nat)
    requires At(w, pid, Idle)
    ensures pid in w.processes && w.processes[pid] == Idle
  {
  }

  ghost function FoundSoFar(w: World, tested: set<nat>): set<nat> {
    LeasedIds(w) * tested
  }

  lemma NoneFound(w: World, tested: set<nat>)
    requires tested == {}
    ensures FoundSoFar(w, tested) == {}
  {
  }

  lemma FoundMore(w: World, files: set<nat>, todo: set<nat>, id: nat)
    requires id in todo && todo <= files
    ensures FoundSoFar(w, files - (todo - {id})) ==
            FoundSoFar(w, files - todo) + if id in LeasedIds(w) then {id} else {}
  {
  }

  lemma AllFound(w: World, tested: set<nat>)
    requires LeasedIds(w) <= tested
    ensures FoundSoFar(w, tested) == LeasedIds(w)
  {
  }

  lemma FilesOfLeases(files: set<nat>, w: World)
    requires forall lease :: lease in Leases(w) ==> lease.1 in files
    ensures LeasedIds(w) <= files
  {
    forall id | id in LeasedIds(w) ensures id in files {
      var q :| q in w.processes && w.processes[q].Leased? && w.processes[q].id == id;
      assert (q, id) in Leases(w);
    }
  }

  lemma NotHolding(w: World, pid: nat)
    requires Inv(w) && pid in w.processes && w.processes[pid].Scanned?
    ensures w.current.Some? ==> w.current.value in w.published
  {
  }

  lemma SameLocks(w: World, pid: nat, p: Process, u: World)
    requires pid in w.processes && !HoldsLock(w.processes[pid]) && !HoldsLock(p) && u.processes == Move(w, pid, p).processes
    ensures LockFree(u) <==> LockFree(w)
  {
    forall q | q in w.processes && q != pid ensures HoldsLock(u.processes[q]) == HoldsLock(w.processes[q]) {
      Moved(w, pid, p, q);
    }
  }

  lemma KeepsAll(w: World, v: Vacuum)
    requires Inv(w) && v.retain == U64_MAX
    ensures Restrict(w.published, Keep(w, v)) == w.published
  {
    RowSets.SpanSize(1, U64_MAX);
    forall g | g in w.published ensures g in Keep(w, v) {
      assert w.published.Keys <= RowSets.Span(1, U64_MAX);
      RowSets.SubsetSize(w.published.Keys, RowSets.Span(1, U64_MAX));
      RowSets.SubsetSize(Newer(w.published.Keys, g) + {g}, w.published.Keys);
      assert g in Newest(w.published.Keys, v.retain);
    }
  }

  lemma MoveIgnoresDisk(w: World, u: World, pid: nat, p: Process)
    ensures w.processes == u.processes ==> Move(w, pid, p).processes == Move(u, pid, p).processes
  {
  }

  lemma RemoveNone(published: map<nat, bool>, ids: set<nat>)
    ensures ids == {} ==> published - ids == published
  {
  }

  lemma RemoveMore(published: map<nat, bool>, doomed: set<nat>, todo: set<nat>, id: nat)
    requires id in todo && todo <= doomed
    ensures published - (doomed - todo) - {id} == published - (doomed - (todo - {id}))
  {
  }

  lemma RestrictKept(published: map<nat, bool>, keep: set<nat>, todo: set<nat>)
    requires todo == published.Keys - keep
    ensures published - todo == Restrict(published, keep)
  {
  }

  lemma MoveOnly(w: World, pid: nat, p: Process)
    ensures Move(w, pid, p) == w.(processes := Move(w, pid, p).processes)
  {
  }

  lemma LeasesMoved(w: World, pid: nat, p: Process)
    requires pid in w.processes
    ensures forall lease :: lease in Leases(Move(w, pid, p)) ==> lease in Leases(w) || (p.Leased? && lease == (pid, p.id))
  {
    var u := Move(w, pid, p);
    forall lease | lease in Leases(u) ensures lease in Leases(w) || (p.Leased? && lease == (pid, p.id)) {
      if lease.0 != pid {
        Moved(w, pid, p, lease.0);
        assert w.processes[lease.0] == u.processes[lease.0];
      }
    }
  }

  lemma CurrentThere(w: World, pid: nat)
    requires Inv(w) && At(w, pid, Idle)
    ensures w.current.Some? ==> w.current.value in w.published
    ensures pid in w.processes && w.processes[pid] == Idle
  {
  }

  lemma CanResolve(w: World, pid: nat)
    requires At(w, pid, Idle) && w.current.Some? && w.current.value in w.published
    ensures Next(w, pid, LeaseResolve, Move(w, pid, Resolved(w.current.value)))
  {
  }

  lemma CanDelete(w: World, pid: nat, id: nat)
    requires pid in w.processes && w.processes[pid].Vacuuming? && id in w.processes[pid].todo
    ensures var p := w.processes[pid];
            Next(w, pid, VacuumDelete(id), Move(w, pid, Vacuuming(p.todo - {id}, p.kept, p.vacuum)).(published := w.published - {id}))
  {
  }

  lemma CanLock(w: World, pid: nat)
    requires pid in w.processes && w.processes[pid].Resolved?
    ensures Next(w, pid, LeaseLock, Move(w, pid, Leased(w.processes[pid].id)))
  {
  }

  lemma CanChoose(w: World, pid: nat, id: nat)
    requires At(w, pid, Idle) && id in w.published && w.published[id] && forall g :: g in w.published && w.published[g] ==> g <= id
    ensures Next(w, pid, RecoverChoose(id), Move(w, pid, Recovering(id)))
  {
  }

  lemma CanSkip(w: World, pid: nat)
    requires pid in w.processes && w.processes[pid].Recovering?
    ensures w.current == Some(w.processes[pid].chosen) ==>
              Next(w, pid, RecoverSkip, Move(w, pid, Scanned(Vacuum(U64_MAX, {}, {}, {}))))
    ensures Next(w, pid, Crash, Move(w, pid, Idle))
  {
  }

  lemma SomeHolder(w: World)
    ensures LockFree(w) <==> !exists pid :: pid in w.processes && HoldsLock(w.processes[pid])
  {
  }
}
