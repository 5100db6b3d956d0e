/** The generation catalog as interleaved steps of any number of processes, with crashes. */
module CatalogProtocol {
  import opened Wrappers
  import RowSets

  /** Where a process is. Staged, Renamed and Vacuuming hold the writer lock. */
  datatype Process =
    | Idle
    | Staged(id: nat)                                      // began a generation
    | Renamed(id: nat)                                     // published it; CURRENT not yet replaced
    | Scanning(todo: set<nat>, vacuum: Vacuum)             // testing reader locks, one at a time
    | Scanned(vacuum: Vacuum)                              // knows the leases; no lock yet
    | Vacuuming(todo: set<nat>, kept: set<nat>, vacuum: Vacuum)
    | Recovering(chosen: nat)                              // found the newest verified generation
    | Resolved(id: nat)                                    // read CURRENT; reader lock not yet taken
    | Leased(id: nat)

  /** A vacuum request. `watched` is a history variable: the leases, as (process, generation), held without a
      break since its scan began or tested their lock. */
  datatype Vacuum = Vacuum(retain: nat, protect: set<nat>, found: set<nat>, watched: set<(nat, nat)>)

  /** `published` tells for each generation on disk whether its bytes verify; `damaged` remembers which
      were damaged from outside. A staging directory is named by its ID and process. */
  datatype World = World(published: map<nat, bool>, current: Option<nat>, stages: set<(nat, nat)>,
                         processes: map<nat, Process>, damaged: set<nat>)

  predicate HoldsLock(p: Process) {
    p.Staged? || p.Renamed? || p.Vacuuming?
  }

  ghost predicate LockFree(w: World) {
    forall pid :: pid in w.processes ==> !HoldsLock(w.processes[pid])
  }

  predicate At(w: World, pid: nat, p: Process) {
    pid in w.processes && w.processes[pid] == p
  }

  /** Above every generation on disk and above CURRENT. */
  ghost predicate IsNextId(w: World, id: nat) {
    && 0 < id <= U64_MAX
    && (forall g :: g in w.published ==> g < id)
    && (w.current.Some? ==> w.current.value < id)
    && (id == 1 || id - 1 in w.published || w.current == Some(id - 1))
  }

  /** The n newest generations. */
  ghost function Newest(ids: set<nat>, n: nat): set<nat> {
    set g | g in ids && |Newer(ids, g)| < n
  }

  ghost function Newer(ids: set<nat>, g: nat): set<nat> {
    set h | h in ids && g < h
  }

  /** What a vacuum keeps: CURRENT, what was asked for, what was leased, and the newest. */
  ghost function Keep(w: World, v: Vacuum): set<nat> {
    (if w.current.Some? then {w.current.value} else {}) + v.protect + v.found + Newest(w.published.Keys, v.retain)
  }

  /** A process moves, and a lease it lets go is no longer watched by anyone. */
  function Move(w: World, pid: nat, p: Process): World {
    w.(processes := map q | q in w.processes.Keys + {pid} ::
         if q == pid then p else if q in w.processes then Unwatch(w.processes[q], w, pid, p) else Idle)
  }

  function Unwatch(q: Process, w: World, pid: nat, p: Process): Process {
    if pid in w.processes && w.processes[pid].Leased? && p != w.processes[pid] then Forget(q, (pid, w.processes[pid].id)) else q
  }

  function Forget(q: Process, lease: (nat, nat)): Process {
    match q
    case Scanning(todo, v) => Scanning(todo, v.(watched := v.watched - {lease}))
    case Scanned(v) => Scanned(v.(watched := v.watched - {lease}))
    case Vacuuming(todo, kept, v) => Vacuuming(todo, kept, v.(watched := v.watched - {lease}))
    case _ => q
  }

  /** The leases held now. */
  ghost function Leases(w: World): set<(nat, nat)> {
    set pid | pid in w.processes && w.processes[pid].Leased? :: (pid, w.processes[pid].id)
  }

  /** The leases on a generation: they share its reader lock. */
  function LockHolders(w: World, id: nat): set<(nat, nat)> {
    set q | q in w.processes && w.processes[q] == Leased(id) :: (q, id)
  }

  /** Testing a reader lock finds the generation leased exactly when someone holds the lock. */
  function TestFile(w: World, v: Vacuum, id: nat): Vacuum {
    if LockHolders(w, id) == {} then v else v.(found := v.found + {id}, watched := v.watched + LockHolders(w, id))
  }

  datatype Step =
    | Begin(id: nat)
    | PublishRename
    | PublishCurrent
    | PublishFail
    | Abandon
    | Rollback(id: nat)
    | ScanStart(retain: nat, protect: set<nat>, files: set<nat>)
    | ScanOne(id: nat)
    | ScanEnd
    | VacuumBegin
    | VacuumTear(id: nat)
    | VacuumDelete(id: nat)
    | VacuumSweep(stage: (nat, nat))
    | VacuumEnd
    | RecoverChoose(id: nat)
    | RecoverRollback
    | RecoverSkip
    | LeaseResolve
    | LeaseLock
    | LeaseRelease
    | Crash
    | Damage(id: nat)

  /** One step of process pid. */
  ghost predicate Next(w: World, pid: nat, step: Step, u: World) {
    match step
    case Begin(id) =>
      At(w, pid, Idle) && LockFree(w) && IsNextId(w, id) && (id, pid) !in w.stages
      && u == Move(w, pid, Staged(id)).(stages := w.stages + {(id, pid)})
    case PublishRename =>
      pid in w.processes && w.processes[pid].Staged?
      && var id := w.processes[pid].id;
      id !in w.published
      && u == Move(w, pid, Renamed(id)).(published := w.published[id := true], stages := w.stages - {(id, pid)}, damaged := w.damaged - {id})
    case PublishCurrent =>
      pid in w.processes && w.processes[pid].Renamed?
      && u == Move(w, pid, Idle).(current := Some(w.processes[pid].id))
    case PublishFail =>
      // Verification or a rename failed: the lock is let go, the staging directory stays.
      pid in w.processes && (w.processes[pid].Staged? || w.processes[pid].Renamed?)
      && u == Move(w, pid, Idle)
    case Abandon =>
      pid in w.processes && w.processes[pid].Staged?
      && u == Move(w, pid, Idle).(stages := w.stages - {(w.processes[pid].id, pid)})
    case Rollback(id) =>
      At(w, pid, Idle) && LockFree(w) && id in w.published && w.published[id]
      && u == w.(current := Some(id))
    case ScanStart(retain, protect, files) =>
      // The lock files there are include those of every lease held.
      At(w, pid, Idle) && (forall lease :: lease in Leases(w) ==> lease.1 in files)
      && u == Move(w, pid, Scanning(files, Vacuum(retain, protect, {}, Leases(w))))
    case ScanOne(id) =>
      pid in w.processes && w.processes[pid].Scanning? && id in w.processes[pid].todo
      && u == Move(w, pid, Scanning(w.processes[pid].todo - {id}, TestFile(w, w.processes[pid].vacuum, id)))
    case ScanEnd =>
      pid in w.processes && w.processes[pid].Scanning? && w.processes[pid].todo == {}
      && u == Move(w, pid, Scanned(w.processes[pid].vacuum))
    case VacuumBegin =>
      pid in w.processes && w.processes[pid].Scanned? && LockFree(w)
      && w.current.Some? && w.current.value in w.published && w.published[w.current.value]
      && var v := w.processes[pid].vacuum;
      v.protect + v.found <= w.published.Keys
      && u == Move(w, pid, Vacuuming(w.published.Keys - Keep(w, v), Keep(w, v), v))
    case VacuumTear(id) =>
      // A directory is removed file by file.
      pid in w.processes && w.processes[pid].Vacuuming? && id in w.processes[pid].todo && id in w.published
      && u == w.(published := w.published[id := false])
    case VacuumDelete(id) =>
      pid in w.processes && w.processes[pid].Vacuuming? && id in w.processes[pid].todo
      && var p := w.processes[pid];
      u == Move(w, pid, Vacuuming(p.todo - {id}, p.kept, p.vacuum)).(published := w.published - {id})
    case VacuumSweep(stage) =>
      pid in w.processes && w.processes[pid].Vacuuming? && w.processes[pid].todo == {}
      && u == w.(stages := w.stages - {stage})
    case VacuumEnd =>
      pid in w.processes && w.processes[pid].Vacuuming? && w.processes[pid].todo == {}
      && u == Move(w, pid, Idle)
    case RecoverChoose(id) =>
      At(w, pid, Idle) && id in w.published && w.published[id]
      && (forall g :: g in w.published && w.published[g] ==> g <= id)
      && u == Move(w, pid, Recovering(id))
    case RecoverRollback =>
      pid in w.processes && w.processes[pid].Recovering? && LockFree(w)
      && var id := w.processes[pid].chosen;
      id in w.published && w.published[id]
      && u == Move(w, pid, Scanned(Vacuum(U64_MAX, {}, {}, {}))).(current := Some(id))
    case RecoverSkip =>
      pid in w.processes && w.processes[pid].Recovering? && w.current == Some(w.processes[pid].chosen)
      && u == Move(w, pid, Scanned(Vacuum(U64_MAX, {}, {}, {})))
    case LeaseResolve =>
      At(w, pid, Idle) && w.current.Some? && w.current.value in w.published
      && u == Move(w, pid, Resolved(w.current.value))
    case LeaseLock =>
      pid in w.processes && w.processes[pid].Resolved?
      && u == Move(w, pid, Leased(w.processes[pid].id))
    case LeaseRelease =>
      pid in w.processes && w.processes[pid].Leased?
      && u == Move(w, pid, Idle)
    case Crash =>
      pid in w.processes
      && u == Move(w, pid, Idle)
    case Damage(id) =>
      id in w.published
      && u == w.(published := w.published[id := false], damaged := w.damaged + {id})
  }

  // -------------------------------------------------------------------------------- invariants

  ghost predicate OneHolder(w: World) {
    forall p, q :: p in w.processes && q in w.processes && HoldsLock(w.processes[p]) && HoldsLock(w.processes[q]) ==> p == q
  }

  /** CURRENT names a generation that is there, and that verifies unless it was damaged. */
  ghost predicate CurrentOk(w: World) {
    w.current.Some? ==> w.current.value in w.published && (w.published[w.current.value] || w.current.value in w.damaged)
  }

  ghost predicate IdsOk(w: World) {
    forall g :: g in w.published ==> 0 < g <= U64_MAX
  }

  /** Watched leases are held, and the scan has found them or has them still to test. */
  ghost predicate WatchOk(w: World, v: Vacuum, todo: set<nat>) {
    forall lease :: lease in v.watched ==> At(w, lease.0, Leased(lease.1)) && (lease.1 in todo || lease.1 in v.found)
  }

  ghost predicate ProcessOk(w: World, pid: nat, p: Process) {
    match p
    case Staged(id) =>
      // The one live stage: its number is above every published generation and CURRENT.
      && (id, pid) in w.stages && 0 < id <= U64_MAX
      && (forall g :: g in w.published ==> g < id) && (w.current.Some? ==> w.current.value < id)
    case Renamed(id) =>
      id in w.published && (w.published[id] || id in w.damaged)
    case Scanning(todo, v) => WatchOk(w, v, todo)
    case Scanned(v) => WatchOk(w, v, {})
    case Vacuuming(todo, kept, v) =>
      // What is kept is there, CURRENT and everything asked for or leased is kept, the rest is doomed.
      && WatchOk(w, v, {}) && todo !! kept && kept <= w.published.Keys && todo <= w.published.Keys
      && v.protect + v.found <= kept && (w.current.Some? ==> w.current.value in kept)
    case _ => true
  }

  ghost predicate Inv(w: World) {
    && OneHolder(w) && CurrentOk(w) && IdsOk(w)
    && forall pid :: pid in w.processes ==> ProcessOk(w, pid, w.processes[pid])
  }

  /** An empty catalog. */
  lemma InvStart(w: World)
    requires w.published == map[] && w.current.None? && w.stages == {} && w.damaged == {}
    requires forall pid :: pid in w.processes ==> w.processes[pid] == Idle
    ensures Inv(w)
  {
  }

  /** A move leaves every other process as it was, but for forgotten leases. */
  lemma Moved(w: World, pid: nat, p: Process, q: nat)
    requires q in w.processes && q != pid
    ensures var u := Move(w, pid, p);
            && pid in u.processes && u.processes[pid] == p
            && q in u.processes && u.processes[q] == Unwatch(w.processes[q], w, pid, p)
            && HoldsLock(u.processes[q]) == HoldsLock(w.processes[q])
            && (!w.processes[q].Scanning? && !w.processes[q].Scanned? && !w.processes[q].Vacuuming? ==> u.processes[q] == w.processes[q])
  {
  }

  /** Watched leases are still held after a move, those forgotten aside. */
  lemma WatchMoved(w: World, pid: nat, p: Process, v: Vacuum, todo: set<nat>)
    requires WatchOk(w, v, todo)
    ensures var u := Move(w, pid, p);
            if pid in w.processes && w.processes[pid].Leased? && p != w.processes[pid] then
              WatchOk(u, v.(watched := v.watched - {(pid, w.processes[pid].id)}), todo)
            else WatchOk(u, v, todo)
  {
    var u := Move(w, pid, p);
    forall lease | lease in v.watched && lease.0 != pid ensures At(u, lease.0, Leased(lease.1)) {
      assert At(w, lease.0, Leased(lease.1));
      Moved(w, pid, p, lease.0);
    }
    forall lease | lease in v.watched && lease.0 == pid ensures w.processes[pid] == Leased(lease.1) {
      assert At(w, lease.0, Leased(lease.1));
    }
  }

  /** A process that does not hold the lock is untouched by what happens on disk. */
  lemma BystanderOk(w: World, pid: nat, p: Process, q: nat, u: World)
    requires q in w.processes && q != pid && ProcessOk(w, q, w.processes[q]) && !HoldsLock(w.processes[q])
    requires u.processes == Move(w, pid, p).processes
    ensures q in u.processes && ProcessOk(u, q, u.processes[q])
  {
    Moved(w, pid, p, q);
    var m := Move(w, pid, p);
    match w.processes[q]
    case Scanning(todo, v) => WatchMoved(w, pid, p, v, todo); SameWatch(m, u, v, todo);
    case Scanned(v) => WatchMoved(w, pid, p, v, {}); SameWatch(m, u, v, {});
    case _ =>
  }

  lemma SameWatch(a: World, b: World, v: Vacuum, todo: set<nat>)
    requires a.processes == b.processes
    ensures forall x: Vacuum :: WatchOk(a, x, todo) <==> WatchOk(b, x, todo)
  {
    hide *;
    forall x: Vacuum ensures WatchOk(a, x, todo) <==> WatchOk(b, x, todo) {
      SameWatchOne(a, b, x, todo);
    }
  }

  lemma SameWatchOne(a: World, b: World, v: Vacuum, todo: set<nat>)
    requires a.processes == b.processes
    ensures WatchOk(a, v, todo) <==> WatchOk(b, v, todo)
  {
  }

  /** A holder of the lock keeps its promises when another process moves and leaves the disk alone. */
  lemma HolderOk(w: World, pid: nat, p: Process, q: nat)
    requires q in w.processes && q != pid && ProcessOk(w, q, w.processes[q])
    ensures var u := Move(w, pid, p);
            q in u.processes && ProcessOk(u, q, u.processes[q])
  {
    Moved(w, pid, p, q);
    match w.processes[q]
    case Scanning(todo, v) => WatchMoved(w, pid, p, v, todo);
    case Scanned(v) => WatchMoved(w, pid, p, v, {});
    case Vacuuming(todo, kept, v) => WatchMoved(w, pid, p, v, {});
    case _ =>
  }

  lemma MoveSame(w: World, pid: nat)
    requires pid in w.processes
    ensures Move(w, pid, w.processes[pid]) == w
  {
    assert Move(w, pid, w.processes[pid]).processes == w.processes;
  }

  /** A step that leaves the disk alone. */
  lemma MoveInv(w: World, pid: nat, p: Process)
    requires Inv(w) && ProcessOk(Move(w, pid, p), pid, p)
    requires HoldsLock(p) ==> LockFree(w) || (pid in w.processes && HoldsLock(w.processes[pid]))
    ensures Inv(Move(w, pid, p))
  {
    var u := Move(w, pid, p);
    forall q | q in u.processes && q != pid
      ensures ProcessOk(u, q, u.processes[q]) && HoldsLock(u.processes[q]) == HoldsLock(w.processes[q])
    {
      Moved(w, pid, p, q);
      HolderOk(w, pid, p, q);
    }
    hide ProcessOk;
    assert OneHolder(u);
  }

  /** A step of the only process that may hold the lock. */
  lemma DiskInv(w: World, pid: nat, p: Process, u: World)
    requires Inv(w) && u.processes == Move(w, pid, p).processes
    requires forall q :: q in w.processes && q != pid ==> !HoldsLock(w.processes[q])
    requires CurrentOk(u) && IdsOk(u) && ProcessOk(u, pid, p)
    ensures Inv(u)
  {
    forall q | q in u.processes && q != pid ensures ProcessOk(u, q, u.processes[q]) && !HoldsLock(u.processes[q]) {
      Moved(w, pid, p, q);
      BystanderOk(w, pid, p, q, u);
    }
    hide ProcessOk;
    assert OneHolder(u);
  }

  lemma OthersFree(w: World, pid: nat)
    requires Inv(w) && (LockFree(w) || (pid in w.processes && HoldsLock(w.processes[pid])))
    ensures forall q :: q in w.processes && q != pid ==> !HoldsLock(w.processes[q])
  {
  }

  lemma BeginInv(w: World, pid: nat, id: nat, u: World)
    requires Inv(w) && Next(w, pid, Begin(id), u)
    ensures Inv(u)
  {
    OthersFree(w, pid);
    DiskInv(w, pid, Staged(id), u);
  }

  lemma PublishInv(w: World, pid: nat, step: Step, u: World)
    requires Inv(w) && Next(w, pid, step, u) && (step.PublishRename? || step.PublishCurrent? || step.PublishFail? || step.Abandon?)
    ensures Inv(u)
  {
    var p := w.processes[pid];
    assert ProcessOk(w, pid, p);
    OthersFree(w, pid);
    match step
    case PublishRename => DiskInv(w, pid, Renamed(p.id), u);
    case PublishCurrent => DiskInv(w, pid, Idle, u);
    case PublishFail => MoveInv(w, pid, Idle);
    case Abandon => DiskInv(w, pid, Idle, u);
  }

  lemma RollbackInv(w: World, pid: nat, id: nat, u: World)
    requires Inv(w) && Next(w, pid, Rollback(id), u)
    ensures Inv(u)
  {
    OthersFree(w, pid);
    MoveSame(w, pid);
    DiskInv(w, pid, Idle, u);
  }

  lemma LeasesWatched(w: World)
    ensures forall lease :: lease in Leases(w) ==> At(w, lease.0, Leased(lease.1))
  {
  }

  lemma ScanInv(w: World, pid: nat, step: Step, u: World)
    requires Inv(w) && Next(w, pid, step, u) && (step.ScanStart? || step.ScanOne? || step.ScanEnd?)
    ensures Inv(u)
  {
    var p := w.processes[pid];
    assert ProcessOk(w, pid, p);
    match step {
      case ScanStart(retain, protect, files) =>
        LeasesWatched(w);
        var v := Vacuum(retain, protect, {}, Leases(w));
        assert WatchOk(w, v, files);
        WatchMoved(w, pid, Scanning(files, v), v, files);
        MoveInv(w, pid, Scanning(files, v));
      case ScanOne(id) =>
        var v := TestFile(w, p.vacuum, id);
        TestedOk(w, p.vacuum, p.todo, id);
        WatchMoved(w, pid, Scanning(p.todo - {id}, v), v, p.todo - {id});
        MoveInv(w, pid, Scanning(p.todo - {id}, v));
      case ScanEnd =>
        WatchMoved(w, pid, Scanned(p.vacuum), p.vacuum, {});
        MoveInv(w, pid, Scanned(p.vacuum));
    }
  }

  /** Testing a lock finds the watched leases it belongs to, and watches those it finds. */
  lemma TestedOk(w: World, v: Vacuum, todo: set<nat>, id: nat)
    requires WatchOk(w, v, todo)
    ensures WatchOk(w, TestFile(w, v, id), todo - {id})
  {
    var next := TestFile(w, v, id);
    forall lease | lease in next.watched
      ensures At(w, lease.0, Leased(lease.1)) && (lease.1 in todo - {id} || lease.1 in next.found)
    {
      if lease in v.watched {
        assert At(w, lease.0, Leased(lease.1));
        assert lease.1 == id ==> (lease.0, id) in LockHolders(w, id);
      }
    }
  }

  lemma VacuumInv(w: World, pid: nat, step: Step, u: World)
    requires Inv(w) && Next(w, pid, step, u)
    requires step.VacuumBegin? || step.VacuumTear? || step.VacuumDelete? || step.VacuumSweep? || step.VacuumEnd?
    ensures Inv(u)
  {
    var p := w.processes[pid];
    assert ProcessOk(w, pid, p);
    OthersFree(w, pid);
    match step {
      case VacuumBegin =>
        var v := p.vacuum;
        var next := Vacuuming(w.published.Keys - Keep(w, v), Keep(w, v), v);
        WatchMoved(w, pid, next, v, {});
        assert Keep(w, v) <= w.published.Keys;
        MoveInv(w, pid, next);
      case VacuumTear(id) =>
        MoveSame(w, pid);
        SameWatchOne(w, u, p.vacuum, {});
        DiskInv(w, pid, p, u);
      case VacuumDelete(id) =>
        var next := Vacuuming(p.todo - {id}, p.kept, p.vacuum);
        WatchMoved(w, pid, next, p.vacuum, {});
        SameWatchOne(Move(w, pid, next), u, p.vacuum, {});
        DiskInv(w, pid, next, u);
      case VacuumSweep(stage) =>
        MoveSame(w, pid);
        SameWatchOne(w, u, p.vacuum, {});
        DiskInv(w, pid, p, u);
      case VacuumEnd =>
        MoveInv(w, pid, Idle);
    }
  }

  lemma RecoverInv(w: World, pid: nat, step: Step, u: World)
    requires Inv(w) && Next(w, pid, step, u) && (step.RecoverChoose? || step.RecoverRollback? || step.RecoverSkip?)
    ensures Inv(u)
  {
    match step {
      case RecoverChoose(id) => MoveInv(w, pid, Recovering(id));
      case RecoverRollback =>
        OthersFree(w, pid);
        DiskInv(w, pid, Scanned(Vacuum(U64_MAX, {}, {}, {})), u);
      case RecoverSkip => MoveInv(w, pid, Scanned(Vacuum(U64_MAX, {}, {}, {})));
    }
  }

  lemma LeaseInv(w: World, pid: nat, step: Step, u: World)
    requires Inv(w) && Next(w, pid, step, u)
    requires step.LeaseResolve? || step.LeaseLock? || step.LeaseRelease? || step.Crash?
    ensures Inv(u)
  {
    match step {
      case LeaseResolve => MoveInv(w, pid, Resolved(w.current.value));
      case LeaseLock => MoveInv(w, pid, Leased(w.processes[pid].id));
      case LeaseRelease => MoveInv(w, pid, Idle);
      case Crash => MoveInv(w, pid, Idle);
    }
  }

  lemma DamageInv(w: World, pid: nat, id: nat, u: World)
    requires Inv(w) && Next(w, pid, Damage(id), u)
    ensures Inv(u)
  {
    forall q | q in u.processes ensures ProcessOk(u, q, u.processes[q]) {
      assert ProcessOk(w, q, w.processes[q]);
    }
  }

  /** What lets a process go leaves it idle and the generations as they are; a process may crash at any time,
      and a lease be released. */
  lemma LetsGo(w: World, pid: nat, step: Step, u: World)
    requires pid in w.processes
    ensures Next(w, pid, step, u) && (step.PublishFail? || step.Abandon? || step.VacuumEnd? || step.LeaseRelease? || step.Crash?) ==>
              && At(u, pid, Idle) && u.published == w.published && u.current == w.current
              && u.stages == w.stages - if step.Abandon? then {(w.processes[pid].id, pid)} else {}
    ensures exists v :: Next(w, pid, Crash, v)
    ensures w.processes[pid].Leased? ==> exists v :: Next(w, pid, LeaseRelease, v)
  {
    hide IsNextId, LockFree, Leases, Keep, TestFile, Unwatch;
    var v := Move(w, pid, Idle);
    assert Next(w, pid, Crash, v);
    assert w.processes[pid].Leased? ==> Next(w, pid, LeaseRelease, v);
  }

  /** Every step keeps the invariant, whoever takes it. */
  lemma InvStep(w: World, pid: nat, step: Step, u: World)
    requires Inv(w) && Next(w, pid, step, u)
    ensures Inv(u)
  {
    hide Inv, Next;
    match step {
      case Begin(id) => BeginInv(w, pid, id, u);
      case PublishRename => PublishInv(w, pid, step, u);
      case PublishCurrent => PublishInv(w, pid, step, u);
      case PublishFail => PublishInv(w, pid, step, u);
      case Abandon => PublishInv(w, pid, step, u);
      case Rollback(id) => RollbackInv(w, pid, id, u);
      case ScanStart(_, _, _) => ScanInv(w, pid, step, u);
      case ScanOne(_) => ScanInv(w, pid, step, u);
      case ScanEnd => ScanInv(w, pid, step, u);
      case VacuumBegin => VacuumInv(w, pid, step, u);
      case VacuumTear(_) => VacuumInv(w, pid, step, u);
      case VacuumDelete(_) => VacuumInv(w, pid, step, u);
      case VacuumSweep(_) => VacuumInv(w, pid, step, u);
      case VacuumEnd => VacuumInv(w, pid, step, u);
      case RecoverChoose(_) => RecoverInv(w, pid, step, u);
      case RecoverRollback => RecoverInv(w, pid, step, u);
      case RecoverSkip => RecoverInv(w, pid, step, u);
      case LeaseResolve => LeaseInv(w, pid, step, u);
      case LeaseLock => LeaseInv(w, pid, step, u);
      case LeaseRelease => LeaseInv(w, pid, step, u);
      case Crash => LeaseInv(w, pid, step, u);
      case Damage(id) => DamageInv(w, pid, id, u);
    }
  }

  // ------------------------------------------------------------------------------- whole runs

  /** A run: each world follows from the one before by a step of some process. */
  ghost predicate Run(worlds: seq<World>, steps: seq<(nat, Step)>) {
    && |worlds| == |steps| + 1
    && forall i :: 0 <= i < |steps| ==> Next(worlds[i], steps[i].0, steps[i].1, worlds[i + 1])
  }

  /** Along every interleaving, the invariant holds. */
  lemma {:induction false} RunInv(worlds: seq<World>, steps: seq<(nat, Step)>, n: nat)
    requires Run(worlds, steps) && Inv(worlds[0]) && n <= |steps|
    ensures Inv(worlds[n])
  {
    if n > 0 {
      RunInv(worlds, steps, n - 1);
      InvStep(worlds[n - 1], steps[n - 1].0, steps[n - 1].1, worlds[n]);
    }
  }

  /** What the invariant means: CURRENT names a generation that is there and verifies unless damaged; at
      most one stage is live, and its number is no published generation's. */
  lemma Safe(w: World)
    requires Inv(w)
    ensures w.current.Some? ==> w.current.value in w.published && (w.published[w.current.value] || w.current.value in w.damaged)
    ensures forall p, q :: p in w.processes && q in w.processes && w.processes[p].Staged? && w.processes[q].Staged? ==> p == q
    ensures forall p :: p in w.processes && w.processes[p].Staged? ==>
              w.processes[p].id !in w.published && w.current != Some(w.processes[p].id) && (w.processes[p].id, p) in w.stages
  {
    forall p | p in w.processes && w.processes[p].Staged?
      ensures w.processes[p].id !in w.published && w.current != Some(w.processes[p].id) && (w.processes[p].id, p) in w.stages
    {
      assert ProcessOk(w, p, w.processes[p]);
    }
  }

  /** Only vacuuming removes a published generation or a staging directory of another process, and it
      removes neither CURRENT, nor what it was asked to keep, nor the newest it retains, nor a generation
      under a lease held ever since the scan began or tested its lock, nor a live stage. */
  lemma VacuumSpares(w: World, pid: nat, step: Step, u: World)
    requires Inv(w) && Next(w, pid, step, u)
    ensures forall g :: g in w.published && g !in u.published ==>
              && w.processes[pid].Vacuuming? && g in w.processes[pid].todo && w.current != Some(g)
              && g !in w.processes[pid].kept && g !in w.processes[pid].vacuum.protect
              && forall q :: (q, g) !in w.processes[pid].vacuum.watched
    ensures forall stage :: stage in w.stages && stage !in u.stages ==>
              stage.1 == pid || !exists q :: q in w.processes && w.processes[q].Staged? && stage == (w.processes[q].id, q)
  {
    if pid in w.processes {
      assert ProcessOk(w, pid, w.processes[pid]);
    }
    if step.VacuumSweep? {
      forall q | q in w.processes ensures !w.processes[q].Staged? {
        assert HoldsLock(w.processes[q]) ==> q == pid;
      }
    }
    if step.VacuumDelete? {
      var p := w.processes[pid];
      forall q ensures (q, step.id) !in p.vacuum.watched {
        assert forall lease :: lease in p.vacuum.watched ==> lease.1 in p.vacuum.found;
      }
    }
  }

  /** What a vacuum dooms when it takes the lock: exactly what is neither CURRENT, nor protected, nor found
      leased by its scan, nor among the newest it was to retain. */
  lemma VacuumKeeps(w: World, pid: nat, u: World)
    requires Inv(w) && Next(w, pid, VacuumBegin, u)
    ensures u.processes[pid].Vacuuming? && u.published == w.published && u.current == w.current
    ensures u.processes[pid].kept == Keep(w, w.processes[pid].vacuum)
    ensures forall g :: g in u.processes[pid].todo <==>
              && g in w.published && w.current != Some(g) && g !in w.processes[pid].vacuum.protect
              && g !in w.processes[pid].vacuum.found && |Newer(w.published.Keys, g)| >= w.processes[pid].vacuum.retain
  {
  }

  /** The newest are as many as asked for, or all, and newer than the others. */
  lemma {:induction false} NewestMeans(ids: set<nat>, n: nat)
    ensures Newest(ids, n) <= ids && |Newest(ids, n)| == Min(n, |ids|)
    ensures forall g, h :: g in Newest(ids, n) && h in ids && h !in Newest(ids, n) ==> h < g
  {
    hide *;
    NewerFewer(ids, n);
    if ids == {} || n == 0 {
      NoneNewest(ids, n);
    } else {
      var g := GreatestOf(ids);
      NewestMeans(ids - {g}, n - 1);
      NewestWithout(ids, n, g);
      OneMore(Newest(ids - {g}, n - 1), ids - {g}, g);
      assert ids - {g} + {g} == ids;
      MinNext(n, |ids - {g}|);
    }
  }

  lemma MinNext(n: nat, m: nat)
    requires n > 0
    ensures Min(n - 1, m) + 1 == Min(n, m + 1)
  {
  }

  lemma OneMore(A: set<nat>, B: set<nat>, g: nat)
    requires A <= B && g !in B
    ensures |A + {g}| == |A| + 1 && |B + {g}| == |B| + 1
  {
  }

  lemma NoneNewest(ids: set<nat>, n: nat)
    requires ids == {} || n == 0
    ensures Newest(ids, n) == {} && |Newest(ids, n)| == Min(n, |ids|)
  {
    assert Newest(ids, n) == {};
  }

  lemma NewestWithout(ids: set<nat>, n: nat, g: nat)
    requires n > 0 && g in ids && forall h :: h in ids ==> h <= g
    ensures Newest(ids, n) == Newest(ids - {g}, n - 1) + {g} && g !in Newest(ids - {g}, n - 1)
  {
    var rest := ids - {g};
    forall x | x in ids ensures x in Newest(ids, n) <==> x == g || x in Newest(rest, n - 1) {
      if x == g {
        assert Newer(ids, g) == {};
      } else {
        assert Newer(ids, x) == Newer(rest, x) + {g};
      }
    }
  }

  lemma NewerFewer(ids: set<nat>, n: nat)
    ensures Newest(ids, n) <= ids
    ensures forall g, h :: g in Newest(ids, n) && h in ids && h !in Newest(ids, n) ==> h < g
  {
    forall g, h | g in Newest(ids, n) && h in ids && h !in Newest(ids, n) ensures h < g {
      if g <= h {
        RowSets.SubsetSize(Newer(ids, h), Newer(ids, g));
      }
    }
  }

  lemma {:induction false} GreatestOf(ids: set<nat>) returns (g: nat)
    requires ids != {}
    ensures g in ids && forall h :: h in ids ==> h <= g
  {
    var x :| x in ids;
    if ids == {x} {
      g := x;
    } else {
      assert ids == {x} + (ids - {x});
      var y := GreatestOf(ids - {x});
      g := if x < y then y else x;
    }
  }

  /** Retaining the newest 2^64 - 1, as recovery does, dooms no published generation. */
  lemma RecoveryKeepsAll(w: World, pid: nat, u: World)
    requires Inv(w) && Next(w, pid, VacuumBegin, u) && w.processes[pid].vacuum.retain == U64_MAX
    ensures u.processes[pid].todo == {} && u.published == w.published
  {
    var ids := w.published.Keys;
    RowSets.SpanSize(1, U64_MAX);
    forall g | g in ids ensures g in RowSets.Span(1, U64_MAX) {
    }
    RowSets.SubsetSize(ids, RowSets.Span(1, U64_MAX));
    forall g | g in ids ensures g in Newest(ids, U64_MAX) {
      RowSets.SubsetSize(Newer(ids, g) + {g}, ids);
    }
  }

  // ---------------------------------------------------------------------- where a lease is too late

  /** Processes of the race: 0 publishes, 1 reads, 2 vacuums. */
  function Three(a: Process, b: Process, c: Process): map<nat, Process> {
    map[0 := a, 1 := b, 2 := c]
  }

  lemma MoveThree(w: World, a: Process, b: Process, c: Process, p: Process)
    requires w.processes == Three(a, b, c) && !a.Leased? && !b.Leased? && !c.Leased?
    ensures Move(w, 0, p).processes == Three(p, b, c)
    ensures Move(w, 1, p).processes == Three(a, p, c)
    ensures Move(w, 2, p).processes == Three(a, b, p)
  {
    hide *;
    ThreeFirst(a, b, c, p);
    ThreeSecond(a, b, c, p);
    ThreeThird(a, b, c, p);
    UnwatchedMove(w, 0, p);
    UnwatchedMove(w, 1, p);
    UnwatchedMove(w, 2, p);
  }

  lemma ThreeFirst(a: Process, b: Process, c: Process, p: Process)
    ensures Three(a, b, c)[0 := p] == Three(p, b, c) && 0 in Three(a, b, c) && Three(a, b, c)[0] == a
  {
  }

  lemma ThreeSecond(a: Process, b: Process, c: Process, p: Process)
    ensures Three(a, b, c)[1 := p] == Three(a, p, c) && 1 in Three(a, b, c) && Three(a, b, c)[1] == b
  {
  }

  lemma ThreeThird(a: Process, b: Process, c: Process, p: Process)
    ensures Three(a, b, c)[2 := p] == Three(a, b, p) && 2 in Three(a, b, c) && Three(a, b, c)[2] == c
  {
  }

  /** A move of a process without a lease changes that process alone. */
  lemma UnwatchedMove(w: World, pid: nat, p: Process)
    requires pid in w.processes && !w.processes[pid].Leased?
    ensures Move(w, pid, p).processes == w.processes[pid := p]
  {
  }

  function RaceVacuum(): Vacuum { Vacuum(1, {}, {}, {}) }

  function RaceWorld(k: nat): World {
    if k == 0 then World(map[1 := true], Some(1), {}, Three(Idle, Idle, Idle), {})
    else if k == 1 then World(map[1 := true], Some(1), {}, Three(Idle, Resolved(1), Idle), {})
    else if k == 2 then World(map[1 := true], Some(1), {(2, 0)}, Three(Staged(2), Resolved(1), Idle), {})
    else if k == 3 then World(map[1 := true, 2 := true], Some(1), {}, Three(Renamed(2), Resolved(1), Idle), {})
    else if k == 4 then World(map[1 := true, 2 := true], Some(2), {}, Three(Idle, Resolved(1), Idle), {})
    else if k == 5 then World(map[1 := true, 2 := true], Some(2), {}, Three(Idle, Resolved(1), Scanning({}, RaceVacuum())), {})
    else if k == 6 then World(map[1 := true, 2 := true], Some(2), {}, Three(Idle, Resolved(1), Scanned(RaceVacuum())), {})
    else if k == 7 then World(map[1 := true, 2 := true], Some(2), {}, Three(Idle, Resolved(1), Vacuuming({1}, {2}, RaceVacuum())), {})
    else if k == 8 then World(map[2 := true], Some(2), {}, Three(Idle, Resolved(1), Vacuuming({}, {2}, RaceVacuum())), {})
    else World(map[2 := true], Some(2), {}, Three(Idle, Leased(1), Vacuuming({}, {2}, RaceVacuum())), {})
  }

  function RaceStep(k: nat): (nat, Step) {
    if k == 0 then (1, LeaseResolve)
    else if k == 1 then (0, Begin(2))
    else if k == 2 then (0, PublishRename)
    else if k == 3 then (0, PublishCurrent)
    else if k == 4 then (2, ScanStart(1, {}, {}))
    else if k == 5 then (2, ScanEnd)
    else if k == 6 then (2, VacuumBegin)
    else if k == 7 then (2, VacuumDelete(1))
    else (1, LeaseLock)
  }

  ghost predicate RaceFollows(k: nat) {
    Next(RaceWorld(k), RaceStep(k).0, RaceStep(k).1, RaceWorld(k + 1))
  }

  lemma RaceMoves(k: nat)
    requires k < 9
    ensures RaceWorld(k + 1).processes == Move(RaceWorld(k), RaceStep(k).0, RaceWorld(k + 1).processes[RaceStep(k).0]).processes
  {
    var w := RaceWorld(k);
    MoveThree(w, w.processes[0], w.processes[1], w.processes[2], RaceWorld(k + 1).processes[RaceStep(k).0]);
  }

  lemma RaceResolves()
    ensures RaceFollows(0)
  {
    RaceMoves(0);
  }

  lemma RaceBegins()
    ensures RaceFollows(1)
  {
    RaceMoves(1);
  }

  lemma RacePublishes()
    ensures RaceFollows(2) && RaceFollows(3)
  {
    RaceMoves(2);
    RaceMoves(3);
    assert RaceWorld(2).published[2 := true] == RaceWorld(3).published;
  }

  lemma RaceScans()
    ensures RaceFollows(4)
  {
    RaceMoves(4);
    assert Leases(RaceWorld(4)) == {};
  }

  lemma RaceScanned()
    ensures RaceFollows(5)
  {
    RaceMoves(5);
  }

  lemma RaceLeases()
    ensures RaceFollows(8)
  {
    RaceMoves(8);
  }

  lemma RaceLocks()
    ensures RaceFollows(6)
  {
    RaceMoves(6);
    RaceNewest();
    var w := RaceWorld(6);
    assert w.processes[2] == Scanned(RaceVacuum());
    assert Keep(w, RaceVacuum()) == {2};
    assert w.published.Keys - {2} == {1};
    assert RaceWorld(7).processes[2] == Vacuuming(w.published.Keys - Keep(w, RaceVacuum()), Keep(w, RaceVacuum()), RaceVacuum());
    assert RaceWorld(7) == Move(w, 2, RaceWorld(7).processes[2]);
    assert LockFree(w);
  }

  lemma RaceDeletes()
    ensures RaceFollows(7)
  {
    RaceMoves(7);
    var w, u := RaceWorld(7), RaceWorld(8);
    assert w.published - {1} == u.published;
    assert {1} - {1} == u.processes[2].todo;
    assert u == Move(w, 2, u.processes[2]).(published := w.published - {1});
  }

  lemma RaceNext(k: nat)
    requires k < 9
    ensures RaceFollows(k)
  {
    RaceResolves();
    RaceBegins();
    RacePublishes();
    RaceScans();
    RaceScanned();
    RaceLeases();
    RaceLocks();
    RaceDeletes();
    hide RaceFollows;
  }

  lemma RaceNewest()
    ensures Newest({1, 2}, 1) == {2}
    ensures RaceWorld(6).published.Keys == {1, 2}
  {
    assert Newer({1, 2}, 2) == {};
    assert 2 in Newer({1, 2}, 1);
    assert Newer({1, 2}, 1) == {2};
  }

  /** A reader that resolved CURRENT before a publication, and locked it only after a vacuum's scan, holds
      a lease on a generation that is gone: the order of resolving and locking is what the protection of
      VacuumSpares depends on. */
  lemma LeaseRace()
    ensures exists worlds: seq<World>, steps: seq<(nat, Step)> ::
              && Run(worlds, steps) && Inv(worlds[0])
              && var last := worlds[|worlds| - 1];
              At(last, 1, Leased(1)) && 1 !in last.published
  {
    var worlds := seq(10, k requires 0 <= k => RaceWorld(k));
    var steps := seq(9, k requires 0 <= k => RaceStep(k));
    forall i | 0 <= i < |steps| ensures Next(worlds[i], steps[i].0, steps[i].1, worlds[i + 1]) {
      RaceNext(i);
      assert RaceFollows(i);
    }
    hide Next, Inv, RaceWorld, RaceStep;
    assert Inv(RaceWorld(0)) by { RaceStartsOk(); }
    assert At(RaceWorld(9), 1, Leased(1)) && 1 !in RaceWorld(9).published by { RaceEnds(); }
    assert Run(worlds, steps);
  }

  lemma RaceStartsOk()
    ensures Inv(RaceWorld(0))
  {
  }

  lemma RaceEnds()
    ensures At(RaceWorld(9), 1, Leased(1)) && 1 !in RaceWorld(9).published
  {
  }
}
