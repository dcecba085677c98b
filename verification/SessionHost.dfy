/**
 The session runtime as an object that changes its live instance and the directory store in place
 (internal/runtime/fcsnap.go, internal/runtime/firecracker.go, internal/snapshot/store.go). Each
 method does what the code does step by step, restores, prepares, commits and deletes through the
 store, and is tied to the session machine.
 */
module SessionHost {
  import opened Basics
  import opened Links
  import opened Sparse
  import opened Store
  import opened Sessions

  class Host {
    const jailed: bool
    const session: string
    const store: DirStore
    var live: Option<Instance>
    ghost var exported: Option<Pause>
    ghost var commits: nat
    ghost var origin: Option<Link>
    ghost var cid: nat

    /** The session's directory. */
    function Dir(): Files
      reads this, store
    {
      if session in store.tree then store.tree[session] else NO_FILES
    }

    ghost function View(): World
      reads this, store
    {
      World(jailed, Dir(), live, exported, commits, origin, cid)
    }

    /** Records in memory and on disk carry the session's id, which the store accepts. */
    ghost predicate Valid()
      reads this, store
    {
      && (live.Some? ==> store.Usable(session) && live.value.rec.sessionID == session)
      && OwnMeta(Dir())
    }

    predicate OwnMeta(files: Files) {
      files.meta.Some? && files.meta.value.Json? ==> files.meta.value.rec.sessionID == session
    }

    constructor (jailed: bool, session: string, store: DirStore)
      requires session !in store.tree
      ensures View() == NewWorld(jailed) && Valid()
      ensures this.session == session && this.store == store
    {
      this.jailed := jailed;
      this.session := session;
      this.store := store;
      live := None;
      exported, commits, origin, cid := None, 0, None, 3;
    }

    method PutFiles(files: Files)
      modifies store
      ensures Dir() == files && OnlyTouches(old(store.tree), store.tree, session)
    {
      store.tree := store.tree[session := files];
    }

    method CommitRecord(rec: Record, now: nat, steps: nat) returns (ok: bool)
      requires store.Usable(session) && rec.sessionID == session && steps <= 3
      modifies store
      ensures Dir() == (if Complete(old(Dir())) then CommitStep(old(Dir()), Stamped(rec, now), steps) else old(Dir()))
      ensures OnlyTouches(old(store.tree), store.tree, session)
      ensures ok <==> Complete(old(Dir())) && steps == 3
    {
      var r := store.Commit(rec, now, steps);
      ok := r.Ok?;
    }

    method DeleteDir(removed: bool, keep: Keep)
      requires store.Usable(session)
      modifies store
      ensures Dir() == if removed then NO_FILES else Survivors(old(Dir()), keep)
      ensures OnlyTouches(old(store.tree), store.tree, session)
    {
      var _ := store.Delete(session, removed, keep);
    }

    /** Rebases the exported diff onto the memory file, extent by extent. */
    method RebaseDiff(f: Fault) returns (ok: bool)
      requires RebaseRuns(Dir(), f)
      modifies store
      ensures Dir() == Rebased(old(Dir()), f) && OnlyTouches(old(store.tree), store.tree, session)
      ensures ok <==> f.at != AtRebase
    {
      var files := Dir();
      var handle := new HostFile(files.mem.value);
      var diff := files.diff.value;
      if f.at == AtRebase {
        var _ := handle.ApplySparseDiff(diff, f.cut);
        PutFiles(files.(mem := Some(handle.data)));
        return false;
      }
      var done := handle.ApplySparseDiff(diff, |diff|);
      files := files.(mem := Some(handle.data));
      PutFiles(files.(diff := if f.diffStays then files.diff else None));
      return true;
    }

    /** The state file and the memory image: created in place, or created in the chroot and copied. */
    method ExportStateAndMemory(inst: Instance, f: Fault) returns (done: bool)
      requires Past(f, AtPause)
      modifies store
      ensures OnlyTouches(old(store.tree), store.tree, session)
      ensures done <==> Past(f, AtExportMem)
      ensures var f1 := Created(jailed, old(Dir()), inst, f);
              var f2 := if Past(f, AtCreate) then SnapExported(jailed, f1, inst, f) else f1;
              Dir() == if Past(f, AtExportSnap) then MemExported(jailed, f2, inst, f) else f2
    {
      PutFiles(Created(jailed, Dir(), inst, f));
      if f.at == AtCreate { return false; }
      if jailed { PutFiles(SnapExported(jailed, Dir(), inst, f)); }
      if f.at == AtExportSnap { return false; }
      if jailed { PutFiles(MemExported(jailed, Dir(), inst, f)); }
      return f.at != AtExportMem;
    }

    /** The rebase of a Diff; a Full image has none. */
    method RebaseIfDiff(kind: Kind, f: Fault) returns (done: bool)
      modifies store
      ensures OnlyTouches(old(store.tree), store.tree, session)
      ensures done <==> f.at != AtRebase && (kind == Diff ==> RebaseRuns(old(Dir()), f))
      ensures Dir() == if kind == Diff && RebaseRuns(old(Dir()), f) then Rebased(old(Dir()), f) else old(Dir())
    {
      if kind != Diff { return f.at != AtRebase; }
      var files := Dir();
      if !(files.mem.Some? && files.diff.Some? && (f.at == AtRebase ==> f.cut <= |files.diff.value|)) {
        return false;
      }
      done := RebaseDiff(f);
    }

    /** Everything saveSnapshot does before the commit, in the code's order. */
    method ExportFiles(inst: Instance, f: Fault) returns (done: bool)
      modifies store
      ensures OnlyTouches(old(store.tree), store.tree, session)
      ensures (Dir(), done) == Exported(jailed, old(Dir()), inst, f)
    {
      if f.at == AtPause { return false; }
      done := ExportStateAndMemory(inst, f);
      if !done { return; }
      done := RebaseIfDiff(KindOf(inst.rec), f);
      if !done { return; }
      PutFiles(RootfsExported(jailed, Dir(), inst, f));
      return f.at != AtExportRootfs;
    }

    /** Export, then commit through the store. */
    method SaveDir(inst: Instance, f: Fault) returns (ok: bool, ghost done: bool)
      requires store.Usable(session) && inst.rec.sessionID == session
      modifies store
      ensures OnlyTouches(old(store.tree), store.tree, session)
      ensures (Dir(), ok) == SaveFiles(jailed, old(Dir()), inst, f) && done == Exported(jailed, old(Dir()), inst, f).1
      ensures OwnMeta(old(Dir())) ==> OwnMeta(Dir())
    {
      SaveWritesOwnId(jailed, Dir(), inst, f);
      var all := ExportFiles(inst, f);
      done := all;
      if !all { return false, done; }
      ok := CommitRecord(SavedRecord(inst), f.now, CommitSteps(f));
    }

    /** saveSnapshot. The instance is not executed again, whatever becomes of the save. */
    method SaveSnapshot(f: Fault) returns (ok: bool)
      requires Valid() && live.Some? && !live.value.executed
      modifies this, store
      ensures Valid() && OnlyTouches(old(store.tree), store.tree, session)
      ensures View() == Stepped(old(View()), session, Save(f))
      ensures ok <==> SaveFiles(jailed, old(Dir()), old(live).value, f).1
    {
      var inst := live.value;
      ghost var w := View();
      live := Some(inst.(executed := true));
      ghost var done;
      ok, done := SaveDir(inst, f);
      exported := if done then Some(Pause(inst.vm.cpu, inst.vm.mem, inst.vm.disk)) else exported;
      commits := if ok then commits + 1 else commits;
      assert View() == Saved(w, inst, Dir(), ok, done);
    }

    /** The VM has nothing of an earlier guest, and unjailed neither has the disk it runs on. */
    predicate Fresh(b: BootCase)
      reads this, store
    {
      && live.Some? && live.value.vm == VM(b.cpu, b.mem, {}, b.golden, if b.net then b.link else None)
      && (!jailed ==> Dir().rootfs == Some(b.golden))
    }

    /** Restores from the record, if its network is the one wanted and nothing fails. */
    method TryRestore(rec: Record, b: BootCase) returns (ok: bool)
      requires live.None? && RestoreFrom(Dir()) == Ok(rec)
      modifies this`live
      ensures ok <==> rec.hasNetwork == b.net && RestoreSucceeds(Dir(), rec, b)
      ensures View() == if ok then Restored(old(View()), rec, b) else old(View())
      ensures ok ==> live.Some? && live.value.restored
    {
      var files := Dir();
      ok := rec.hasNetwork == b.net && RestoreSucceeds(files, rec, b);
      if ok {
        var vm := VM(files.snap.value.cpu, Bytes(files.mem.value), {}, files.rootfs.value, files.snap.value.nic);
        var guest := if rec.guestCID >= 3 then rec.guestCID else b.cid;
        live := Some(Instance(b.vmID, guest, rec, RecreatedTap(rec), vm, true, false));
      }
    }

    /** Boot: restore the session or start it cold. An id the store refuses fails closed. */
    method BootSession(b: BootCase) returns (ok: bool)
      requires Valid() && live.None?
      modifies this, store
      ensures Valid() && OnlyTouches(old(store.tree), store.tree, session)
      ensures View() == if store.Usable(session) then Booted(old(View()), session, b) else old(View())
      ensures ok <==> live.Some?
      ensures ok && !live.value.restored ==> Fresh(b)
    {
      ghost var w := View();
      if b.net && !b.tapReady { return false; }
      var r := store.Restore(session, b.readable);
      if r.Err? && r.error != NotFound { return false; }
      if r.Ok? {
        ok := TryRestore(r.value, b);
        if ok {
          assert View() == Booted(w, session, b);
          return;
        }
        DeleteDir(b.deleteOk, b.keep);
        assert View() == Deleted(w, b) && OwnMeta(Dir());
      }
      ok := ColdBoot(b);
    }

    method ColdBoot(b: BootCase) returns (ok: bool)
      requires Valid() && live.None? && store.Usable(session)
      modifies this, store
      ensures Valid() && OnlyTouches(old(store.tree), store.tree, session)
      ensures View() == ColdBooted(old(View()), session, b)
      ensures ok <==> live.Some?
      ensures ok ==> !live.value.restored && Fresh(b)
    {
      commits, origin, cid := 0, if b.net then b.link else None, b.cid;
      var r := store.Prepare(session, b.vmID, b.made);
      if r.Err? { return false; }
      if !jailed && (b.placed || ColdSucceeds(b)) { PutFiles(Dir().(rootfs := Some(b.golden))); }
      if !ColdSucceeds(b) { return false; }
      var tap := if b.net then b.link else None;
      live := Some(Instance(b.vmID, b.cid, r.value, tap, VM(b.cpu, b.mem, {}, b.golden, tap), false, false));
      return true;
    }

    method DestroyInstance()
      requires Valid()
      modifies this`live
      ensures Valid() && View() == Stepped(old(View()), session, Destroy)
    {
      live := None;
    }
  }
}
