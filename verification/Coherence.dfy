/**
 Jailed coherence: which runs of a session keep its state file, memory image and disk those of one
 pause (internal/runtime/fcsnap.go, internal/runtime/clone.go).
 */
module Coherence {
  import opened Basics
  import opened Links
  import opened Sparse
  import opened Store
  import opened Sessions

  /** The stops that can leave a new state file beside an older memory image or disk. */
  predicate MidExport(s: Stage) {
    s == AtExportSnap || s == AtExportMem || s == AtRebase || s == AtExportRootfs
  }

  /**
   A save that stops between the start of its first export and the end of its last, beside metadata
   that keeps its directory restorable. Such a save is a Diff, or a Full one whose old directory
   could not be removed.
   */
  predicate StopsMidExport(w: World, a: Action) {
    a.Save? && w.live.Some? && !w.live.value.executed && w.files.meta.Some? && MidExport(a.f.at)
  }

  /** A save that rebases a copied Diff whose extents do not serve, and goes on. */
  ghost predicate LosesMemory(w: World, a: Action) {
    && a.Save? && w.live.Some? && !w.live.value.executed && Past(a.f, AtExportRootfs)
    && !CopyServes(w.jailed, w.files, w.live.value, a.f)
  }

  /** Stops mid-export only at `stage`; and where `serving` is set, loses no memory. */
  ghost predicate Tame(w: World, a: Action, stage: Stage, serving: bool) {
    (StopsMidExport(w, a) ==> a.f.at == stage) && (serving ==> !LosesMemory(w, a))
  }

  ghost predicate RunTame(session: string, acts: seq<Action>, stage: Stage, serving: bool) {
    acts == [] ||
    (RunTame(session, acts[..|acts| - 1], stage, serving)
     && Tame(Run(true, session, acts[..|acts| - 1]), acts[|acts| - 1], stage, serving))
  }

  // ---- the conditions are enough ----

  /** The resumable files are those of one pause; a torn state file cannot be resumed. */
  ghost predicate Coherent(w: World) {
    w.files.meta.Some? && w.files.snap.Some? && w.files.snap.value.Snap? ==>
      && w.exported.Some?
      && w.files.snap.value.cpu == w.exported.value.cpu
      && (w.files.mem.Some? ==> Bytes(w.files.mem.value) == w.exported.value.mem)
      && (w.files.rootfs.Some? ==> w.files.rootfs.value == w.exported.value.disk)
  }

  /** A save that stops before its first export changes nothing in the directory. */
  lemma EarlyStopFiles(files: Files, inst: Instance, f: Fault)
    requires f.at == AtPause || f.at == AtCreate
    ensures Exported(true, files, inst, f) == (files, false) && SaveFiles(true, files, inst, f).0 == files
  {
  }

  /** A save that gets past its exports changes all a restore loads. */
  lemma WholeSaveFiles(files: Files, inst: Instance, f: Fault)
    requires Ready(true, files, inst) && Past(f, AtExportRootfs) && CopyServes(true, files, inst, f)
    ensures var out := SaveFiles(true, files, inst, f).0;
            Exported(true, files, inst, f).1 && Captured(out, inst) && HoldsMemory(out, inst)
  {
    ExportKeeps(true, files, inst, f);
  }

  lemma SaveKeepsCoherent(w: World, session: string, f: Fault)
    requires w.jailed && MemInv(w) && Coherent(w) && !StopsMidExport(w, Save(f)) && !LosesMemory(w, Save(f))
    ensures Coherent(Stepped(w, session, Save(f)))
  {
    if w.live.Some? && !w.live.value.executed {
      var inst := w.live.value;
      if MidExport(f.at) {
        ExportKeeps(true, w.files, inst, f);
      } else if f.at == AtPause || f.at == AtCreate {
        EarlyStopFiles(w.files, inst, f);
      } else {
        WholeSaveFiles(w.files, inst, f);
      }
    }
  }

  lemma StepKeepsCoherent(w: World, session: string, a: Action)
    requires w.jailed && MemInv(w) && Coherent(w) && !StopsMidExport(w, a) && !LosesMemory(w, a)
    ensures Coherent(Stepped(w, session, a))
  {
    if a.Save? { SaveKeepsCoherent(w, session, a.f); }
  }

  lemma {:induction false} ReachableCoherent(session: string, acts: seq<Action>, stage: Stage)
    requires RunTame(session, acts, stage, true) && !MidExport(stage)
    ensures Coherent(Run(true, session, acts))
  {
    if acts != [] {
      var init := acts[..|acts| - 1];
      ReachableCoherent(session, init, stage);
      ReachableMem(true, session, init);
      StepKeepsCoherent(Run(true, session, init), session, acts[|acts| - 1]);
    }
  }

  /** If this boot resumes a VM, its registers, memory and disk are those of the last pause exported in full. */
  ghost predicate ResumesOnePause(session: string, acts: seq<Action>, b: BootCase) {
    var w := Run(true, session, acts);
    var booted := Booted(w, session, b).live;
    w.live.None? && booted.Some? && booted.value.restored ==>
      w.exported == Some(Pause(booted.value.vm.cpu, booted.value.vm.mem, booted.value.vm.disk))
  }

  lemma CoherentResumes(w: World, session: string, b: BootCase)
    requires Coherent(w) && w.live.None? && Booted(w, session, b).live.Some?
    requires Booted(w, session, b).live.value.restored
    ensures var vm := Booted(w, session, b).live.value.vm;
            w.exported == Some(Pause(vm.cpu, vm.mem, vm.disk))
  {
  }

  /**
   Jailed coherence: in every run in which no save stops mid-export beside metadata and every copied
   Diff serves, a restore resumes one and the same pause; jobs that abort without saving, commits
   that fail after a complete export and directories that could not be removed included.
   */
  lemma RestoreIsCoherent(session: string, acts: seq<Action>, stage: Stage, b: BootCase)
    requires RunTame(session, acts, stage, true) && !MidExport(stage)
    ensures ResumesOnePause(session, acts, b)
  {
    ReachableCoherent(session, acts, stage);
    var w := Run(true, session, acts);
    var booted := Booted(w, session, b).live;
    if w.live.None? && booted.Some? && booted.value.restored { CoherentResumes(w, session, b); }
  }

  // ---- the conditions are needed ----

  /** The run leads to the world, within the conditions. */
  ghost predicate Goes(session: string, acts: seq<Action>, stage: Stage, serving: bool, w: World) {
    Run(true, session, acts) == w && RunTame(session, acts, stage, serving) && AllSound(acts)
  }

  lemma Extend(session: string, acts: seq<Action>, stage: Stage, serving: bool, w: World, a: Action)
    requires Goes(session, acts, stage, serving, w) && Tame(w, a, stage, serving) && Sound(a)
    ensures Goes(session, acts + [a], stage, serving, Stepped(w, session, a))
  {
    assert (acts + [a])[..|acts|] == acts;
    RunThen(true, session, acts, a);
  }

  const FIRST: VM := VM(0, [1], {}, [0], None)

  /** The first cold boot. */
  lemma FreshWorld(session: string)
    ensures var w := Stepped(NewWorld(true), session, Boot(PLAIN_BOOT));
            && w.jailed && w.files == NO_FILES
            && w.live == Some(Instance("vm", 3, FreshRecord(session, "vm"), None, FIRST, false, false))
  {
  }

  /** The session holds the first pause and nothing runs. */
  ghost predicate HoldsFirst(w: World) {
    && w.jailed && w.live.None? && w.exported == Some(Pause(0, [1], [0]))
    && RestoreFrom(w.files).Ok? && !RestoreFrom(w.files).value.hasNetwork
    && w.files.snap == Some(Snap(0, None)) && w.files.rootfs == Some([0])
    && w.files.mem.Some? && Bytes(w.files.mem.value) == [1]
  }

  /** The first save, and the VM destroyed. */
  lemma SavedWorld(w: World, session: string)
    requires w.jailed && w.files == NO_FILES
    requires w.live == Some(Instance("vm", 3, FreshRecord(session, "vm"), None, FIRST, false, false))
    ensures HoldsFirst(Stepped(Stepped(w, session, Save(NO_FAULT)), session, Destroy))
  {
    CleanSaveCommits(true, w.files, w.live.value, NO_FAULT);
    KeptExtentsServe(true, w.files, w.live.value, NO_FAULT);
    SavedRecordLink(w.live.value, NO_FAULT);
  }

  /** The first pause runs again. */
  ghost predicate RunsFirst(w: World) {
    && HoldsFirst(w.(live := None)) && w.live.Some?
    && w.live.value.vm == FIRST && w.live.value.tap.None? && w.live.value.restored && !w.live.value.executed
    && w.live.value.rec == RestoreFrom(w.files).value
  }

  lemma RestoredWorld(w: World, session: string)
    requires HoldsFirst(w)
    ensures RunsFirst(Stepped(w, session, Boot(PLAIN_BOOT)))
  {
    assert |w.files.mem.value| == |Bytes(w.files.mem.value)|;
    assert Loadable(w.files, None);
  }

  /** One cold boot, one full save, one restore: the run every witness starts with. */
  lemma RestoredOnce(session: string, stage: Stage, serving: bool) returns (acts: seq<Action>, w: World)
    ensures Goes(session, acts, stage, serving, w) && RunsFirst(w) && MemInv(w)
  {
    var boot := Boot(PLAIN_BOOT);
    var w0 := NewWorld(true);
    var w1 := Stepped(w0, session, boot);
    var w2 := Stepped(w1, session, Save(NO_FAULT));
    var w3 := Stepped(w2, session, Destroy);
    w := Stepped(w3, session, boot);
    FreshWorld(session);
    KeptExtentsServe(true, w1.files, w1.live.value, NO_FAULT);
    SavedWorld(w1, session);
    RestoredWorld(w3, session);
    Extend(session, [], stage, serving, w0, boot);
    Extend(session, [] + [boot], stage, serving, w1, Save(NO_FAULT));
    Extend(session, [] + [boot] + [Save(NO_FAULT)], stage, serving, w2, Destroy);
    Extend(session, [] + [boot] + [Save(NO_FAULT)] + [Destroy], stage, serving, w3, boot);
    acts := [] + [boot] + [Save(NO_FAULT)] + [Destroy] + [boot];
    ReachableMem(true, session, acts);
  }

  /** The guest has run on: another state, memory and disk. */
  const SECOND: VM := VM(1, [2], {0}, [9], None)

  lemma RanWorld(w: World, session: string)
    requires RunsFirst(w)
    ensures var v := Stepped(w, session, GuestRuns(SECOND));
            v == w.(live := Some(w.live.value.(vm := SECOND)))
  {
    assert Ran(w.live.value.vm, SECOND);
  }

  /** What a Diff save that stops mid-export can leave: the new state file and otherwise what was there. */
  lemma MixtureAfterStop(files: Files, inst: Instance, f: Fault)
    requires Ready(true, files, inst) && inst.restored
    requires MidExport(f.at) && f == NO_FAULT.(at := f.at)
    ensures var out := Exported(true, files, inst, f).0;
            && out.meta == files.meta && out.rootfs == files.rootfs
            && out.mem.Some? && |out.mem.value| == |inst.vm.mem|
            && out.snap == Some(Snap(inst.vm.cpu, inst.vm.nic))
            && !Exported(true, files, inst, f).1
  {
    ExportKeeps(true, files, inst, f);
    UpToMemory(true, files, inst, f);
    if f.at == AtRebase || f.at == AtExportRootfs {
      var f3 := MemExported(true, SnapExported(true, Created(true, files, inst, f), inst, f), inst, f);
      RebaseStage(f3, inst, f, LandedDiff(true, inst, f));
    }
  }

  /** A restored VM that ran on and whose save then stops mid-export comes back as a mixture. */
  lemma MixedPauses(w: World, session: string, f: Fault)
    requires HoldsFirst(w.(live := None)) && w.live.Some? && w.live.value.vm == SECOND && MemInv(w)
    requires w.live.value.restored && !w.live.value.executed
    requires MidExport(f.at) && f == NO_FAULT.(at := f.at)
    ensures var end := Stepped(Stepped(w, session, Save(f)), session, Destroy);
            var back := Booted(end, session, PLAIN_BOOT).live;
            && end.live.None? && back.Some? && back.value.restored && back.value.vm.cpu == 1
            && end.exported == Some(Pause(0, [1], [0]))
  {
    MixtureAfterStop(w.files, w.live.value, f);
  }

  /** A Diff save stopped at any mid-export stage can leave a VM that was never paused as restored. */
  lemma MidStopBreaksCoherence(session: string, stage: Stage, serving: bool) returns (acts: seq<Action>, b: BootCase)
    requires MidExport(stage)
    ensures RunTame(session, acts, stage, serving) && AllSound(acts) && !ResumesOnePause(session, acts, b)
  {
    b := PLAIN_BOOT;
    var f := NO_FAULT.(at := stage);
    var w;
    acts, w := RestoredOnce(session, stage, serving);
    var v := Stepped(w, session, GuestRuns(SECOND));
    RanWorld(w, session);
    Extend(session, acts, stage, serving, w, GuestRuns(SECOND));
    acts := acts + [GuestRuns(SECOND)];
    ReachableMem(true, session, acts);
    MixedPauses(v, session, f);
    var stopped := Stepped(v, session, Save(f));
    Extend(session, acts, stage, serving, v, Save(f));
    Extend(session, acts + [Save(f)], stage, serving, stopped, Destroy);
    acts := acts + [Save(f)] + [Destroy];
  }

  /** A save of an idle restored VM whose Diff is copied without its holes. */
  lemma LostMemory(w: World, session: string, f: Fault)
    requires RunsFirst(w) && MemInv(w) && f == NO_FAULT.(extents := [true])
    ensures var end := Stepped(Stepped(w, session, Save(f)), session, Destroy);
            var back := Booted(end, session, PLAIN_BOOT).live;
            && end.live.None? && back.Some? && back.value.restored && back.value.vm.mem != [1]
            && end.exported == Some(Pause(0, [1], [0]))
  {
    var inst := w.live.value;
    CleanSaveCommits(true, w.files, inst, f);
    assert LandedDiff(true, inst, f)[0].Some?;
    assert |w.files.mem.value| == |Bytes(w.files.mem.value)|;
    assert !CopyServes(true, w.files, inst, f);
    SavedRecordLink(inst, f);
  }

  /** A save that no one sees fail can lose memory: the copy it falls back to keeps the bytes, not the holes. */
  lemma LostExtentsBreakCoherence(session: string, stage: Stage) returns (acts: seq<Action>, b: BootCase)
    ensures RunTame(session, acts, stage, false) && AllSound(acts) && !ResumesOnePause(session, acts, b)
  {
    b := PLAIN_BOOT;
    var f := NO_FAULT.(extents := [true]);
    var w;
    acts, w := RestoredOnce(session, stage, false);
    LostMemory(w, session, f);
    var saved := Stepped(w, session, Save(f));
    Extend(session, acts, stage, false, w, Save(f));
    Extend(session, acts + [Save(f)], stage, false, saved, Destroy);
    acts := acts + [Save(f)] + [Destroy];
  }

  /**
   Exactly which runs endanger a session. Take all runs whose mid-export stops beside metadata are
   at `stage` and, where `serving` is set, whose copied Diffs serve: restores stay coherent in all of
   them, if and only if copies serve and `stage` is not between the start of the state file's export
   and the end of the disk's.
   */
  lemma CoherentIff(session: string, stage: Stage, serving: bool)
    ensures (forall acts, b :: RunTame(session, acts, stage, serving) ==> ResumesOnePause(session, acts, b))
            <==> serving && !MidExport(stage)
  {
    if MidExport(stage) {
      var acts, b := MidStopBreaksCoherence(session, stage, serving);
    } else if !serving {
      var acts, b := LostExtentsBreakCoherence(session, stage);
    } else {
      forall acts, b | RunTame(session, acts, stage, serving) ensures ResumesOnePause(session, acts, b) {
        RestoreIsCoherent(session, acts, stage, b);
      }
    }
  }
}
