/**
 The snapshot chain of one session: boot or restore, run, save, destroy
 (internal/runtime/firecracker.go, internal/runtime/fcsnap.go).

 The machine is that of one session, with at most one live VM and one Execute per VM. Firecracker
 is abstract: loading sets the memory and clears the dirty set, running writes memory and marks
 pages, a Full image holds all of memory and a Diff image holds the dirty pages. Every file
 operation can fail part-way; what it leaves behind is then arbitrary.
 */
module Sessions {
  import opened Basics
  import opened Links
  import opened Sparse
  import opened Store

  /** A microVM. `nic` is the network device its guest was built with. */
  datatype VM = VM(cpu: nat, mem: seq<Byte>, dirty: set<nat>, disk: Disk, nic: Option<Link>)

  datatype Instance = Instance(
    id: string,
    cid: nat,               // the guest's vsock address
    rec: Record,            // snapRec
    tap: Option<Link>,      // the host side of the network device
    vm: VM,
    restored: bool,         // loaded from a snapshot rather than cold-booted
    executed: bool)         // its one Execute has tried to save

  /** What one pause captured. */
  datatype Pause = Pause(cpu: nat, mem: seq<Byte>, disk: Disk)

  /** `exported`, `commits`, `origin` and `cid` record history; no step reads them. */
  datatype World = World(
    jailed: bool,
    files: Files,
    live: Option<Instance>,
    exported: Option<Pause>,   // the last pause whose files were all exported
    commits: nat,              // commits since the cold boot
    origin: Option<Link>,      // the link the last cold boot was given
    cid: nat)                  // and the guest CID

  // ---- saving ----

  /** Where a save stops, in the order of the code. */
  datatype Stage = AtPause | AtCreate | AtExportSnap | AtExportMem | AtRebase | AtExportRootfs | AtCommit | Never

  /** What an interrupted write of the state file leaves: a copy can fail after its last byte. */
  datatype Leftover = Untouched | Cut | Whole

  /** A stop and what the interrupted operation leaves; `None` is an untouched file. `now` is the clock. */
  datatype Fault = Fault(
    at: Stage,
    snap: Leftover,
    left: Option<File>,
    leftDisk: Option<Disk>,
    cut: nat,               // bytes of the diff rebased
    diffStays: bool,        // removing the rebased diff failed
    metaStep: nat,          // steps of writing the metadata taken
    now: nat,
    extents: seq<bool>)     // the extents a copied memory image got; [] keeps its own

  function KindOf(rec: Record): Kind {
    if rec.generation > 0 then Diff else Full
  }

  function MemoryImage(inst: Instance): File {
    if KindOf(inst.rec) == Full then FullImage(inst.vm.mem) else DiffImage(inst.vm.mem, inst.vm.dirty)
  }

  function PutMemory(files: Files, kind: Kind, image: Option<File>): Files {
    if image.None? then files
    else if kind == Full then files.(mem := image) else files.(diff := image)
  }

  function PutSnap(files: Files, inst: Instance): Files {
    files.(snap := Some(Snap(inst.vm.cpu, inst.vm.nic)))
  }

  function LeaveSnap(files: Files, inst: Instance, how: Leftover): Files {
    match how
    case Untouched => files
    case Cut => files.(snap := Some(Torn))
    case Whole => PutSnap(files, inst)
  }

  /** createSnapshot: a jailed VMM writes inside its chroot, an unjailed one into the session directory. */
  function Created(jailed: bool, files: Files, inst: Instance, f: Fault): Files {
    if jailed then files
    else if f.at == AtCreate then
      PutMemory(LeaveSnap(files, inst, f.snap), KindOf(inst.rec), f.left)
    else PutMemory(PutSnap(files, inst), KindOf(inst.rec), Some(MemoryImage(inst)))
  }

  function SnapExported(jailed: bool, files: Files, inst: Instance, f: Fault): Files {
    if !jailed then files
    else if f.at == AtExportSnap then LeaveSnap(files, inst, f.snap)
    else PutSnap(files, inst)
  }

  function MemExported(jailed: bool, files: Files, inst: Instance, f: Fault): Files {
    if !jailed then files
    else
      var copy := if f.at == AtExportMem then f.left else Some(Recopied(MemoryImage(inst), f.extents));
      PutMemory(files, KindOf(inst.rec), copy)
  }

  /** The rebase fails without a base or a diff to open. */
  predicate RebaseRuns(files: Files, f: Fault) {
    files.mem.Some? && files.diff.Some? && (f.at == AtRebase ==> f.cut <= |files.diff.value|)
  }

  function Rebased(files: Files, f: Fault): Files
    requires RebaseRuns(files, f)
  {
    if f.at == AtRebase then files.(mem := Some(Overlay(files.mem.value, files.diff.value[..f.cut])))
    else files.(mem := Some(Overlay(files.mem.value, files.diff.value)),
                diff := if f.diffStays then files.diff else None)
  }

  function RootfsExported(jailed: bool, files: Files, inst: Instance, f: Fault): Files {
    if !jailed then files
    else if f.at == AtExportRootfs then if f.leftDisk.Some? then files.(rootfs := f.leftDisk) else files
    else files.(rootfs := Some(inst.vm.disk))
  }

  /** The record as saveSnapshot fills it before the commit. */
  function SavedRecord(inst: Instance): Record {
    FillRecordNetwork(inst.rec.(vmID := inst.id, guestCID := inst.cid), inst.tap)
    .(generation := inst.rec.generation + 1, lastKind := KindOf(inst.rec))
  }

  /** Whether a save gets past stage `s`. */
  predicate Past(f: Fault, s: Stage) {
    Rank(f.at) > Rank(s)
  }

  function Rank(s: Stage): nat {
    match s
    case AtPause => 0
    case AtCreate => 1
    case AtExportSnap => 2
    case AtExportMem => 3
    case AtRebase => 4
    case AtExportRootfs => 5
    case AtCommit => 6
    case Never => 7
  }

  /** The directory when the exports end, and whether the save got that far. */
  function Exported(jailed: bool, files: Files, inst: Instance, f: Fault): (Files, bool) {
    if !Past(f, AtPause) then (files, false)
    else
      var f1 := Created(jailed, files, inst, f);
      if !Past(f, AtCreate) then (f1, false)
      else
        var f2 := SnapExported(jailed, f1, inst, f);
        if !Past(f, AtExportSnap) then (f2, false)
        else
          var f3 := MemExported(jailed, f2, inst, f);
          if !Past(f, AtExportMem) then (f3, false)
          else if KindOf(inst.rec) == Diff && !RebaseRuns(f3, f) then (f3, false)
          else
            var f4 := if KindOf(inst.rec) == Diff then Rebased(f3, f) else f3;
            if !Past(f, AtRebase) then (f4, false)
            else (RootfsExported(jailed, f4, inst, f), Past(f, AtExportRootfs))
  }

  /** The record as Commit writes it. */
  function CommittedRecord(inst: Instance, f: Fault): Record {
    Stamped(SavedRecord(inst), f.now)
  }

  /** How far Commit gets: 3 is all the way. */
  function CommitSteps(f: Fault): (k: nat)
    ensures k <= 3
  {
    if f.at == Never then 3 else if f.metaStep < 3 then f.metaStep else 2
  }

  function SaveFiles(jailed: bool, files: Files, inst: Instance, f: Fault): (Files, bool) {
    var (out, done) := Exported(jailed, files, inst, f);
    if done && Complete(out) then (CommitStep(out, CommittedRecord(inst, f), CommitSteps(f)), f.at == Never)
    else (out, false)
  }

  // ---- the steps of the session machine ----

  /** The parameters of a boot: the policy, and the outcomes of what the host and the VMM do. */
  datatype BootCase = BootCase(
    net: bool,            // the allowlist is non-empty
    tapReady: bool,       // a TAP factory is configured
    readable: bool,       // metadata that is there can be read
    restoreOk: bool,      // no file, TAP or VMM operation of a restore fails
    deleteOk: bool,       // removing the old session directory succeeds
    keep: Keep,           // what a failed removal has not reached
    made: bool,           // the session directory can be made
    coldOk: bool,         // no other operation of a cold boot fails
    placed: bool,         // a failed unjailed cold boot had placed its disk
    vmID: string,
    cid: nat,             // the next guest CID
    link: Option<Link>,   // what TAP Setup returns
    golden: Disk,
    cpu: nat,
    mem: seq<Byte>)       // the guest's memory once its agent answers

  datatype Action =
    | Boot(b: BootCase)
    | GuestRuns(vm: VM)
    | Save(f: Fault)
    | Destroy

  /** What running can do to a machine. */
  ghost predicate Ran(before: VM, after: VM) {
    && |after.mem| == |before.mem| && after.nic == before.nic && before.dirty <= after.dirty
    && forall i :: 0 <= i < |after.mem| && after.mem[i] != before.mem[i] ==> i / PAGE in after.dirty
  }

  /** Loading needs an intact state file, memory, a disk, and the host device the state names. */
  predicate Loadable(files: Files, tap: Option<Link>) {
    && files.snap.Some? && files.snap.value.Snap? && files.rootfs.Some?
    && files.mem.Some? && |files.mem.value| > 0
    && (files.snap.value.nic.Some? ==> tap.Some? && tap.value.name == files.snap.value.nic.value.name)
  }

  /** The host side of the network device a restore recreates. */
  function RecreatedTap(rec: Record): Option<Link> {
    var l := LinkFromRecord(rec);
    if l.None? then None else Some(FillDerived(l.value))
  }

  predicate RestoreSucceeds(files: Files, rec: Record, b: BootCase) {
    && b.restoreOk
    && (rec.hasNetwork ==> rec.hostDevName != "")
    && Loadable(files, RecreatedTap(rec))
  }

  /** The next guest CID from a 32-bit counter: CIDs below 3 are reserved. */
  function NextCID(counter: nat): (cid: nat)
    ensures 3 <= cid < 0x1_0000_0000
  {
    var next := (counter + 1) % 0x1_0000_0000;
    if next < 3 then next + 3 else next
  }

  /** A restored guest keeps its CID. */
  function GuestCID(rec: Record, next: nat): nat {
    if rec.guestCID >= 3 then rec.guestCID else next
  }

  function Restored(w: World, rec: Record, b: BootCase): World
    requires Loadable(w.files, RecreatedTap(rec))
  {
    var vm := VM(w.files.snap.value.cpu, Bytes(w.files.mem.value), {}, w.files.rootfs.value, w.files.snap.value.nic);
    w.(live := Some(Instance(b.vmID, GuestCID(rec, b.cid), rec, RecreatedTap(rec), vm, true, false)))
  }

  /** A cold boot with a network device needs the link TAP Setup allocates. */
  predicate ColdSucceeds(b: BootCase) {
    b.made && b.coldOk && b.mem != [] && (b.net ==> b.link.Some?)
  }

  function ColdBooted(w: World, session: string, b: BootCase): World {
    var base := w.(commits := 0, origin := if b.net then b.link else None, cid := b.cid);
    var disk := if w.jailed then w.files else w.files.(rootfs := Some(b.golden));
    if !ColdSucceeds(b) then base.(files := if b.made && b.placed then disk else w.files)
    else
      var tap := if b.net then b.link else None;
      base.(files := disk,
            live := Some(Instance(b.vmID, b.cid, FreshRecord(session, b.vmID), tap,
                                  VM(b.cpu, b.mem, {}, b.golden, tap), false, false)))
  }

  /** Removing the directory; what a failed removal has not reached stays. */
  function Deleted(w: World, b: BootCase): World {
    w.(files := if b.deleteOk then NO_FILES else Survivors(w.files, b.keep))
  }

  /** Firecracker.Boot. */
  function Booted(w: World, session: string, b: BootCase): World {
    if w.live.Some? || (b.net && !b.tapReady) || !b.readable then w
    else
      match RestoreFrom(w.files)
      case Ok(rec) =>
        if rec.hasNetwork == b.net && RestoreSucceeds(w.files, rec, b) then Restored(w, rec, b)
        else ColdBooted(Deleted(w, b), session, b)
      case Err(e) => if e == NotFound then ColdBooted(w, session, b) else w
  }

  /** The world after a save that left `files`, committed or not, with or without a complete export. */
  function Saved(w: World, inst: Instance, files: Files, ok: bool, done: bool): World {
    w.(files := files,
       live := Some(inst.(executed := true)),
       exported := if done then Some(Pause(inst.vm.cpu, inst.vm.mem, inst.vm.disk)) else w.exported,
       commits := if ok then w.commits + 1 else w.commits)
  }

  ghost function Stepped(w: World, session: string, a: Action): World {
    match a
    case Boot(b) => Booted(w, session, b)
    case GuestRuns(vm) =>
      if w.live.Some? && Ran(w.live.value.vm, vm) && !w.live.value.executed
      then w.(live := Some(w.live.value.(vm := vm)),
              files := if w.jailed then w.files else w.files.(rootfs := Some(vm.disk)))
      else w
    case Save(f) =>
      if w.live.None? || w.live.value.executed then w
      else
        var (files, ok) := SaveFiles(w.jailed, w.files, w.live.value, f);
        Saved(w, w.live.value, files, ok, Exported(w.jailed, w.files, w.live.value, f).1)
    case Destroy => w.(live := None)
  }

  function NewWorld(jailed: bool): World {
    World(jailed, NO_FILES, None, None, 0, None, 3)
  }

  ghost function Run(jailed: bool, session: string, acts: seq<Action>): World {
    if acts == [] then NewWorld(jailed)
    else Stepped(Run(jailed, session, acts[..|acts| - 1]), session, acts[|acts| - 1])
  }

  lemma RunThen(jailed: bool, session: string, acts: seq<Action>, a: Action)
    ensures Run(jailed, session, acts + [a]) == Stepped(Run(jailed, session, acts), session, a)
  {
    assert (acts + [a])[..|acts|] == acts;
  }

  /** A boot without network under which every operation succeeds. */
  const PLAIN_BOOT: BootCase :=
    BootCase(false, true, true, true, true, Keep(true, true, true, true, true, true), true, true, true,
             "vm", 3, None, [0], 0, [1])

  const NO_FAULT: Fault := Fault(Never, Whole, None, None, 0, false, 0, 1, [])

  // ---- the invariant ----

  /** A link as Setup allocates it (Links.SetupIsStorable). */
  predicate GoodLink(l: Option<Link>) {
    l.Some? ==> Storable(l.value)
  }

  /** Committed metadata is backed by a memory image, and by a state file of the same network device. */
  ghost predicate MetaOk(files: Files, commits: nat, origin: Option<Link>, cid: nat) {
    files.meta.Some? ==>
      && files.meta.value.Json?
      && files.meta.value.rec.generation == commits >= 1
      && LinkFromRecord(files.meta.value.rec) == origin
      && files.meta.value.rec.guestCID == cid
      && files.mem.Some? && |files.mem.value| > 0
      && files.snap.Some?
      && (files.snap.value.Snap? ==> files.snap.value.nic == origin)
  }

  /** A live VM before its save. */
  ghost predicate LiveOk(w: World, inst: Instance) {
    && inst.tap == inst.vm.nic == w.origin
    && inst.cid == w.cid
    && |inst.vm.mem| > 0
    && (inst.rec.generation > 0 <==> inst.restored)
    && inst.rec.generation == w.commits
    && (!w.jailed ==> w.files.rootfs == Some(inst.vm.disk))
    && (if inst.restored
        then && w.files.meta == Some(Json(inst.rec))
             && w.files.mem.Some? && DiffersOnDirty(w.files.mem.value, inst.vm.mem, inst.vm.dirty)
        else w.files.meta.None?)
  }

  ghost predicate Inv(w: World) {
    && GoodLink(w.origin) && w.cid >= 3
    && MetaOk(w.files, w.commits, w.origin, w.cid)
    && (w.live.Some? && !w.live.value.executed ==> LiveOk(w, w.live.value))
  }

  /**
   Setup's results are links it allocates, CIDs are not reserved ones (NextCID), and the session
   directory can be removed.
   */
  ghost predicate Sound(a: Action) {
    a.Boot? ==> a.b.deleteOk && GoodLink(a.b.link) && a.b.cid >= 3
  }

  ghost predicate AllSound(acts: seq<Action>) {
    forall i :: 0 <= i < |acts| ==> Sound(acts[i])
  }

  // ---- what a save does to the directory ----

  /** What every stage of a save leaves true of the session directory. */
  ghost predicate Backed(files: Files, oldMeta: Option<MetaFile>, inst: Instance) {
    && files.meta == oldMeta
    && (inst.restored ==>
          && files.mem.Some? && |files.mem.value| == |inst.vm.mem|
          && files.snap.Some? && (files.snap.value.Snap? ==> files.snap.value.nic == inst.vm.nic))
  }

  /** The state file and the disk are those of this pause, and there is a memory image of its size. */
  ghost predicate Captured(files: Files, inst: Instance) {
    && files.mem.Some? && |files.mem.value| == |inst.vm.mem|
    && files.snap == Some(Snap(inst.vm.cpu, inst.vm.nic))
    && files.rootfs == Some(inst.vm.disk)
  }

  /** The memory file reads as the guest's memory at this pause. */
  ghost predicate HoldsMemory(files: Files, inst: Instance) {
    files.mem.Some? && Bytes(files.mem.value) == inst.vm.mem
  }

  /** The Diff that is rebased: a jailed VM's is a copy of the one in the chroot. */
  function LandedDiff(jailed: bool, inst: Instance, f: Fault): (diff: File)
    ensures |diff| == |inst.vm.mem| && Bytes(diff) == Bytes(DiffImage(inst.vm.mem, inst.vm.dirty))
  {
    var image := DiffImage(inst.vm.mem, inst.vm.dirty);
    if jailed then Recopied(image, f.extents) else image
  }

  /** If a Diff is rebased, its extents serve. `cp` keeps them; the fallback copy need not. */
  ghost predicate CopyServes(jailed: bool, files: Files, inst: Instance, f: Fault) {
    KindOf(inst.rec) == Diff && files.mem.Some? && |files.mem.value| == |inst.vm.mem| ==>
      ExtentsServe(files.mem.value, inst.vm.mem, inst.vm.dirty, LandedDiff(jailed, inst, f))
  }

  /** Kept extents serve, and so does the Diff an unjailed VMM writes in place. */
  lemma KeptExtentsServe(jailed: bool, files: Files, inst: Instance, f: Fault)
    requires !jailed || f.extents == []
    ensures CopyServes(jailed, files, inst, f)
  {
    if files.mem.Some? && |files.mem.value| == |inst.vm.mem| {
      DiffImageServes(files.mem.value, inst.vm.mem, inst.vm.dirty);
    }
  }

  lemma OverlayLength(base: File, diff: File)
    requires |diff| <= |base|
    ensures |Overlay(base, diff)| == |base|
  {
  }

  /** The directory a save starts from. */
  ghost predicate Ready(jailed: bool, files: Files, inst: Instance) {
    && (inst.rec.generation > 0 <==> inst.restored)
    && Backed(files, files.meta, inst)
    && (inst.restored ==> DiffersOnDirty(files.mem.value, inst.vm.mem, inst.vm.dirty))
    && (!jailed ==> files.rootfs == Some(inst.vm.disk))
  }

  /** The stages before the rebase. */
  lemma UpToMemory(jailed: bool, files: Files, inst: Instance, f: Fault)
    requires Ready(jailed, files, inst)
    ensures var f1 := Created(jailed, files, inst, f);
            var f2 := SnapExported(jailed, f1, inst, f);
            var f3 := MemExported(jailed, f2, inst, f);
            && Backed(f1, files.meta, inst) && Backed(f2, files.meta, inst) && Backed(f3, files.meta, inst)
            && f3.rootfs == files.rootfs
            && (Past(f, AtExportMem) ==>
                  && f3.snap == Some(Snap(inst.vm.cpu, inst.vm.nic))
                  && (KindOf(inst.rec) == Full ==> HoldsMemory(f3, inst))
                  && (KindOf(inst.rec) == Diff ==> f3.mem == files.mem && f3.diff == Some(LandedDiff(jailed, inst, f))))
  {
    assert Bytes(FullImage(inst.vm.mem)) == inst.vm.mem;
  }

  /** The rebase stage, for a VM that was loaded from the memory image it is rebased onto. */
  lemma RebaseStage(files: Files, inst: Instance, f: Fault, diff: File)
    requires files.mem.Some? && DiffersOnDirty(files.mem.value, inst.vm.mem, inst.vm.dirty)
    requires files.diff == Some(diff) && |diff| == |inst.vm.mem|
    requires Bytes(diff) == Bytes(DiffImage(inst.vm.mem, inst.vm.dirty))
    ensures RebaseRuns(files, f) ==>
              && Rebased(files, f) == files.(mem := Rebased(files, f).mem, diff := Rebased(files, f).diff)
              && Rebased(files, f).mem.Some? && |Rebased(files, f).mem.value| == |inst.vm.mem|
              && (f.at != AtRebase ==>
                    (HoldsMemory(Rebased(files, f), inst)
                     <==> ExtentsServe(files.mem.value, inst.vm.mem, inst.vm.dirty, diff)))
  {
    if RebaseRuns(files, f) {
      var base := files.mem.value;
      OverlayLength(base, diff);
      if f.at == AtRebase { OverlayLength(base, diff[..f.cut]); }
      RebaseOfCopyIff(base, inst.vm.mem, inst.vm.dirty, diff);
    }
  }

  /**
   However far a save gets, the directory stays backed; past its exports it holds this pause, its
   memory included exactly when the copied Diff serves.
   */
  lemma ExportKeeps(jailed: bool, files: Files, inst: Instance, f: Fault)
    requires Ready(jailed, files, inst)
    ensures var (out, done) := Exported(jailed, files, inst, f);
            && Backed(out, files.meta, inst)
            && (done ==> Captured(out, inst) && (HoldsMemory(out, inst) <==> CopyServes(jailed, files, inst, f)))
            && (done <==> Past(f, AtExportRootfs))
  {
    UpToMemory(jailed, files, inst, f);
    if Past(f, AtExportMem) && KindOf(inst.rec) == Diff {
      var f3 := MemExported(jailed, SnapExported(jailed, Created(jailed, files, inst, f), inst, f), inst, f);
      RebaseStage(f3, inst, f, LandedDiff(jailed, inst, f));
    }
  }

  /** No stage of an export touches the metadata. */
  lemma StagesKeepMeta(jailed: bool, files: Files, inst: Instance, f: Fault)
    ensures Created(jailed, files, inst, f).meta == files.meta
    ensures SnapExported(jailed, files, inst, f).meta == files.meta
    ensures MemExported(jailed, files, inst, f).meta == files.meta
    ensures RebaseRuns(files, f) ==> Rebased(files, f).meta == files.meta
    ensures RootfsExported(jailed, files, inst, f).meta == files.meta
  {
  }

  lemma ExportKeepsMeta(jailed: bool, files: Files, inst: Instance, f: Fault)
    ensures Exported(jailed, files, inst, f).0.meta == files.meta
  {
    var f1 := Created(jailed, files, inst, f);
    var f2 := SnapExported(jailed, f1, inst, f);
    var f3 := MemExported(jailed, f2, inst, f);
    StagesKeepMeta(jailed, files, inst, f);
    StagesKeepMeta(jailed, f1, inst, f);
    StagesKeepMeta(jailed, f2, inst, f);
    StagesKeepMeta(jailed, f3, inst, f);
    if RebaseRuns(f3, f) { StagesKeepMeta(jailed, Rebased(f3, f), inst, f); }
  }

  /** A save leaves the metadata as it was or writes the session's own id into it. */
  lemma SaveWritesOwnId(jailed: bool, files: Files, inst: Instance, f: Fault)
    ensures var out := SaveFiles(jailed, files, inst, f).0;
            out.meta == files.meta || out.meta == Some(Json(CommittedRecord(inst, f)))
    ensures CommittedRecord(inst, f).sessionID == inst.rec.sessionID && CommittedRecord(inst, f).generation >= 1
  {
    ExportKeepsMeta(jailed, files, inst, f);
  }

  /** The committed record carries the link of the running VM. */
  lemma SavedRecordLink(inst: Instance, f: Fault)
    requires GoodLink(inst.tap)
    ensures LinkFromRecord(CommittedRecord(inst, f)) == inst.tap
    ensures CommittedRecord(inst, f).hasNetwork <==> inst.tap.Some?
  {
    RecordKeepsLink(inst.rec.(vmID := inst.id, guestCID := inst.cid), inst.tap);
  }

  lemma SaveKeepsInv(w: World, session: string, f: Fault)
    requires Inv(w)
    ensures Inv(Stepped(w, session, Save(f)))
  {
    if w.live.Some? && !w.live.value.executed {
      var inst := w.live.value;
      assert Ready(w.jailed, w.files, inst);
      ExportKeeps(w.jailed, w.files, inst, f);
      SavedRecordLink(inst, f);
    }
  }

  lemma RestoredIsOk(w: World, rec: Record, b: BootCase)
    requires w.cid >= 3 && MetaOk(w.files, w.commits, w.origin, w.cid) && RestoreFrom(w.files) == Ok(rec)
    requires RecreatedTap(rec) == w.origin && Loadable(w.files, RecreatedTap(rec))
    ensures LiveOk(Restored(w, rec, b), Restored(w, rec, b).live.value)
  {
  }

  lemma ColdIsOk(w: World, session: string, b: BootCase)
    requires w.files.meta.None? && w.live.None?
    ensures var r := ColdBooted(w, session, b);
            && r.files.meta.None? && (r.live.Some? ==> LiveOk(r, r.live.value))
            && (r.origin == if b.net then b.link else None) && r.cid == b.cid
  {
  }

  lemma ColdKeepsInv(w: World, session: string, b: BootCase)
    requires w.files.meta.None? && w.live.None? && Sound(Boot(b))
    ensures Inv(ColdBooted(w, session, b))
  {
    ColdIsOk(w, session, b);
  }

  lemma RestoreKeepsInv(w: World, rec: Record, b: BootCase)
    requires Inv(w) && RestoreFrom(w.files) == Ok(rec) && Loadable(w.files, RecreatedTap(rec))
    ensures Inv(Restored(w, rec, b))
  {
    if rec.hasNetwork { StorableIsDerived(LinkFromRecord(rec).value); }
    RestoredIsOk(w, rec, b);
  }

  lemma BootKeepsInv(w: World, session: string, b: BootCase)
    requires Inv(w) && Sound(Boot(b))
    ensures Inv(Booted(w, session, b))
  {
    if w.live.None? && (b.net ==> b.tapReady) && b.readable {
      match RestoreFrom(w.files) {
        case Ok(rec) =>
          if rec.hasNetwork == b.net && RestoreSucceeds(w.files, rec, b) {
            RestoreKeepsInv(w, rec, b);
          } else {
            ColdKeepsInv(Deleted(w, b), session, b);
          }
        case Err(_) =>
          if w.files.meta.None? { ColdKeepsInv(w, session, b); }
      }
    }
  }

  lemma RunKeepsDirty(base: File, before: VM, after: VM)
    requires Ran(before, after) && DiffersOnDirty(base, before.mem, before.dirty)
    ensures DiffersOnDirty(base, after.mem, after.dirty)
  {
    forall i | 0 <= i < |after.mem| && Bytes(base)[i] != after.mem[i] ensures i / PAGE in after.dirty {
      if after.mem[i] == before.mem[i] { assert i / PAGE in before.dirty; }
    }
  }

  lemma StepKeepsInv(w: World, session: string, a: Action)
    requires Inv(w) && Sound(a)
    ensures Inv(Stepped(w, session, a)) && Stepped(w, session, a).jailed == w.jailed
  {
    match a
    case Boot(b) => BootKeepsInv(w, session, b);
    case Save(f) => SaveKeepsInv(w, session, f);
    case GuestRuns(vm) =>
      if w.live.Some? && !w.live.value.executed && Ran(w.live.value.vm, vm) && w.live.value.restored {
        RunKeepsDirty(w.files.mem.value, w.live.value.vm, vm);
      }
    case Destroy =>
  }

  lemma {:induction false} ReachableInv(jailed: bool, session: string, acts: seq<Action>)
    requires AllSound(acts)
    ensures Inv(Run(jailed, session, acts)) && Run(jailed, session, acts).jailed == jailed
  {
    if acts != [] {
      var init := acts[..|acts| - 1];
      ReachableInv(jailed, session, init);
      StepKeepsInv(Run(jailed, session, init), session, acts[|acts| - 1]);
    }
  }

  // ---- the memory invariant, which needs no assumption on removing directories ----

  /** A VM about to be saved was loaded from the memory file it would be rebased onto. */
  ghost predicate MemInv(w: World) {
    && (w.files.meta.Some? ==> w.files.meta.value.Json? && w.files.meta.value.rec.generation >= 1)
    && (w.live.Some? && !w.live.value.executed ==>
          Ready(w.jailed, w.files, w.live.value) && |w.live.value.vm.mem| > 0)
  }

  lemma SaveKeepsMem(w: World, session: string, f: Fault)
    requires MemInv(w)
    ensures MemInv(Stepped(w, session, Save(f)))
  {
    if w.live.Some? && !w.live.value.executed {
      SaveWritesOwnId(w.jailed, w.files, w.live.value, f);
    }
  }

  lemma RestoredIsReady(w: World, rec: Record, b: BootCase)
    requires RestoreFrom(w.files) == Ok(rec) && rec.generation >= 1 && Loadable(w.files, RecreatedTap(rec))
    ensures Ready(w.jailed, w.files, Restored(w, rec, b).live.value)
    ensures |Restored(w, rec, b).live.value.vm.mem| > 0
  {
  }

  lemma ColdKeepsMem(w: World, session: string, b: BootCase)
    requires MemInv(w) && w.live.None?
    ensures MemInv(ColdBooted(w, session, b))
  {
  }

  lemma BootKeepsMem(w: World, session: string, b: BootCase)
    requires MemInv(w)
    ensures MemInv(Booted(w, session, b))
  {
    if w.live.None? && (b.net ==> b.tapReady) && b.readable {
      match RestoreFrom(w.files) {
        case Ok(rec) =>
          if rec.hasNetwork == b.net && RestoreSucceeds(w.files, rec, b) {
            RestoredIsReady(w, rec, b);
          } else {
            assert MemInv(Deleted(w, b));
            ColdKeepsMem(Deleted(w, b), session, b);
          }
        case Err(_) => ColdKeepsMem(w, session, b);
      }
    }
  }

  lemma StepKeepsMem(w: World, session: string, a: Action)
    requires MemInv(w)
    ensures MemInv(Stepped(w, session, a)) && Stepped(w, session, a).jailed == w.jailed
  {
    match a
    case Boot(b) => BootKeepsMem(w, session, b);
    case Save(f) => SaveKeepsMem(w, session, f);
    case GuestRuns(vm) =>
      if w.live.Some? && !w.live.value.executed && Ran(w.live.value.vm, vm) && w.live.value.restored {
        RunKeepsDirty(w.files.mem.value, w.live.value.vm, vm);
      }
    case Destroy =>
  }

  lemma {:induction false} ReachableMem(jailed: bool, session: string, acts: seq<Action>)
    ensures MemInv(Run(jailed, session, acts)) && Run(jailed, session, acts).jailed == jailed
  {
    if acts != [] {
      var init := acts[..|acts| - 1];
      ReachableMem(jailed, session, init);
      StepKeepsMem(Run(jailed, session, init), session, acts[|acts| - 1]);
    }
  }

  // ---- main results, over every run ----

  /** A save that meets no fault. */
  ghost predicate Clean(f: Fault) {
    f.at == Never
  }

  /**
   The memory chain. After any run of boots, restores, guest activity, aborted jobs, saves that
   stopped anywhere and directories that could not be removed, a save without a fault commits. Then
   the memory file is the guest's whole memory at that pause, if and only if the copied Diff serves
   (CopyServes). It is a Diff exactly for a restored VM, whose unmarked pages still are those of the
   memory file.
   */
  lemma MemoryChain(jailed: bool, session: string, acts: seq<Action>, f: Fault)
    requires Clean(f)
    requires Run(jailed, session, acts).live.Some? && !Run(jailed, session, acts).live.value.executed
    ensures var w := Run(jailed, session, acts);
            var inst := w.live.value;
            var after := Stepped(w, session, Save(f));
            && after.files.meta == Some(Json(CommittedRecord(inst, f)))
            && Captured(after.files, inst)
            && (HoldsMemory(after.files, inst) <==> CopyServes(jailed, w.files, inst, f))
            && (CommittedRecord(inst, f).lastKind == Diff <==> inst.restored)
            && (inst.restored ==>
                  w.files.mem.Some? && DiffersOnDirty(w.files.mem.value, inst.vm.mem, inst.vm.dirty))
  {
    ReachableMem(jailed, session, acts);
    var w := Run(jailed, session, acts);
    CleanSaveCommits(w.jailed, w.files, w.live.value, f);
  }

  /** A Diff that was rebased is removed, unless removing it fails, so no later save takes it for its own. */
  lemma RebasedDiffIsRemoved(jailed: bool, session: string, acts: seq<Action>, f: Fault)
    requires Clean(f) && !f.diffStays
    requires Run(jailed, session, acts).live.Some? && !Run(jailed, session, acts).live.value.executed
    requires Run(jailed, session, acts).live.value.restored
    ensures Stepped(Run(jailed, session, acts), session, Save(f)).files.diff.None?
  {
    ReachableMem(jailed, session, acts);
    var w := Run(jailed, session, acts);
    CleanSaveCommits(jailed, w.files, w.live.value, f);
    WholeDiffSave(jailed, w.files, w.live.value, f);
  }

  lemma WholeDiffSave(jailed: bool, files: Files, inst: Instance, f: Fault)
    requires KindOf(inst.rec) == Diff && Clean(f) && !f.diffStays && Exported(jailed, files, inst, f).1
    ensures SaveFiles(jailed, files, inst, f).0.diff.None?
  {
  }

  /** A save without a fault goes through, from every directory a save starts from. */
  lemma CleanSaveCommits(jailed: bool, files: Files, inst: Instance, f: Fault)
    requires Ready(jailed, files, inst) && Clean(f) && |inst.vm.mem| > 0
    ensures var (out, ok) := SaveFiles(jailed, files, inst, f);
            && ok && out.meta == Some(Json(CommittedRecord(inst, f)))
            && Captured(out, inst) && (HoldsMemory(out, inst) <==> CopyServes(jailed, files, inst, f))
  {
    ExportKeeps(jailed, files, inst, f);
    var out := Exported(jailed, files, inst, f).0;
    assert Complete(out);
  }

  /**
   The round trip: save without a fault, destroy, boot again under a policy that still wants the
   same kind of network. The VM that comes back has the state, disk and network device of the one
   that was saved, the same host link and the same guest CID; and its memory, if and only if the
   copied Diff serves.
   */
  lemma SaveThenRestore(jailed: bool, session: string, acts: seq<Action>, f: Fault, b: BootCase)
    requires AllSound(acts) && Clean(f)
    requires Run(jailed, session, acts).live.Some? && !Run(jailed, session, acts).live.value.executed
    requires b.readable && b.restoreOk && (b.net ==> b.tapReady)
    requires b.net <==> Run(jailed, session, acts).live.value.tap.Some?
    ensures var w := Run(jailed, session, acts);
            var inst := w.live.value;
            var back := Booted(Stepped(Stepped(w, session, Save(f)), session, Destroy), session, b).live;
            && back.Some?
            && var vm := inst.vm.(mem := back.value.vm.mem, dirty := {});
               && back.value == Instance(b.vmID, inst.cid, CommittedRecord(inst, f), inst.tap, vm, true, false)
               && (vm.mem == inst.vm.mem <==> CopyServes(jailed, w.files, inst, f))
  {
    MemoryChain(jailed, session, acts, f);
    ReachableInv(jailed, session, acts);
    var w := Run(jailed, session, acts);
    var inst := w.live.value;
    SavedRecordLink(inst, f);
    if inst.tap.Some? {
      StorableIsDerived(inst.tap.value);
    }
    BootResumes(Stepped(Stepped(w, session, Save(f)), session, Destroy), session, b, CommittedRecord(inst, f));
  }

  /** A boot resumes what is there when the network is the one wanted and nothing fails. */
  lemma BootResumes(w: World, session: string, b: BootCase, rec: Record)
    requires w.live.None? && w.files.meta == Some(Json(rec)) && b.net == rec.hasNetwork
    requires b.readable && b.restoreOk && (b.net ==> b.tapReady && rec.hostDevName != "")
    requires Loadable(w.files, RecreatedTap(rec))
    ensures Booted(w, session, b) == Restored(w, rec, b)
  {
  }

  /** In every reachable state the live VM, its host link and the saved record agree on one device and one CID. */
  lemma LinkIsStable(jailed: bool, session: string, acts: seq<Action>)
    requires AllSound(acts)
    ensures var w := Run(jailed, session, acts);
            && GoodLink(w.origin)
            && (w.live.Some? && !w.live.value.executed ==>
                  w.live.value.tap == w.live.value.vm.nic == w.origin && w.live.value.cid == w.cid)
            && (w.files.meta.Some? ==>
                  && w.files.meta.value.Json?
                  && LinkFromRecord(w.files.meta.value.rec) == w.origin
                  && w.files.meta.value.rec.guestCID == w.cid
                  && (w.files.meta.value.rec.hasNetwork <==> w.origin.Some?))
  {
    ReachableInv(jailed, session, acts);
  }

  /**
   A cold boot starts from nothing of an earlier guest: whatever is in the directory, the VM has the
   golden disk, no memory but its own, and the new link and CID; unjailed, the disk in the directory
   is the golden one too.
   */
  lemma ColdBootIsFresh(w: World, session: string, b: BootCase)
    requires w.live.None? && Booted(w, session, b).live.Some? && !Booted(w, session, b).live.value.restored
    ensures var booted := Booted(w, session, b);
            var inst, nic := booted.live.value, if b.net then b.link else None;
            && inst.vm == VM(b.cpu, b.mem, {}, b.golden, nic) && inst.tap == nic
            && inst.id == b.vmID && inst.cid == b.cid && !inst.executed
            && inst.rec.generation == 0 && inst.rec.sessionID == session
            && (!w.jailed ==> booted.files.rootfs == Some(b.golden))
  {
  }

  /**
   A boot that must not go on changes nothing: without a TAP factory for the network it needs, with
   metadata that cannot be read, or with metadata that is broken.
   */
  lemma BootFailsClosed(w: World, session: string, b: BootCase)
    requires w.live.None?
    requires (b.net && !b.tapReady) || !b.readable || RestoreFrom(w.files) == Err(Corrupt)
    ensures Booted(w, session, b) == w
  {
  }

  /** Exactly when a boot resumes: metadata, network and files agree, and nothing fails. */
  lemma ResumesIff(w: World, session: string, b: BootCase)
    requires w.live.None?
    ensures (Booted(w, session, b).live.Some? && Booted(w, session, b).live.value.restored) <==>
              && b.readable && b.restoreOk && (b.net ==> b.tapReady)
              && w.files.meta.Some? && w.files.meta.value.Json?
              && var rec := w.files.meta.value.rec;
                 && rec.hasNetwork == b.net && (rec.hasNetwork ==> rec.hostDevName != "")
                 && w.files.snap.Some? && w.files.snap.value.Snap? && w.files.rootfs.Some?
                 && w.files.mem.Some? && |w.files.mem.value| > 0
                 && (w.files.snap.value.nic.Some? ==>
                       rec.hasNetwork && rec.hostDevName == w.files.snap.value.nic.value.name)
  {
  }

  /** What a save without a fault leaves in the metadata: who wrote it, how often, and when first. */
  lemma RecordAfterSave(jailed: bool, session: string, acts: seq<Action>, f: Fault)
    requires AllSound(acts) && Clean(f)
    requires Run(jailed, session, acts).live.Some? && !Run(jailed, session, acts).live.value.executed
    ensures var w := Run(jailed, session, acts);
            var inst, meta := w.live.value, Stepped(w, session, Save(f)).files.meta;
            && meta.Some? && meta.value.Json?
            && var rec := meta.value.rec;
               && rec.vmID == inst.id && rec.guestCID == inst.cid && rec.generation == w.commits + 1
               && rec.sessionID == inst.rec.sessionID
               && (inst.restored ==> w.files.meta.Some? && w.files.meta.value.Json?)
               && rec.createdAt == if inst.restored && w.files.meta.value.rec.createdAt != 0
                                   then w.files.meta.value.rec.createdAt
                                   else if inst.rec.createdAt != 0 then inst.rec.createdAt else f.now
  {
    MemoryChain(jailed, session, acts, f);
    ReachableInv(jailed, session, acts);
  }

  // ---- guest CIDs ----

  /** The counter after `k` boots, which is also the CID of the k-th one; it starts at 2. */
  function CidAt(k: nat): nat {
    if k == 0 then 2 else NextCID(CidAt(k - 1))
  }

  /** CIDs that are not reserved. */
  const CIDS: nat := 0xFFFF_FFFD

  lemma {:induction false} CidAtIs(k: nat)
    ensures k >= 1 ==> CidAt(k) == 3 + (k - 1) % CIDS
  {
    if k >= 2 {
      CidAtIs(k - 1);
      NextInCycle(k - 2);
    }
  }

  lemma NextInCycle(j: nat)
    ensures NextCID(3 + j % CIDS) == 3 + (j + 1) % CIDS
  {
    assert (j + 1) % CIDS == if j % CIDS == CIDS - 1 then 0 else j % CIDS + 1;
  }

  /** Two boots get the same CID exactly when their numbers differ by a multiple of 2^32 - 3. */
  lemma CidsDifferIff(j: nat, k: nat)
    requires j >= 1 && k >= 1
    ensures CidAt(j) == CidAt(k) <==> (j - 1) % 0xFFFF_FFFD == (k - 1) % 0xFFFF_FFFD
  {
    CidAtIs(j);
    CidAtIs(k);
  }

  /** In every state, a boot gives the instance a TAP exactly when the allowlist is not empty. */
  lemma TapIffAllowlist(w: World, session: string, b: BootCase)
    requires w.live.None?
    ensures var booted := Booted(w, session, b).live;
            booted.Some? ==> (booted.value.tap.Some? <==> b.net)
  {
  }

  /** A link that is recreated is complete, whatever its record left out. */
  lemma RecreatedTapIsComplete(w: World, session: string, b: BootCase)
    requires w.live.None? && Booted(w, session, b).live.Some? && Booted(w, session, b).live.value.restored
    ensures var tap := Booted(w, session, b).live.value.tap;
            tap.Some? ==> Storable(tap.value)
  {
    var rec := w.files.meta.value.rec;
    assert Booted(w, session, b).live.value.tap == RecreatedTap(rec);
    if rec.hasNetwork { FilledIsStorable(LinkFromRecord(rec).value); }
  }

  /**
   What the guest of a restored VM has for a network device is what its state file says: the very
   device the host recreates exactly when state file and metadata agree on it, and some device just
   where the allowlist asks for one exactly when they agree on having one.
   */
  lemma RestoredNicIff(w: World, session: string, b: BootCase)
    requires w.live.None? && Booted(w, session, b).live.Some? && Booted(w, session, b).live.value.restored
    ensures RestoreFrom(w.files).Ok? && w.files.snap.value.Snap?
    ensures var inst, nic := Booted(w, session, b).live.value, w.files.snap.value.nic;
            var rec := RestoreFrom(w.files).value;
            && (inst.tap == inst.vm.nic <==> nic == RecreatedTap(rec))
            && ((inst.vm.nic.Some? <==> b.net) <==> (nic.Some? <==> rec.hasNetwork))
  {
  }

  /** A boot that returns an instance gives it a network device exactly when the allowlist is not empty. */
  lemma NicIffAllowlist(jailed: bool, session: string, acts: seq<Action>, b: BootCase)
    requires AllSound(acts) && Sound(Boot(b))
    requires Run(jailed, session, acts).live.None?
    ensures var booted := Booted(Run(jailed, session, acts), session, b).live;
            booted.Some? ==> (booted.value.tap.Some? <==> b.net) && booted.value.vm.nic == booted.value.tap
  {
    ReachableInv(jailed, session, acts);
    BootKeepsInv(Run(jailed, session, acts), session, b);
  }

  /** The committed generation is the number of commits since the session was cold-booted. */
  lemma GenerationCountsCommits(jailed: bool, session: string, acts: seq<Action>)
    requires AllSound(acts)
    ensures var w := Run(jailed, session, acts);
            w.files.meta.Some? ==> w.files.meta.value.Json? && w.files.meta.value.rec.generation == w.commits
  {
    ReachableInv(jailed, session, acts);
  }

  /** A Full save that fails anywhere leaves nothing a later boot would resume. */
  lemma FailedFullIsNeverResumed(jailed: bool, session: string, acts: seq<Action>, f: Fault, b: BootCase)
    requires AllSound(acts) && !Clean(f)
    requires Run(jailed, session, acts).live.Some?
    requires !Run(jailed, session, acts).live.value.executed && !Run(jailed, session, acts).live.value.restored
    ensures var after := Stepped(Stepped(Run(jailed, session, acts), session, Save(f)), session, Destroy);
            var next := Booted(after, session, b);
            after.files.meta.None? && (next.live.Some? ==> !next.live.value.restored)
  {
    ReachableInv(jailed, session, acts);
    var w := Run(jailed, session, acts);
    assert Ready(w.jailed, w.files, w.live.value);
    ExportKeeps(w.jailed, w.files, w.live.value, f);
  }

  /** The save is not noticed once the VM is gone. */
  ghost predicate Unnoticed(session: string, w: World, f: Fault) {
    Stepped(Stepped(w, session, Save(f)), session, Destroy) == Stepped(w, session, Destroy)
  }

  /**
   The stops of a jailed save that leave every session as if the save had not been tried: exactly
   those before the first export.
   */
  lemma EarlyFailureLeavesSessionIff(session: string, stage: Stage)
    ensures (forall w: World, f: Fault :: w.jailed && f.at == stage ==> Unnoticed(session, w, f))
            <==> stage == AtPause || stage == AtCreate
  {
    if stage != AtPause && stage != AtCreate {
      var inst := Booted(NewWorld(true), session, PLAIN_BOOT).live.value;
      var w := NewWorld(true).(live := Some(inst));
      var f := NO_FAULT.(at := stage, snap := Whole);
      assert w.jailed && f.at == stage;
      UpToMemory(true, w.files, inst, f);
      assert !Unnoticed(session, w, f);
    }
  }
}
