/**
 What a session's directory can lead to when removing an old one failed, an error Boot ignores
 (internal/runtime/firecracker.go).
 */
module Removals {
  import opened Basics
  import opened Links
  import opened Sparse
  import opened Store
  import opened Sessions
  import Coherence

  // ---- a failed Full save beside old metadata ----

  /** After this failed save some boot resumes a snapshot. */
  ghost predicate ResumedAfter(w: World, session: string, f: Fault, b: BootCase) {
    var next := Booted(Stepped(Stepped(w, session, Save(f)), session, Destroy), session, b).live;
    next.Some? && next.value.restored
  }

  /** The device a state file names is on the host. */
  predicate NicFits(nic: Option<Link>, tap: Option<Link>) {
    nic.Some? ==> tap.Some? && tap.value.name == nic.value.name
  }

  /**
   What is in the directory can be resumed, or can once a stopped create has replaced an unjailed
   session's memory image.
   */
  predicate OldFilesFit(jailed: bool, files: Files, tap: Option<Link>) {
    if jailed then Loadable(files, tap)
    else files.snap.Some? && files.snap.value.Snap? && NicFits(files.snap.value.nic, tap)
  }

  /**
   The directory and the running VM as a save finds them: metadata of an earlier chain is there, and
   either its state file still fits the host or the one this save would write does.
   */
  ghost predicate OldChainResumable(jailed: bool, files: Files, nic: Option<Link>) {
    && files.meta.Some? && files.meta.value.Json?
    && var rec := files.meta.value.rec;
       && (rec.hasNetwork ==> rec.hostDevName != "")
       && (OldFilesFit(jailed, files, RecreatedTap(rec)) || NicFits(nic, RecreatedTap(rec)))
  }

  /** What a failed Full save can leave. */
  lemma FailedFullLeaves(jailed: bool, files: Files, inst: Instance, f: Fault)
    requires inst.rec.generation == 0 && !Clean(f)
    ensures var out := SaveFiles(jailed, files, inst, f).0;
            && out.meta == files.meta
            && (|| out.snap == Some(Torn)
                || out.snap == Some(Snap(inst.vm.cpu, inst.vm.nic))
                || (out.snap == files.snap && (jailed ==> out.mem == files.mem && out.rootfs == files.rootfs)))
  {
    FullExportLeaves(jailed, files, inst, f);
  }

  /** The exports of a Full save put this pause's state file in place, cut it, or have not reached it. */
  lemma FullExportLeaves(jailed: bool, files: Files, inst: Instance, f: Fault)
    requires inst.rec.generation == 0
    ensures var out := Exported(jailed, files, inst, f).0;
            && out.meta == files.meta
            && (|| out.snap == Some(Torn)
                || out.snap == Some(Snap(inst.vm.cpu, inst.vm.nic))
                || (out.snap == files.snap && (jailed ==> out.mem == files.mem && out.rootfs == files.rootfs)))
  {
    if jailed && (f.at == AtPause || f.at == AtCreate) { Coherence.EarlyStopFiles(files, inst, f); }
  }

  /** A Full save of which only the commit fails leaves everything a restore loads. */
  lemma FailedCommitLeaves(jailed: bool, files: Files, inst: Instance)
    requires inst.rec.generation == 0 && inst.vm.mem != [] && (jailed || files.rootfs.Some?)
    ensures var out := SaveFiles(jailed, files, inst, NO_FAULT.(at := AtCommit)).0;
            && out.meta == files.meta && out.mem.Some? && |out.mem.value| > 0 && out.rootfs.Some?
            && out.snap == Some(Snap(inst.vm.cpu, inst.vm.nic))
  {
  }

  /** A create that stops after it wrote some memory and before it wrote the state file. */
  const HALF_CREATED: Fault := NO_FAULT.(at := AtCreate, snap := Untouched, left := Some([Some(1)]))

  lemma HalfCreatedLeaves(files: Files, inst: Instance)
    requires inst.rec.generation == 0
    ensures SaveFiles(false, files, inst, HALF_CREATED).0 == files.(mem := Some([Some(1)]))
  {
  }

  /** A save of this kind and a boot after it, from what the directory then holds. */
  lemma ResumedFrom(w: World, session: string, f: Fault, rec: Record)
    requires w.live.Some? && !w.live.value.executed
    requires var out := SaveFiles(w.jailed, w.files, w.live.value, f).0;
             out.meta == Some(Json(rec)) && Loadable(out, RecreatedTap(rec))
    requires rec.hasNetwork ==> rec.hostDevName != ""
    ensures ResumedAfter(w, session, f, PLAIN_BOOT.(net := rec.hasNetwork))
  {
    var end := Stepped(Stepped(w, session, Save(f)), session, Destroy);
    BootResumes(end, session, PLAIN_BOOT.(net := rec.hasNetwork), rec);
  }

  /**
   Exactly when a failed Full save can be followed by a resume, whatever was done before and whether
   or not old directories could be removed: when the directory still holds metadata that
   OldChainResumable describes. A VM has memory, and an unjailed one has its disk in the directory
   (Sessions.ReachableMem).
   */
  lemma FailedFullResumedIff(w: World, session: string)
    requires w.live.Some? && !w.live.value.executed && w.live.value.rec.generation == 0
    requires w.live.value.vm.mem != [] && (w.jailed || w.files.rootfs.Some?)
    ensures (exists f, b :: !Clean(f) && ResumedAfter(w, session, f, b))
            <==> OldChainResumable(w.jailed, w.files, w.live.value.vm.nic)
  {
    var inst := w.live.value;
    forall f, b | !Clean(f) && ResumedAfter(w, session, f, b)
      ensures OldChainResumable(w.jailed, w.files, inst.vm.nic)
    {
      FailedFullLeaves(w.jailed, w.files, inst, f);
    }
    if OldChainResumable(w.jailed, w.files, inst.vm.nic) {
      var rec := w.files.meta.value.rec;
      var f := WayBack(w, inst, rec);
      ResumedFrom(w, session, f, rec);
    }
  }

  /** The stop after which the directory can be resumed. */
  lemma WayBack(w: World, inst: Instance, rec: Record) returns (f: Fault)
    requires w.live == Some(inst) && inst.rec.generation == 0 && inst.vm.mem != [] && (w.jailed || w.files.rootfs.Some?)
    requires w.files.meta == Some(Json(rec))
    requires OldFilesFit(w.jailed, w.files, RecreatedTap(rec)) || NicFits(inst.vm.nic, RecreatedTap(rec))
    ensures !Clean(f)
    ensures var out := SaveFiles(w.jailed, w.files, inst, f).0;
            out.meta == Some(Json(rec)) && Loadable(out, RecreatedTap(rec))
  {
    if NicFits(inst.vm.nic, RecreatedTap(rec)) {
      f := NO_FAULT.(at := AtCommit);
      FailedCommitLeaves(w.jailed, w.files, inst);
    } else if w.jailed {
      f := NO_FAULT.(at := AtPause);
    } else {
      f := HALF_CREATED;
      HalfCreatedLeaves(w.files, inst);
    }
  }

  /**
   Removing the old directory must succeed: when it does not, the metadata of an earlier chain
   survives a cold boot and makes a later boot resume what a failed Full save left.
   */
  lemma DeleteFailureResumesFailedFull(session: string)
    ensures exists acts, f, b ::
              && Run(true, session, acts).live.Some? && !Run(true, session, acts).live.value.restored
              && !Run(true, session, acts).live.value.executed && !Clean(f)
              && ResumedAfter(Run(true, session, acts), session, f, b)
  {
    var acts, w := Coherence.RestoredOnce(session, Never, true);
    var lost := PLAIN_BOOT.(restoreOk := false, deleteOk := false);
    RunThen(true, session, acts, Destroy);
    RunThen(true, session, acts + [Destroy], Boot(lost));
    var end := Stepped(Stepped(w, session, Destroy), session, Boot(lost));
    ColdBesideOld(Stepped(w, session, Destroy), session);
    FailedFullResumedIff(end, session);
    assert end == Run(true, session, acts + [Destroy] + [Boot(lost)]);
  }

  /** A cold boot that could not remove the first pause runs beside it. */
  lemma ColdBesideOld(w: World, session: string)
    requires Coherence.HoldsFirst(w)
    ensures var end := Stepped(w, session, Boot(PLAIN_BOOT.(restoreOk := false, deleteOk := false)));
            && end.jailed && end.files == w.files && end.live.Some?
            && !end.live.value.executed && !end.live.value.restored && end.live.value.rec.generation == 0
            && end.live.value.vm.mem != [] && end.live.value.vm.nic.None?
            && OldChainResumable(true, end.files, None)
  {
  }

  // ---- sessions that cannot boot ----

  /** Metadata is there and what it describes is not, or it cannot be understood. */
  predicate Broken(files: Files) {
    RestoreFrom(files) == Err(Corrupt)
  }

  /** Exactly when a session can boot at all: when its directory is not broken. */
  lemma BootsAgainIff(w: World, session: string)
    requires w.live.None?
    ensures (exists b :: Booted(w, session, b).live.Some?) <==> !Broken(w.files)
  {
    if !Broken(w.files) {
      assert Booted(w, session, PLAIN_BOOT.(restoreOk := false)).live.Some?;
    }
  }

  /** A broken session with no VM stays as it is, whatever is tried. */
  lemma {:induction false} BrokenStaysBroken(jailed: bool, session: string, acts: seq<Action>, more: seq<Action>)
    requires Run(jailed, session, acts).live.None? && Broken(Run(jailed, session, acts).files)
    ensures Run(jailed, session, acts + more) == Run(jailed, session, acts)
  {
    if more == [] {
      assert acts + more == acts;
    } else {
      var init, last := more[..|more| - 1], more[|more| - 1];
      assert acts + more == (acts + init) + [last];
      BrokenStaysBroken(jailed, session, acts, init);
      RunThen(jailed, session, acts + init, last);
    }
  }

  /** A removal that reaches the state file and not the metadata, after which the cold boot fails too. */
  const HALF_REMOVED: BootCase :=
    PLAIN_BOOT.(restoreOk := false, coldOk := false,
                deleteOk := false, keep := Keep(true, true, false, false, true, true))

  /** A run after which no boot of the session ever succeeds again. */
  lemma DeleteFailureBreaksSession(session: string) returns (acts: seq<Action>)
    ensures forall more: seq<Action>, b: BootCase :: Booted(Run(true, session, acts + more), session, b).live.None?
  {
    var first, w := Coherence.RestoredOnce(session, Never, true);
    acts := first + [Destroy] + [Boot(HALF_REMOVED)];
    RunThen(true, session, first, Destroy);
    RunThen(true, session, first + [Destroy], Boot(HALF_REMOVED));
    var end := Run(true, session, acts);
    HalfRemoved(Stepped(w, session, Destroy), session);
    forall more: seq<Action>, b: BootCase ensures Booted(Run(true, session, acts + more), session, b).live.None? {
      BrokenStaysBroken(true, session, acts, more);
    }
  }

  lemma HalfRemoved(w: World, session: string)
    requires Coherence.HoldsFirst(w)
    ensures var end := Stepped(w, session, Boot(HALF_REMOVED));
            end.live.None? && Broken(end.files)
  {
  }

  // ---- devices of two chains ----

  /** The link of the n-th allocation for the session. */
  lemma LinkFor(session: string, n: nat) returns (link: Link)
    requires 1 <= n <= LAST_INDEX
    ensures SetupLink(TapID("fc-1", session), n) == Some(link) && Storable(link)
  {
    Pair30Exact(172, 25, n);
    link := SetupLink(TapID("fc-1", session), n).value;
    SetupIsStorable(link);
  }

  /** One cold boot with a network device. */
  lemma FreshWithNetwork(session: string, link: Link)
    ensures var w := Booted(NewWorld(true), session, PLAIN_BOOT.(net := true, link := Some(link)));
            && w.jailed && w.live.Some? && !w.live.value.executed && w.live.value.tap == Some(link)
            && Ready(true, w.files, w.live.value) && |w.live.value.vm.mem| > 0
  {
  }

  /** A full save of it. */
  lemma SaveKeepsNetwork(w: World, session: string, link: Link) returns (rec: Record)
    requires Storable(link) && w.jailed && w.live.Some? && !w.live.value.executed && w.live.value.tap == Some(link)
    requires Ready(true, w.files, w.live.value) && |w.live.value.vm.mem| > 0
    ensures var after := Stepped(Stepped(w, session, Save(NO_FAULT)), session, Destroy);
            && after.jailed && after.live.None?
            && after.files.meta == Some(Json(rec)) && RestoreFrom(after.files) == Ok(rec)
    ensures rec.hasNetwork && rec.hostDevName != "" && RecreatedTap(rec) == Some(link)
  {
    var inst := w.live.value;
    CleanSaveCommits(true, w.files, inst, NO_FAULT);
    SavedRecordLink(inst, NO_FAULT);
    StorableIsDerived(link);
    rec := CommittedRecord(inst, NO_FAULT);
  }

  /** A session saved with the link. */
  ghost predicate HoldsLink(w: World, link: Link) {
    && w.jailed && w.live.None? && w.files.meta.Some? && w.files.meta.value.Json?
    && var rec := w.files.meta.value.rec;
       && RestoreFrom(w.files) == Ok(rec)
       && rec.hasNetwork && rec.hostDevName != "" && RecreatedTap(rec) == Some(link)
  }

  lemma SavedWithNetwork(session: string, link: Link) returns (acts: seq<Action>)
    requires Storable(link)
    ensures HoldsLink(Run(true, session, acts), link)
  {
    var boot := Boot(PLAIN_BOOT.(net := true, link := Some(link)));
    FreshWithNetwork(session, link);
    RunThen(true, session, [], boot);
    var rec := SaveKeepsNetwork(Run(true, session, [] + [boot]), session, link);
    RunThen(true, session, [] + [boot], Save(NO_FAULT));
    RunThen(true, session, [] + [boot] + [Save(NO_FAULT)], Destroy);
    acts := [] + [boot] + [Save(NO_FAULT)] + [Destroy];
  }

  /** A cold boot under another link, or none, that does not restore and cannot remove the old directory. */
  function OtherBoot(other: Option<Link>): BootCase {
    PLAIN_BOOT.(net := other.Some?, link := other, restoreOk := false, deleteOk := false)
  }

  /** With the old directory still there, a failed save leaves one chain's state file beside another's metadata. */
  lemma MixedDevices(w: World, session: string, link: Link, other: Option<Link>)
    requires HoldsLink(w, link) && NicFits(other, Some(link))
    ensures var booted := Booted(w, session, OtherBoot(other));
            var end := Stepped(Stepped(booted, session, Save(NO_FAULT.(at := AtCommit))), session, Destroy);
            var back := Booted(end, session, PLAIN_BOOT.(net := true)).live;
            end.live.None? && back.Some? && back.value.tap == Some(link) && back.value.vm.nic == other
  {
    var booted := Booted(w, session, OtherBoot(other));
    assert booted.files == w.files && booted.live.Some?;
    FailedCommitLeaves(true, booted.files, booted.live.value);
    var end := Stepped(Stepped(booted, session, Save(NO_FAULT.(at := AtCommit))), session, Destroy);
    BootResumes(end, session, PLAIN_BOOT.(net := true), w.files.meta.value.rec);
  }

  /** A run that ends so. */
  lemma MixedRun(session: string, link: Link, other: Option<Link>) returns (acts: seq<Action>, b: BootCase)
    requires Storable(link) && NicFits(other, Some(link))
    ensures Run(true, session, acts).live.None? && b.net
    ensures var booted := Booted(Run(true, session, acts), session, b).live;
            booted.Some? && booted.value.tap == Some(link) && booted.value.vm.nic == other
  {
    var first := SavedWithNetwork(session, link);
    MixedDevices(Run(true, session, first), session, link, other);
    var boot, f := Boot(OtherBoot(other)), NO_FAULT.(at := AtCommit);
    RunThen(true, session, first, boot);
    RunThen(true, session, first + [boot], Save(f));
    RunThen(true, session, first + [boot] + [Save(f)], Destroy);
    acts := first + [boot] + [Save(f)] + [Destroy];
    b := PLAIN_BOOT.(net := true);
  }

  /**
   A failed removal can leave a guest without the device its allowlist asks for: a run in which a VM
   is resumed under a non-empty allowlist whose guest has no network device.
   */
  lemma DeleteFailureLosesNic(session: string)
    ensures exists acts, b: BootCase ::
              && Run(true, session, acts).live.None? && b.net
              && var booted := Booted(Run(true, session, acts), session, b).live;
                 booted.Some? && booted.value.tap.Some? && booted.value.vm.nic.None?
  {
    var link := LinkFor(session, 1);
    var acts, b := MixedRun(session, link, None);
  }

  /** Two allocations for one session: the same names, other addresses. */
  lemma TwoLinks(session: string) returns (link: Link, other: Link)
    ensures Storable(link) && Storable(other) && link.name == other.name && link.guestMAC != other.guestMAC
  {
    link := LinkFor(session, 1);
    other := LinkFor(session, 2);
    DifferentIndexSeparates(TapID("fc-1", session), 1, TapID("fc-1", session), 2);
  }

  /** Or with another device: the name agrees, the MAC and the addresses are those of another chain. */
  lemma DeleteFailureMixesLinks(session: string)
    ensures exists acts, b: BootCase ::
              && Run(true, session, acts).live.None?
              && var booted := Booted(Run(true, session, acts), session, b).live;
                 && booted.Some? && booted.value.tap.Some? && booted.value.vm.nic.Some?
                 && booted.value.tap.value.name == booted.value.vm.nic.value.name
                 && booted.value.tap.value.guestMAC != booted.value.vm.nic.value.guestMAC
  {
    var link, other := TwoLinks(session);
    var acts, b := MixedRun(session, link, Some(other));
  }
}
