/**
 The directory store of session snapshots (internal/snapshot/store.go).

 One directory per session holds the VM state, the memory image, the dirty root disk and the
 metadata. Metadata is the JSON of a record, which is taken to round-trip.
 */
module Store {
  import opened Basics
  import opened Paths
  import opened Links
  import opened Sparse

  type Disk = seq<Byte>

  /** The VM state file: register state and the network device baked into it, or a torn write. */
  datatype SnapFile = Snap(cpu: nat, nic: Option<Link>) | Torn

  datatype MetaFile = Json(rec: Record) | Garbage

  /** The files of one session directory. */
  datatype Files = Files(
    meta: Option<MetaFile>,
    tmp: Option<MetaFile>,
    snap: Option<SnapFile>,
    mem: Option<File>,
    diff: Option<File>,
    rootfs: Option<Disk>)

  const NO_FILES: Files := Files(None, None, None, None, None, None)

  datatype Error = Invalid | NotFound | Corrupt | Refused | Io

  datatype Result<+T> = Ok(value: T) | Err(error: Error)

  // ---- session ids and directories ----

  predicate Sanitized(id: string) {
    && id != ""
    && id == Base(id) && !(id[0] == '/') && id != "." && id != ".."
  }

  /** The check accepts exactly the names that are one ordinary path component. */
  lemma SanitizedIff(id: string)
    ensures Sanitized(id) <==> id != "" && '/' !in id && id != "." && id != ".."
  {
    OwnBaseIff(id);
  }

  function SessionDir(root: string, id: string): string {
    root + "/" + id
  }

  /** A name without slashes ends at the first slash after it. */
  lemma {:induction false} FirstComponent(a: string, b: string, p: string, q: string)
    requires '/' !in a && '/' !in b && a + "/" + p == b + "/" + q
    ensures a == b && p == q
    decreases |a|
  {
    SlashAt(a, p);
    SlashAt(b, q);
    if a == "" || b == "" {
      assert a == "" && b == "";
      assert ("" + "/" + p)[1..] == p && ("" + "/" + q)[1..] == q;
    } else {
      TailOfPath(a, p);
      TailOfPath(b, q);
      FirstComponent(a[1..], b[1..], p, q);
      assert a == [a[0]] + a[1..] && b == [b[0]] + b[1..];
    }
  }

  /** The first character of a path is that of its first component, or the slash after it. */
  lemma SlashAt(a: string, p: string)
    ensures |a + "/" + p| > 0 && (a + "/" + p)[0] == if a == "" then '/' else a[0]
  {
  }

  lemma TailOfPath(a: string, p: string)
    requires a != ""
    ensures (a + "/" + p)[1..] == a[1..] + "/" + p
  {
  }

  lemma BelowRoot(root: string, a: string, p: string)
    ensures SessionDir(root, a) + "/" + p == (root + "/") + (a + "/" + p)
  {
  }

  /** No file below one session's directory is a file below another's. */
  lemma DirectoriesAreDisjoint(root: string, a: string, b: string, p: string, q: string)
    requires Sanitized(a) && Sanitized(b)
    requires SessionDir(root, a) + "/" + p == SessionDir(root, b) + "/" + q
    ensures a == b && p == q
  {
    SanitizedIff(a);
    SanitizedIff(b);
    BelowRoot(root, a, p);
    BelowRoot(root, b, q);
    SamePrefix(root + "/", a + "/" + p, b + "/" + q);
    FirstComponent(a, b, p, q);
  }

  // ---- one directory ----

  function FreshRecord(id: string, vmID: string): Record {
    Record(id, vmID, 0, false, "", "", "", "", "", "", "", "", "", "", "", 0, NoKind, 0)
  }

  function RestoreFrom(files: Files): Result<Record> {
    match files.meta
    case None => Err(NotFound)
    case Some(Garbage) => Err(Corrupt)
    case Some(Json(rec)) => if files.snap.None? || files.mem.None? then Err(Corrupt) else Ok(rec)
  }

  /** Commit refuses a directory without a state file, a non-empty memory image and a root disk. */
  predicate Complete(files: Files) {
    files.snap.Some? && files.mem.Some? && |files.mem.value| > 0 && files.rootfs.Some?
  }

  function Stamped(rec: Record, now: nat): Record {
    if rec.createdAt == 0 then rec.(createdAt := now) else rec
  }

  /** The directory after each of the three steps of writing metadata. */
  function CommitStep(files: Files, rec: Record, step: nat): Files
    requires step <= 3
  {
    if step == 0 then files
    else if step == 1 then files.(tmp := Some(Garbage))
    else if step == 2 then files.(tmp := Some(Json(rec)))
    else files.(tmp := None, meta := Some(Json(rec)))
  }

  /** Wherever a commit stops, a restore sees the old outcome or the new record. */
  lemma CommitIsAtomic(files: Files, rec: Record, step: nat)
    requires step <= 3 && Complete(files)
    ensures var seen := RestoreFrom(CommitStep(files, rec, step));
            seen == if step < 3 then RestoreFrom(files) else Ok(rec)
  {
  }

  /** Which files a removal that fails part-way has not reached. */
  datatype Keep = Keep(meta: bool, tmp: bool, snap: bool, mem: bool, diff: bool, rootfs: bool)

  function Survivors(files: Files, keep: Keep): Files {
    Files(if keep.meta then files.meta else None,
          if keep.tmp then files.tmp else None,
          if keep.snap then files.snap else None,
          if keep.mem then files.mem else None,
          if keep.diff then files.diff else None,
          if keep.rootfs then files.rootfs else None)
  }

  // ---- the store ----

  type Tree = map<string, Files>

  /** The abstract store: the last committed record of each session. */
  ghost function Committed(tree: Tree): map<string, Record> {
    map id | id in tree && tree[id].meta.Some? && tree[id].meta.value.Json? :: tree[id].meta.value.rec
  }

  /** Each step of writing metadata leaves the committed records, the last one updates them. */
  lemma CommitUpdates(tree: Tree, id: string, rec: Record, step: nat)
    requires id in tree && step <= 3
    ensures Committed(tree[id := CommitStep(tree[id], rec, step)])
            == if step == 3 then Committed(tree)[id := rec] else Committed(tree)
  {
  }

  /** Every other session's directory is untouched. */
  ghost predicate OnlyTouches(before: Tree, after: Tree, id: string) {
    after - {id} == before - {id}
  }

  class DirStore {
    const root: string
    var tree: Tree

    constructor (root: string)
      ensures this.root == root && tree == map[]
    {
      this.root := root;
      tree := map[];
    }

    predicate Usable(id: string) {
      Sanitized(id) && root != ""
    }

    /** The store accepts a session id exactly when it is one ordinary path component and the store has a root. */
    lemma UsableIff(id: string)
      ensures Usable(id) <==> root != "" && id != "" && '/' !in id && id != "." && id != ".."
    {
      SanitizedIff(id);
    }

    /** The session has a directory with everything a commit wants. */
    predicate CanCommit(id: string)
      reads this
    {
      Usable(id) && id in tree && Complete(tree[id])
    }

    /** `made` says whether the directory can be made. */
    method Prepare(id: string, vmID: string, made: bool) returns (r: Result<Record>)
      modifies this
      ensures r == if !Usable(id) then Err(Invalid) else if made then Ok(FreshRecord(id, vmID)) else Err(Io)
      ensures r.Ok? ==> && r.value.sessionID == id && r.value.vmID == vmID && r.value.generation == 0
                        && !r.value.hasNetwork && r.value.createdAt == 0 && r.value.lastKind == NoKind
      ensures tree == if r.Ok? && id !in old(tree) then old(tree)[id := NO_FILES] else old(tree)
      ensures Committed(tree) == Committed(old(tree))
    {
      if !Usable(id) { return Err(Invalid); }
      if !made { return Err(Io); }
      if id !in tree {
        tree := tree[id := NO_FILES];
        assert Committed(tree) == Committed(old(tree));
      }
      return Ok(FreshRecord(id, vmID));
    }

    /** `stop` is the step of writing the metadata after which the host fails; 3 is no failure. */
    method Commit(rec: Record, now: nat, stop: nat) returns (r: Result<Record>)
      requires stop <= 3
      modifies this
      ensures r.Ok? <==>
                && Usable(rec.sessionID) && rec.sessionID in old(tree) && stop == 3
                && var files := old(tree)[rec.sessionID];
                   files.snap.Some? && files.mem.Some? && |files.mem.value| > 0 && files.rootfs.Some?
      ensures r.Ok? ==> r.value == rec.(createdAt := if rec.createdAt != 0 then rec.createdAt else now)
      ensures r.Ok? ==>
                var files := old(tree)[rec.sessionID];
                tree == old(tree)[rec.sessionID := files.(meta := Some(Json(r.value)), tmp := None)]
      ensures !old(CanCommit(rec.sessionID)) ==> tree == old(tree)
      ensures old(CanCommit(rec.sessionID)) ==>
                tree == old(tree)[rec.sessionID := CommitStep(old(tree)[rec.sessionID], Stamped(rec, now), stop)]
      ensures rec.sessionID in old(tree) ==>
                RestoreFrom(tree[rec.sessionID]) == if r.Ok? then Ok(r.value) else RestoreFrom(old(tree)[rec.sessionID])
      ensures Committed(tree) == if r.Ok? then Committed(old(tree))[rec.sessionID := r.value] else Committed(old(tree))
    {
      var id := rec.sessionID;
      if !Usable(id) { return Err(Invalid); }
      if id !in tree || !Complete(tree[id]) { return Err(Refused); }
      var stamped := Stamped(rec, now);
      ghost var was := tree[id];
      CommitIsAtomic(was, stamped, stop);
      CommitUpdates(tree, id, stamped, stop);
      assert tree == tree[id := CommitStep(was, stamped, 0)];
      if stop == 0 { return Err(Io); }
      WriteDir(id, tree[id].(tmp := Some(Garbage)));
      if stop == 1 { return Err(Io); }
      WriteDir(id, tree[id].(tmp := Some(Json(stamped))));
      if stop == 2 { return Err(Io); }
      WriteDir(id, tree[id].(tmp := None, meta := Some(Json(stamped))));
      return Ok(stamped);
    }

    method WriteDir(id: string, files: Files)
      modifies this
      ensures tree == old(tree)[id := files]
    {
      tree := tree[id := files];
    }

    /** `readable` says whether metadata that is there can be read. */
    method Restore(id: string, readable: bool) returns (r: Result<Record>)
      ensures r == if !Usable(id) then Err(Invalid)
                   else if !readable then Err(Io)
                   else if id in tree then RestoreFrom(tree[id])
                   else Err(NotFound)
      ensures r.Ok? <==> && Usable(id) && readable && id in Committed(tree)
                         && tree[id].snap.Some? && tree[id].mem.Some?
      ensures r.Ok? ==> r.value == Committed(tree)[id]
      ensures Usable(id) && readable && (id in tree ==> tree[id].meta.None?) ==> r == Err(NotFound)
    {
      if !Usable(id) { return Err(Invalid); }
      if !readable { return Err(Io); }
      if id !in tree { return Err(NotFound); }
      return RestoreFrom(tree[id]);
    }

    /** `removed` says whether the removal ends; otherwise `keep` is what it has not reached. */
    method Delete(id: string, removed: bool, keep: Keep) returns (ok: bool)
      modifies this
      ensures ok <==> Usable(id) && removed
      ensures tree == if ok then old(tree) - {id}
                      else if Usable(id) && id in old(tree) then old(tree)[id := Survivors(old(tree)[id], keep)]
                      else old(tree)
      ensures ok ==> Committed(tree) == Committed(old(tree)) - {id}
      ensures forall s :: s != id && s in Committed(old(tree)) ==>
                            s in Committed(tree) && Committed(tree)[s] == Committed(old(tree))[s]
    {
      if !Usable(id) { return false; }
      ok := removed;
      if ok {
        tree := tree - {id};
        assert Committed(tree) == Committed(old(tree)) - {id};
      } else if id in tree {
        tree := tree[id := Survivors(tree[id], keep)];
      }
    }
  }
}
