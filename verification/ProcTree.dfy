/**
 Collecting a process and all its descendants for a cgroup (internal/resources/cgroup.go).

 The parent map is one reading of /proc. It need not be a tree: a pid can be reused while it is
 read, so parents can be missing and chains can be cyclic.
 */
module ProcTree {
  type Pid = nat

  /** Following `n` parent links from `pid` ends at `root`. */
  ghost predicate ChainTo(ppid: map<Pid, Pid>, pid: Pid, root: Pid, n: nat)
    decreases n
  {
    if n == 0 then pid == root
    else pid in ppid && ChainTo(ppid, ppid[pid], root, n - 1)
  }

  ghost predicate Descends(ppid: map<Pid, Pid>, pid: Pid, root: Pid) {
    exists n: nat :: ChainTo(ppid, pid, root, n)
  }

  ghost predicate NoDuplicates<T>(s: seq<T>) {
    forall i, j :: 0 <= i < j < |s| ==> s[i] != s[j]
  }

  /** A set with the root and closed under children holds every descendant. */
  lemma {:induction false} ClosedHoldsChain(ppid: map<Pid, Pid>, seen: set<Pid>, root: Pid, pid: Pid, n: nat)
    requires root in seen
    requires forall p :: p in ppid && ppid[p] in seen ==> p in seen
    requires ChainTo(ppid, pid, root, n)
    ensures pid in seen
    decreases n
  {
    if n > 0 {
      ClosedHoldsChain(ppid, seen, root, ppid[pid], n - 1);
    }
  }

  lemma ChildDescends(ppid: map<Pid, Pid>, pid: Pid, root: Pid)
    requires pid in ppid && Descends(ppid, ppid[pid], root)
    ensures Descends(ppid, pid, root)
  {
    var n: nat :| ChainTo(ppid, ppid[pid], root, n);
    assert ChainTo(ppid, pid, root, n + 1);
  }

  /**
   The fixpoint loop. Each pass visits the map in an arbitrary order; the loop ends with the first
   pass that adds nothing.
   */
  method DescendantPIDs(ppid: map<Pid, Pid>, root: Pid) returns (out: seq<Pid>)
    ensures NoDuplicates(out)
    ensures forall p :: p in out <==> p != root && Descends(ppid, p, root)
  {
    var seen := {root};
    out := [];
    var changed := true;
    assert ChainTo(ppid, root, root, 0);
    while changed
      invariant root in seen && seen <= ppid.Keys + {root}
      invariant forall p :: p in out <==> p in seen && p != root
      invariant NoDuplicates(out)
      invariant forall p :: p in seen ==> Descends(ppid, p, root)
      invariant !changed ==> forall p :: p in ppid && ppid[p] in seen ==> p in seen
      decreases |ppid.Keys - seen|, changed
    {
      changed := false;
      ghost var before := seen;
      var todo := ppid.Keys;
      while |todo| != 0
        invariant todo <= ppid.Keys
        invariant before <= seen && root in seen && seen <= ppid.Keys + {root}
        invariant forall p :: p in out <==> p in seen && p != root
        invariant NoDuplicates(out)
        invariant forall p :: p in seen ==> Descends(ppid, p, root)
        invariant !changed ==> seen == before
        invariant !changed ==> forall p :: p in ppid && p !in todo && ppid[p] in seen ==> p in seen
        invariant changed ==> ppid.Keys - seen < ppid.Keys - before
        decreases |todo|
      {
        var pid :| pid in todo;
        todo := todo - {pid};
        if pid !in seen && ppid[pid] in seen {
          ChildDescends(ppid, pid, root);
          seen := seen + {pid};
          out := out + [pid];
          changed := true;
        }
      }
      if changed { Shrinks(ppid.Keys - seen, ppid.Keys - before); }
    }
    forall p, n: nat | ChainTo(ppid, p, root, n) ensures p in seen {
      ClosedHoldsChain(ppid, seen, root, p, n);
    }
  }

  lemma Shrinks(a: set<Pid>, b: set<Pid>)
    requires a < b
    ensures |a| < |b|
  {
    assert b == a + (b - a);
  }

  /** Which processes a move leaves inside the cgroup. */
  ghost predicate MovedExactly(moved: set<Pid>, pids: seq<Pid>, accepts: Pid -> bool) {
    forall p :: p in moved <==> p in pids && accepts(p)
  }

  /** Writes every pid; a refused one is skipped, and only a move that placed nothing fails. */
  method MoveProcs(pids: seq<Pid>, accepts: Pid -> bool) returns (ok: bool, moved: set<Pid>)
    ensures MovedExactly(moved, pids, accepts)
    ensures ok <==> exists p :: p in pids && accepts(p)
  {
    moved := {};
    var count := 0;
    for i := 0 to |pids|
      invariant MovedExactly(moved, pids[..i], accepts)
      invariant count > 0 <==> exists p :: p in moved
      invariant 0 <= count
    {
      assert pids[..i + 1] == pids[..i] + [pids[i]];
      if accepts(pids[i]) {
        moved := moved + {pids[i]};
        assert pids[i] in moved;
        count := count + 1;
      }
    }
    assert pids[..|pids|] == pids;
    ok := count > 0;
  }

  /**
   Attach: the process and its descendants. When the kernel takes them all, the cgroup holds
   exactly the tree below `pid`, and the move fails only if it took none.
   */
  method AttachTree(ppid: map<Pid, Pid>, pid: Pid, accepts: Pid -> bool) returns (ok: bool, moved: set<Pid>)
    ensures forall p :: p in moved <==> Descends(ppid, p, pid) && accepts(p)
    ensures ok <==> exists p :: Descends(ppid, p, pid) && accepts(p)
  {
    var below := DescendantPIDs(ppid, pid);
    var all := [pid] + below;
    assert ChainTo(ppid, pid, pid, 0);
    assert forall p :: p in all <==> Descends(ppid, p, pid);
    ok, moved := MoveProcs(all, accepts);
  }
}
