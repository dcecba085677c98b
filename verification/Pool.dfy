/**
 The pool of pre-cloned root disks (internal/runtime/pool.go) as a transition system: background
 fill goroutines, concurrent Acquire calls and guests that write to the disks they were given.
 */
module Pool {
  import opened Basics

  type Content = seq<Byte>

  /** The golden image, a clone inside the pool directory, or a disk handed to a VM. */
  datatype Path = Golden | Clone(n: nat) | Disk(dst: string)

  datatype Fill = Cloning | Cloned

  /** An Acquire that has taken a clone from the channel and not yet moved it. */
  datatype Taken = Taken(src: nat, dst: string)

  datatype State = State(
    size: nat,
    lastSeq: nat,               // the atomic counter that names clones
    ready: seq<nat>,            // the bounded channel
    owed: nat,                  // fill goroutines started but not yet counted
    filling: map<nat, Fill>,    // fills in flight
    failed: nat,                // fills whose clone failed
    taking: map<nat, Taken>,    // Acquire calls between the receive and the rename
    handed: seq<nat>,           // clones ever received from the channel, in order
    files: map<Path, Content>)

  datatype Outcome = Renamed | FellBack | Failed

  datatype Action =
    | StartFill
    | CloneDone(n: nat, ok: bool, left: Content)
    | Publish(n: nat)
    | Take(t: nat, dst: string)
    | Place(t: nat, how: Outcome, left: Content)
    | Miss(dst: string, ok: bool, left: Content)
    | GuestWrites(dst: string, content: Content)
    | RemoveDisk(dst: string)

  function NewPool(size: nat, golden: Content): State {
    State(size, 0, [], size, map[], 0, map[], [], map[Golden := golden])
  }

  /** `cp golden dst`: on failure whatever was written stays behind. */
  function CloneTo(files: map<Path, Content>, dst: Path, ok: bool, left: Content): map<Path, Content>
    requires Golden in files
  {
    files[dst := if ok then files[Golden] else left]
  }

  function Step(s: State, a: Action): State
    requires Golden in s.files
  {
    match a
    case StartFill =>
      if s.owed == 0 then s
      else s.(owed := s.owed - 1, lastSeq := s.lastSeq + 1, filling := s.filling[s.lastSeq + 1 := Cloning])
    case CloneDone(n, ok, left) =>
      if n !in s.filling || s.filling[n] != Cloning then s
      else if ok then s.(filling := s.filling[n := Cloned], files := CloneTo(s.files, Clone(n), true, left))
      else s.(filling := s.filling - {n}, failed := s.failed + 1, files := CloneTo(s.files, Clone(n), false, left))
    case Publish(n) =>
      if n !in s.filling || s.filling[n] != Cloned then s
      else if |s.ready| < s.size then s.(filling := s.filling - {n}, ready := s.ready + [n])
      else s.(filling := s.filling - {n}, files := s.files - {Clone(n)})
    case Take(t, dst) =>
      if s.ready == [] || t in s.taking then s
      else s.(ready := s.ready[1..],
              owed := s.owed + 1,
              taking := s.taking[t := Taken(s.ready[0], dst)],
              handed := s.handed + [s.ready[0]])
    case Place(t, how, left) =>
      if t !in s.taking then s
      else
        var src, dst := Clone(s.taking[t].src), Disk(s.taking[t].dst);
        var moved := match how
          case Renamed => if src in s.files then s.files[dst := s.files[src]] - {src} else s.files
          case FellBack => CloneTo(s.files, dst, true, left)
          case Failed => CloneTo(s.files, dst, false, left);
        s.(taking := s.taking - {t}, files := moved)
    case Miss(dst, ok, left) =>
      if s.ready != [] then s else s.(files := CloneTo(s.files, Disk(dst), ok, left))
    case GuestWrites(dst, content) =>
      if Disk(dst) in s.files then s.(files := s.files[Disk(dst) := content]) else s
    case RemoveDisk(dst) => s.(files := s.files - {Disk(dst)})
  }

  // ---- invariant ----

  ghost predicate NoDuplicates(s: seq<nat>) {
    forall i, j :: 0 <= i < j < |s| ==> s[i] != s[j]
  }

  /** Every fill that was ever owed is accounted for. */
  ghost predicate Conserved(s: State) {
    |s.ready| + |s.filling| + s.owed + s.failed == s.size
  }

  /** A clone is in one place only: being filled, ready, or handed out. */
  ghost predicate OnePlace(s: State) {
    && NoDuplicates(s.ready) && NoDuplicates(s.handed)
    && (forall n :: n in s.ready ==> n !in s.filling && n !in s.handed)
    && (forall n :: n in s.filling ==> n !in s.handed)
    && (forall n :: n in s.ready || n in s.filling || n in s.handed ==> n <= s.lastSeq)
    && (forall t :: t in s.taking ==> s.taking[t].src in s.handed)
    && (forall t, u :: t in s.taking && u in s.taking && t != u ==> s.taking[t].src != s.taking[u].src)
  }

  ghost predicate Clean(s: State, n: nat, golden: Content) {
    Clone(n) in s.files && s.files[Clone(n)] == golden
  }

  /** The golden image and every clone not yet moved to a VM hold the golden content. */
  ghost predicate AllClean(s: State, golden: Content) {
    && Golden in s.files && s.files[Golden] == golden
    && (forall n :: n in s.ready ==> Clean(s, n, golden))
    && (forall n :: n in s.filling && s.filling[n] == Cloned ==> Clean(s, n, golden))
    && (forall t :: t in s.taking ==> Clean(s, s.taking[t].src, golden))
  }

  ghost predicate Inv(s: State, golden: Content) {
    Conserved(s) && OnePlace(s) && AllClean(s, golden)
  }

  lemma FillSize(m: map<nat, Fill>, n: nat, f: Fill)
    ensures |m[n := f]| == |m| + if n in m then 0 else 1
    ensures |m - {n}| == |m| - if n in m then 1 else 0
  {
    assert m[n := f].Keys == m.Keys + {n};
    assert (m - {n}).Keys == m.Keys - {n};
  }

  lemma StartFillKeeps(s: State, golden: Content)
    requires Inv(s, golden)
    ensures Inv(Step(s, StartFill), golden)
  {
    FillSize(s.filling, s.lastSeq + 1, Cloning);
    assert s.lastSeq + 1 !in s.filling;
  }

  lemma CloneDoneKeeps(s: State, n: nat, ok: bool, left: Content, golden: Content)
    requires Inv(s, golden)
    ensures Inv(Step(s, CloneDone(n, ok, left)), golden)
  {
    if n in s.filling && s.filling[n] == Cloning {
      FillSize(s.filling, n, Cloned);
      var t := Step(s, CloneDone(n, ok, left));
      assert forall m :: m != n && Clean(s, m, golden) ==> Clean(t, m, golden);
    }
  }

  lemma PublishKeeps(s: State, n: nat, golden: Content)
    requires Inv(s, golden)
    ensures Inv(Step(s, Publish(n)), golden)
    ensures n in s.filling ==> |s.ready| < s.size
  {
    FillSize(s.filling, n, Cloned);
    if n in s.filling && s.filling[n] == Cloned {
      var t := Step(s, Publish(n));
      assert t == s.(filling := s.filling - {n}, ready := s.ready + [n]);
      PublishKeepsPlaces(s, n);
      assert forall m :: Clean(t, m, golden) == Clean(s, m, golden);
    }
  }

  lemma PublishKeepsPlaces(s: State, n: nat)
    requires OnePlace(s) && n in s.filling
    ensures OnePlace(s.(filling := s.filling - {n}, ready := s.ready + [n]))
  {
    var ready := s.ready + [n];
    assert forall m :: m in ready <==> m in s.ready || m == n;
    assert NoDuplicates(ready);
  }

  /** The head of the channel is in no other place, and neither is the rest. */
  lemma HeadIsAlone(ready: seq<nat>)
    requires ready != [] && NoDuplicates(ready)
    ensures ready[0] in ready && NoDuplicates(ready[1..])
    ensures forall n :: n in ready[1..] ==> n in ready && n != ready[0]
  {
  }

  lemma TakeKeepsPlaces(s: State, t: nat, dst: string, golden: Content)
    requires Inv(s, golden) && s.ready != [] && t !in s.taking
    ensures OnePlace(Step(s, Take(t, dst)))
  {
    var head := s.ready[0];
    HeadIsAlone(s.ready);
    var u := Step(s, Take(t, dst));
    assert forall n :: n in u.handed <==> n in s.handed || n == head;
    assert NoDuplicates(u.handed);
  }

  lemma TakeKeeps(s: State, t: nat, dst: string, golden: Content)
    requires Inv(s, golden)
    ensures Inv(Step(s, Take(t, dst)), golden)
  {
    if s.ready != [] && t !in s.taking {
      TakeKeepsPlaces(s, t, dst, golden);
      HeadIsAlone(s.ready);
      var u := Step(s, Take(t, dst));
      assert forall m :: Clean(u, m, golden) == Clean(s, m, golden);
    }
  }

  lemma PlaceKeepsOthers(s: State, t: nat, how: Outcome, left: Content, golden: Content)
    requires Inv(s, golden) && t in s.taking
    ensures var u := Step(s, Place(t, how, left));
            && Golden in u.files && u.files[Golden] == golden
            && forall m :: m != s.taking[t].src && Clean(s, m, golden) ==> Clean(u, m, golden)
  {
  }

  lemma PlaceKeeps(s: State, t: nat, how: Outcome, left: Content, golden: Content)
    requires Inv(s, golden)
    ensures Inv(Step(s, Place(t, how, left)), golden)
  {
    if t in s.taking {
      PlaceKeepsOthers(s, t, how, left, golden);
      var u := Step(s, Place(t, how, left));
      assert u == s.(taking := s.taking - {t}, files := u.files);
    }
  }

  /** A change to VM disks alone touches no clone. */
  lemma DiskChangeKeeps(s: State, files: map<Path, Content>, golden: Content)
    requires Inv(s, golden)
    requires forall p: Path :: !p.Disk? ==> (p in files <==> p in s.files) && (p in files ==> files[p] == s.files[p])
    ensures Inv(s.(files := files), golden)
  {
    assert forall m :: Clean(s, m, golden) ==> Clean(s.(files := files), m, golden);
  }

  lemma StepKeepsInv(s: State, a: Action, golden: Content)
    requires Inv(s, golden)
    ensures Inv(Step(s, a), golden) && Step(s, a).size == s.size
  {
    match a
    case StartFill => StartFillKeeps(s, golden);
    case CloneDone(n, ok, left) => CloneDoneKeeps(s, n, ok, left, golden);
    case Publish(n) => PublishKeeps(s, n, golden);
    case Take(t, dst) => TakeKeeps(s, t, dst, golden);
    case Place(t, how, left) => PlaceKeeps(s, t, how, left, golden);
    case Miss(dst, ok, left) => DiskChangeKeeps(s, Step(s, a).files, golden);
    case GuestWrites(dst, content) => DiskChangeKeeps(s, Step(s, a).files, golden);
    case RemoveDisk(dst) => DiskChangeKeeps(s, Step(s, a).files, golden);
  }

  /** The state after a run. */
  function Run(size: nat, golden: Content, acts: seq<Action>): (s: State)
    ensures Golden in s.files
  {
    if acts == [] then NewPool(size, golden)
    else
      var s := Run(size, golden, acts[..|acts| - 1]);
      Step(s, acts[|acts| - 1])
  }

  /**
   In every interleaving, ready clones, fills in flight, fills owed and failed fills add up to the
   pool size; every clone not yet handed to a VM is golden.
   */
  lemma {:induction false} PoolInvariant(size: nat, golden: Content, acts: seq<Action>)
    ensures Inv(Run(size, golden, acts), golden) && Run(size, golden, acts).size == size
  {
    if acts != [] {
      var init, a := acts[..|acts| - 1], acts[|acts| - 1];
      PoolInvariant(size, golden, init);
      var s := Run(size, golden, init);
      StepKeepsInv(s, a, golden);
    }
  }

  /** A fill started now that meets no fault ends with one more clean ready clone. */
  ghost predicate Refills(s: State, golden: Content)
    requires Golden in s.files
  {
    var n := s.lastSeq + 1;
    var s1 := Step(s, StartFill);
    var s2 := Step(s1, CloneDone(n, true, []));
    var s3 := Step(s2, Publish(n));
    s3.ready == s.ready + [n] && s3.owed == s.owed - 1 && s3.failed == s.failed && Clean(s3, n, golden)
  }

  lemma FillOnce(s: State, golden: Content)
    requires Inv(s, golden) && s.owed > 0
    ensures Refills(s, golden)
  {
    var n := s.lastSeq + 1;
    var s1 := Step(s, StartFill);
    assert s1.filling[n] == Cloning && s1.ready == s.ready && s1.size == s.size && s1.files == s.files;
    var s2 := Step(s1, CloneDone(n, true, []));
    assert s2.filling[n] == Cloned && s2.ready == s.ready && s2.size == s.size && Clean(s2, n, golden);
    assert |s2.ready| < s2.size;
  }

  /** The pool refills: while a fill is owed, running it adds a clone. */
  lemma OwedFillRefills(size: nat, golden: Content, acts: seq<Action>)
    requires Run(size, golden, acts).owed > 0
    ensures Refills(Run(size, golden, acts), golden)
  {
    PoolInvariant(size, golden, acts);
    FillOnce(Run(size, golden, acts), golden);
  }

  /** A finished clone always finds room in the channel: the removal branch of fill never runs. */
  lemma OverflowUnreachable(size: nat, golden: Content, acts: seq<Action>, n: nat)
    ensures var s := Run(size, golden, acts);
            n in s.filling ==> |s.ready| < s.size
  {
    PoolInvariant(size, golden, acts);
    FillSize(Run(size, golden, acts).filling, n, Cloned);
  }

  /** No clone is ever given to two Acquire calls, and none returns to the channel. */
  lemma HandedOnce(size: nat, golden: Content, acts: seq<Action>, n: nat)
    ensures var s := Run(size, golden, acts);
            NoDuplicates(s.handed) && (n in s.handed ==> n !in s.ready && n !in s.filling)
  {
    PoolInvariant(size, golden, acts);
  }

  /**
   Whatever guests wrote to earlier disks, an Acquire that succeeds, by rename, by fallback or on
   an empty pool, puts the golden content at its destination.
   */
  lemma AcquireIsClean(size: nat, golden: Content, acts: seq<Action>, a: Action)
    ensures var s := Run(size, golden, acts);
            var files := Step(s, a).files;
            && (a.Place? && a.t in s.taking && a.how != Failed ==>
                  Disk(s.taking[a.t].dst) in files && files[Disk(s.taking[a.t].dst)] == golden)
            && (a.Miss? && s.ready == [] && a.ok ==> Disk(a.dst) in files && files[Disk(a.dst)] == golden)
  {
    PoolInvariant(size, golden, acts);
    var s := Run(size, golden, acts);
    if a.Place? && a.t in s.taking {
      assert Clean(s, s.taking[a.t].src, golden);
    }
  }

  /** Between the receive and the rename an Acquire keeps its clone and its destination. */
  lemma {:induction false} TakenStays(size: nat, golden: Content, acts: seq<Action>, t: nat, more: seq<Action>)
    requires t in Run(size, golden, acts).taking
    requires forall i :: 0 <= i < |more| ==> !(more[i].Place? && more[i].t == t)
    ensures var s, u := Run(size, golden, acts), Run(size, golden, acts + more);
            t in u.taking && u.taking[t] == s.taking[t]
  {
    if more == [] {
      assert acts + more == acts;
    } else {
      var init, last := more[..|more| - 1], more[|more| - 1];
      TakenStays(size, golden, acts, t, init);
      assert acts + more == (acts + init) + [last];
      RunThen(size, golden, acts + init, last);
      StepKeepsTaken(Run(size, golden, acts + init), last, t);
    }
  }

  lemma StepKeepsTaken(s: State, a: Action, t: nat)
    requires Golden in s.files && t in s.taking && !(a.Place? && a.t == t)
    ensures t in Step(s, a).taking && Step(s, a).taking[t] == s.taking[t]
  {
  }

  lemma RunThen(size: nat, golden: Content, acts: seq<Action>, a: Action)
    ensures Run(size, golden, acts + [a]) == Step(Run(size, golden, acts), a)
  {
    assert (acts + [a])[..|acts|] == acts;
  }

  /**
   A whole Acquire, with anything in between: the caller's own destination gets the golden content,
   from the clone that had been ready longest.
   */
  lemma AcquireDelivers(size: nat, golden: Content, acts: seq<Action>, t: nat, dst: string, more: seq<Action>,
                        how: Outcome, left: Content)
    requires Run(size, golden, acts).ready != [] && t !in Run(size, golden, acts).taking && how != Failed
    requires forall i :: 0 <= i < |more| ==> !(more[i].Place? && more[i].t == t)
    ensures var before := acts + [Take(t, dst)] + more;
            var s := Run(size, golden, before + [Place(t, how, left)]);
            && Disk(dst) in s.files && s.files[Disk(dst)] == golden
            && t in Run(size, golden, before).taking
            && Run(size, golden, before).taking[t].src == Run(size, golden, acts).ready[0]
  {
    var before := acts + [Take(t, dst)] + more;
    RunThen(size, golden, acts, Take(t, dst));
    TakenStays(size, golden, acts + [Take(t, dst)], t, more);
    RunThen(size, golden, before, Place(t, how, left));
    AcquireIsClean(size, golden, before, Place(t, how, left));
  }

  /** The channel is first in, first out: what was handed out and what is ready only grows at its end. */
  lemma ChannelIsFifo(size: nat, golden: Content, acts: seq<Action>, a: Action)
    ensures var s, u := Run(size, golden, acts), Run(size, golden, acts + [a]);
            s.handed + s.ready <= u.handed + u.ready
  {
    RunThen(size, golden, acts, a);
    StepIsFifo(Run(size, golden, acts), a);
  }

  lemma StepIsFifo(s: State, a: Action)
    requires Golden in s.files
    ensures s.handed + s.ready <= Step(s, a).handed + Step(s, a).ready
  {
    if a.Take? && s.ready != [] && a.t !in s.taking {
      assert s.handed + ([s.ready[0]] + s.ready[1..]) == (s.handed + [s.ready[0]]) + s.ready[1..];
    } else if a.Publish? {
      assert s.handed + (s.ready + [a.n]) == (s.handed + s.ready) + [a.n];
    }
  }

  /** The shared part of the pool as an object; each method is one atomic step. */
  class FilePool {
    ghost const golden: Content
    var s: State

    constructor (size: nat, golden: Content)
      ensures s == NewPool(size, golden) && this.golden == golden && Inv(s, golden)
    {
      s := NewPool(size, golden);
      this.golden := golden;
      PoolInvariant(size, golden, []);
    }

    /** The select in Acquire: a ready clone and a new fill, or a miss. */
    method ReceiveReady(t: nat, dst: string) returns (src: Option<nat>)
      requires Inv(s, golden) && t !in s.taking
      modifies this
      ensures s == Step(old(s), Take(t, dst)) && Inv(s, golden)
      ensures src.None? <==> old(s).ready == []
      ensures src.Some? ==> src.value in old(s).ready && src.value !in s.ready && src.value !in old(s).handed
    {
      StepKeepsInv(s, Take(t, dst), golden);
      if s.ready == [] {
        return None;
      }
      var head := s.ready[0];
      assert head in s.ready;
      s := s.(ready := s.ready[1..], owed := s.owed + 1,
              taking := s.taking[t := Taken(head, dst)], handed := s.handed + [head]);
      return Some(head);
    }

    /** The end of fill: publish the clone. */
    method SendReady(n: nat)
      requires Inv(s, golden) && n in s.filling && s.filling[n] == Cloned
      modifies this
      ensures s == Step(old(s), Publish(n)) && Inv(s, golden)
      ensures s.ready == old(s).ready + [n]
    {
      StepKeepsInv(s, Publish(n), golden);
      FillSize(s.filling, n, Cloned);
      s := s.(filling := s.filling - {n}, ready := s.ready + [n]);
    }
  }
}
