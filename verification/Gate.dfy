/**
 The gate that bounds live microVMs (internal/runtime/gate.go), driven by requests that boot one
 instance and destroy it (internal/api/execute.go).

 Goroutines interleave between the atomic steps below. A call of Gate.Boot is identified by a number.
 */
module Gate {
  datatype Phase =
    | Queued    // waiting in the select
    | Booting   // holds a slot, the inner Boot is running
    | Refused   // returned an error: cancelled, busy, or the inner Boot failed
    | Leased(released: bool,   // the once-only release has run
             dead: bool,       // the inner instance's destroyed flag
             killing: bool,    // the Destroy that set the flag is still stopping the VM
             returning: nat,   // Destroy calls past the inner Destroy, about to release
             vm: bool)         // the VM process is alive

  datatype State = State(max: nat, sem: nat, calls: map<nat, Phase>)

  datatype Action =
    | Enter(c: nat)     // Gate.Boot is called
    | Acquire(c: nat)   // the send on the semaphore channel succeeds
    | GiveUp(c: nat)    // the context ends or the wait timer fires
    | BootOk(c: nat)
    | BootFail(c: nat)
    | Destroy(c: nat)   // leasedInstance.Destroy enters the inner Destroy
    | Killed(c: nat)    // the inner Destroy that won the flag returns
    | Release(c: nat)   // the deferred release runs

  function NewState(max: int): State {
    State(if max < 1 then 1 else max, 0, map[])
  }

  /** One atomic step; a step that is not enabled, or would block, changes nothing. */
  function Step(s: State, a: Action): State {
    var c := a.c;
    if a.Enter? then
      if c in s.calls then s else s.(calls := s.calls[c := Queued])
    else if c !in s.calls then s
    else
      var p := s.calls[c];
      match a
      case Enter(_) => s
      case Acquire(_) => if p.Queued? && s.sem < s.max then s.(sem := s.sem + 1, calls := s.calls[c := Booting]) else s
      case GiveUp(_) => if p.Queued? then s.(calls := s.calls[c := Refused]) else s
      case BootOk(_) =>
        if p.Booting? then s.(calls := s.calls[c := Leased(false, false, false, 0, true)]) else s
      case BootFail(_) => if p.Booting? && s.sem > 0 then s.(sem := s.sem - 1, calls := s.calls[c := Refused]) else s
      case Destroy(_) =>
        if !p.Leased? then s
        else if !p.dead then s.(calls := s.calls[c := p.(dead := true, killing := true)])
        else s.(calls := s.calls[c := p.(returning := p.returning + 1)])
      case Killed(_) =>
        if p.Leased? && p.killing
        then s.(calls := s.calls[c := p.(killing := false, vm := false, returning := p.returning + 1)]) else s
      case Release(_) =>
        if !(p.Leased? && p.returning > 0) then s
        else if p.released then s.(calls := s.calls[c := p.(returning := p.returning - 1)])
        else if s.sem > 0 then
          s.(sem := s.sem - 1, calls := s.calls[c := p.(released := true, returning := p.returning - 1)])
        else s
  }

  function Run(s: State, acts: seq<Action>): State {
    if acts == [] then s else Step(Run(s, acts[..|acts| - 1]), acts[|acts| - 1])
  }

  // ---- slot conservation ----

  predicate Holds(p: Phase) {
    p.Booting? || (p.Leased? && !p.released)
  }

  /** The calls that own a slot: inner boots in flight and leases not yet released. */
  ghost function Holders(s: State): set<nat> {
    set c | c in s.calls && Holds(s.calls[c])
  }

  /** A lease starts whole, and a destroyed one gives its slot back or is about to. */
  predicate LeaseOk(p: Phase) {
    p.Leased? ==>
      && (!p.dead ==> p.vm && !p.killing && p.returning == 0 && !p.released)
      && (p.dead && !p.released ==> p.killing || p.returning > 0)
      && (p.killing ==> p.dead && p.vm)
      && (p.dead && !p.killing ==> !p.vm)
  }

  ghost predicate Inv(s: State) {
    && s.sem == |Holders(s)| <= s.max
    && forall c :: c in s.calls ==> LeaseOk(s.calls[c])
  }

  lemma OneCallMoves(s: State, t: State, c: nat)
    requires c in t.calls && t.calls == s.calls[c := t.calls[c]]
    ensures var held := c in s.calls && Holds(s.calls[c]);
            |Holders(t)| == |Holders(s)|
                            + (if Holds(t.calls[c]) && !held then 1 else 0)
                            - (if held && !Holds(t.calls[c]) then 1 else 0)
  {
    if Holds(t.calls[c]) {
      assert Holders(t) == Holders(s) + {c};
    } else {
      assert Holders(t) == Holders(s) - {c};
    }
  }

  lemma StepKeepsInv(s: State, a: Action)
    requires Inv(s)
    ensures Inv(Step(s, a)) && Step(s, a).max == s.max
  {
    var t := Step(s, a);
    if t != s {
      OneCallMoves(s, t, a.c);
    }
  }

  /** In every interleaving the occupied slots are exactly the owners', and never more than max, or one. */
  lemma {:induction false} SlotsConserved(max: int, acts: seq<Action>)
    ensures var s := Run(NewState(max), acts);
            && Inv(s) && s.max == NewState(max).max
            && s.sem == |Holders(s)| <= if max < 1 then 1 else max
  {
    if acts == [] {
      assert Holders(NewState(max)) == {};
    } else {
      SlotsConserved(max, acts[..|acts| - 1]);
      StepKeepsInv(Run(NewState(max), acts[..|acts| - 1]), acts[|acts| - 1]);
    }
  }

  /** No release ever waits on an empty channel. */
  lemma ReleaseNeverBlocks(max: int, acts: seq<Action>, c: nat)
    ensures var s := Run(NewState(max), acts);
            c in s.calls && Holds(s.calls[c]) ==> s.sem > 0
  {
    SlotsConserved(max, acts);
    var s := Run(NewState(max), acts);
    if c in s.calls && Holds(s.calls[c]) {
      assert c in Holders(s);
    }
  }

  /** A call is over: refused, or destroyed with every Destroy call returned. */
  predicate Finished(p: Phase) {
    p.Refused? || (p.Leased? && p.dead && !p.killing && p.returning == 0)
  }

  /** Once every call is over, every slot is free again, however often Destroy was called. */
  lemma AllSlotsFree(max: int, acts: seq<Action>)
    requires forall c :: c in Run(NewState(max), acts).calls ==> Finished(Run(NewState(max), acts).calls[c])
    ensures Run(NewState(max), acts).sem == 0
  {
    SlotsConserved(max, acts);
    var s := Run(NewState(max), acts);
    assert Holders(s) == {} by {
      forall c | c in s.calls ensures !Holds(s.calls[c]) {
        assert LeaseOk(s.calls[c]);
      }
    }
  }

  // ---- live VMs ----

  /** The calls whose VM process may be alive. */
  ghost function Live(s: State): set<nat> {
    set c | c in s.calls && (s.calls[c].Booting? || (s.calls[c].Leased? && s.calls[c].vm))
  }

  /** Every live VM is covered by a slot. */
  ghost predicate Covered(s: State) {
    Live(s) <= Holders(s)
  }

  /** A second Destroy was let in and is about to release while the first still stops the VM. */
  predicate Overlapped(p: Phase) {
    p.Leased? && p.killing && p.returning > 0 && !p.released
  }

  /**
   No second Destroy enters while the first is still stopping the VM; repeating it afterwards is
   fine. `run`, which destroys each instance once, is a special case.
   */
  predicate InTurn(s: State, a: Action) {
    a.Destroy? && a.c in s.calls && s.calls[a.c].Leased? ==> !s.calls[a.c].killing
  }

  predicate RunInTurn(s: State, acts: seq<Action>) {
    acts == [] ||
    (RunInTurn(s, acts[..|acts| - 1]) && InTurn(Run(s, acts[..|acts| - 1]), acts[|acts| - 1]))
  }

  ghost predicate NoneOverlapped(s: State) {
    forall c :: c in s.calls ==> !Overlapped(s.calls[c])
  }

  /** While a VM is being stopped nobody else is about to release its slot. */
  ghost predicate Quiet(s: State) {
    forall c :: c in s.calls && s.calls[c].Leased? && s.calls[c].vm ==>
                  s.calls[c].returning == 0 && !s.calls[c].released
  }

  lemma {:induction false} InTurnIsQuiet(max: int, acts: seq<Action>)
    requires RunInTurn(NewState(max), acts)
    ensures Quiet(Run(NewState(max), acts))
  {
    if acts != [] {
      var init := acts[..|acts| - 1];
      InTurnIsQuiet(max, init);
      SlotsConserved(max, init);
      var s, a := Run(NewState(max), init), acts[|acts| - 1];
      var t := Step(s, a);
      forall c | c in t.calls && t.calls[c].Leased? && t.calls[c].vm
        ensures t.calls[c].returning == 0 && !t.calls[c].released
      {
        if c in s.calls { assert LeaseOk(s.calls[c]); }
      }
    }
  }

  /** While Destroy calls of one instance do not overlap, never more than max VMs are alive. */
  lemma LiveVMsBounded(max: int, acts: seq<Action>)
    requires RunInTurn(NewState(max), acts)
    ensures var s := Run(NewState(max), acts);
            Covered(s) && |Live(s)| <= if max < 1 then 1 else max
  {
    SlotsConserved(max, acts);
    InTurnIsQuiet(max, acts);
    var s := Run(NewState(max), acts);
    assert Covered(s);
    SubsetSize(Live(s), Holders(s));
  }

  lemma SubsetSize(a: set<nat>, b: set<nat>)
    requires a <= b
    ensures |a| <= |b|
  {
    assert b == a + (b - a);
  }

  /**
   Exactly when the bound is in danger: from a state where every live VM has its slot, some next
   step gives the slot of a live VM away if and only if two Destroy calls of one instance overlap.
   */
  lemma CoverageLostIff(s: State)
    requires Inv(s) && Covered(s)
    ensures (forall a: Action :: Covered(Step(s, a))) <==> NoneOverlapped(s)
  {
    if NoneOverlapped(s) {
      forall a: Action ensures Covered(Step(s, a)) {
        StepKeepsCover(s, a);
      }
    } else {
      var c :| c in s.calls && Overlapped(s.calls[c]);
      assert c in Holders(s);
      var t := Step(s, Release(c));
      assert c in Live(t) && c !in Holders(t);
      assert !Covered(Step(s, Release(c)));
    }
  }

  lemma StepKeepsCover(s: State, a: Action)
    requires Inv(s) && Covered(s) && NoneOverlapped(s)
    ensures Covered(Step(s, a))
  {
    var t := Step(s, a);
    forall c | c in Live(t) ensures c in Holders(t) {
      if c in s.calls {
        assert LeaseOk(s.calls[c]) && !Overlapped(s.calls[c]);
        assert c in Live(s) ==> c in Holders(s);
      }
    }
  }

  lemma RunThen(s: State, acts: seq<Action>, a: Action)
    ensures Run(s, acts + [a]) == Step(Run(s, acts), a)
  {
    assert (acts + [a])[..|acts|] == acts;
  }

  /** A lease whose slot came back while its VM is still being stopped. */
  const LEAKED: Phase := Leased(true, true, true, 0, true)

  /** The first half of the witness: one call boots, is destroyed twice, and its slot comes back. */
  lemma EarlyRelease(max: int) returns (acts: seq<Action>)
    ensures Run(NewState(max), acts) == State(NewState(max).max, 0, map[0 := LEAKED])
  {
    var s := NewState(max);
    acts := [];
    RunThen(s, acts, Enter(0));
    acts := acts + [Enter(0)];
    assert Run(s, acts) == State(s.max, 0, map[0 := Queued]);
    RunThen(s, acts, Acquire(0));
    acts := acts + [Acquire(0)];
    assert Run(s, acts) == State(s.max, 1, map[0 := Booting]);
    RunThen(s, acts, BootOk(0));
    acts := acts + [BootOk(0)];
    assert Run(s, acts) == State(s.max, 1, map[0 := Leased(false, false, false, 0, true)]);
    RunThen(s, acts, Destroy(0));
    acts := acts + [Destroy(0)];
    assert Run(s, acts) == State(s.max, 1, map[0 := Leased(false, true, true, 0, true)]);
    RunThen(s, acts, Destroy(0));
    acts := acts + [Destroy(0)];
    assert Run(s, acts) == State(s.max, 1, map[0 := Leased(false, true, true, 1, true)]);
    RunThen(s, acts, Release(0));
    acts := acts + [Release(0)];
  }

  /** The leaked lease and `k` calls that boot after it. */
  function Crowd(k: nat): (calls: map<nat, Phase>)
    ensures forall c: nat :: c in calls <==> c <= k
  {
    if k == 0 then map[0 := LEAKED] else Crowd(k - 1)[k := Booting]
  }

  lemma {:induction false} CrowdIn(max: int, k: nat) returns (acts: seq<Action>)
    requires k <= NewState(max).max
    ensures Run(NewState(max), acts) == State(NewState(max).max, k, Crowd(k))
  {
    var s := NewState(max);
    if k == 0 {
      acts := EarlyRelease(max);
    } else {
      acts := CrowdIn(max, k - 1);
      RunThen(s, acts, Enter(k));
      RunThen(s, acts + [Enter(k)], Acquire(k));
      acts := acts + [Enter(k)] + [Acquire(k)];
      assert Run(s, acts) == State(s.max, k, Crowd(k - 1)[k := Queued][k := Booting]);
      assert Crowd(k - 1)[k := Queued][k := Booting] == Crowd(k);
    }
  }

  /** All of them may be alive. */
  lemma {:induction false} CrowdLives(max: nat, k: nat)
    ensures |Live(State(max, k, Crowd(k)))| == k + 1
  {
    if k == 0 {
      assert Live(State(max, 0, Crowd(0))) == {0};
    } else {
      CrowdLives(max, k - 1);
      assert Live(State(max, k, Crowd(k))) == Live(State(max, k - 1, Crowd(k - 1))) + {k};
    }
  }

  /** With two overlapping Destroy calls a gate of any size lets one VM too many live. */
  lemma OverlappingDestroyBreaksBound(max: int)
    ensures exists acts :: |Live(Run(NewState(max), acts))| == if max < 1 then 2 else max + 1
  {
    var acts := CrowdIn(max, NewState(max).max);
    CrowdLives(NewState(max).max, NewState(max).max);
    assert |Live(Run(NewState(max), acts))| == if max < 1 then 2 else max + 1;
  }

  // ---- the slots can all be used ----

  /** The first `k` calls, all booting. */
  function Booters(k: nat): (calls: map<nat, Phase>)
    ensures forall c: nat :: c in calls <==> c < k
  {
    if k == 0 then map[] else Booters(k - 1)[k - 1 := Booting]
  }

  lemma {:induction false} BootersIn(max: int, k: nat) returns (acts: seq<Action>)
    requires k <= NewState(max).max
    ensures Run(NewState(max), acts) == State(NewState(max).max, k, Booters(k))
    ensures RunInTurn(NewState(max), acts)
  {
    var s := NewState(max);
    acts := [];
    if k > 0 {
      var before := BootersIn(max, k - 1);
      var c := k - 1;
      RunThen(s, before, Enter(c));
      RunThen(s, before + [Enter(c)], Acquire(c));
      InTurnThen(s, before, Enter(c));
      InTurnThen(s, before + [Enter(c)], Acquire(c));
      OneMoreBooter(s.max, c);
      acts := before + [Enter(c)] + [Acquire(c)];
    }
  }

  lemma OneMoreBooter(max: nat, c: nat)
    requires c < max
    ensures Step(Step(State(max, c, Booters(c)), Enter(c)), Acquire(c)) == State(max, c + 1, Booters(c + 1))
  {
    assert Booters(c)[c := Queued][c := Booting] == Booters(c + 1);
  }

  lemma InTurnThen(s: State, acts: seq<Action>, a: Action)
    requires RunInTurn(s, acts) && !a.Destroy?
    ensures RunInTurn(s, acts + [a])
  {
    assert (acts + [a])[..|acts|] == acts;
  }

  lemma {:induction false} BootersLive(max: nat, k: nat)
    ensures |Live(State(max, k, Booters(k)))| == k
  {
    if k > 0 {
      BootersLive(max, k - 1);
      assert Live(State(max, k, Booters(k))) == Live(State(max, k - 1, Booters(k - 1))) + {k - 1};
    }
  }

  /** The bound is the size of the gate: that many VMs do live at once, and no slot stays free. */
  lemma AllSlotsUsable(max: int)
    ensures exists acts ::
              && RunInTurn(NewState(max), acts)
              && Run(NewState(max), acts).sem == (if max < 1 then 1 else max)
              && |Live(Run(NewState(max), acts))| == if max < 1 then 1 else max
  {
    var m := NewState(max).max;
    var acts := BootersIn(max, m);
    BootersLive(m, m);
    assert Run(NewState(max), acts).sem == m && |Live(Run(NewState(max), acts))| == m;
  }

  // ---- the gate object ----

  /** The gate as an object: each method is one atomic step of a goroutine. */
  class GateObject {
    const max: nat
    var sem: nat
    var calls: map<nat, Phase>

    ghost function View(): State
      reads this
    {
      State(max, sem, calls)
    }

    constructor (max: int)
      ensures View() == NewState(max) && this.max == if max < 1 then 1 else max
    {
      this.max := if max < 1 then 1 else max;
      sem := 0;
      calls := map[];
    }

    method StartBoot(c: nat)
      requires c !in calls
      modifies this
      ensures View() == Step(old(View()), Enter(c))
    {
      calls := calls[c := Queued];
    }

    /** The select: take a slot, or stop waiting. */
    method Select(c: nat, giveUp: bool) returns (got: bool)
      requires c in calls && calls[c].Queued?
      modifies this
      ensures View() == Step(old(View()), if giveUp then GiveUp(c) else Acquire(c))
      ensures got <==> !giveUp && old(sem) < max
      ensures calls[c] == if got then Booting else if giveUp then Refused else Queued
    {
      if giveUp {
        calls := calls[c := Refused];
        return false;
      }
      got := sem < max;
      if got {
        sem := sem + 1;
        calls := calls[c := Booting];
      }
    }

    method InnerBootReturned(c: nat, ok: bool)
      requires Inv(View())
      requires c in calls && calls[c].Booting?
      modifies this
      ensures View() == Step(old(View()), if ok then BootOk(c) else BootFail(c))
      ensures Inv(View())
    {
      StepKeepsInv(View(), if ok then BootOk(c) else BootFail(c));
      assert c in Holders(View());
      if ok {
        calls := calls[c := Leased(false, false, false, 0, true)];
      } else {
        sem := sem - 1;
        calls := calls[c := Refused];
      }
    }

    /** Destroy enters the inner Destroy: the first call sets the flag, later ones return at once. */
    method EnterDestroy(c: nat) returns (first: bool)
      requires c in calls && calls[c].Leased?
      modifies this
      ensures View() == Step(old(View()), Destroy(c))
      ensures first <==> !old(calls)[c].dead
    {
      var p := calls[c];
      first := !p.dead;
      calls := calls[c := if first then p.(dead := true, killing := true) else p.(returning := p.returning + 1)];
    }

    /** The inner Destroy that set the flag has stopped the VM. */
    method InnerDestroyReturned(c: nat)
      requires c in calls && calls[c].Leased? && calls[c].killing
      modifies this
      ensures View() == Step(old(View()), Killed(c))
    {
      var p := calls[c];
      calls := calls[c := p.(killing := false, vm := false, returning := p.returning + 1)];
    }

    /** The deferred, once-only release of one Destroy call. */
    method RunRelease(c: nat)
      requires Inv(View())
      requires c in calls && calls[c].Leased? && calls[c].returning > 0
      modifies this
      ensures View() == Step(old(View()), Release(c))
      ensures Inv(View()) && calls[c].Leased? && calls[c].released
    {
      StepKeepsInv(View(), Release(c));
      var p := calls[c];
      if !p.released {
        assert c in Holders(View());
        sem := sem - 1;
      }
      calls := calls[c := p.(released := true, returning := p.returning - 1)];
    }
  }
}
