/** Owners of a detached reaper: counted, released in two atomic steps, the
    last one latching termination. */
module Reaper {
  import opened Machine

  /** An owner decrements the count first; the one that saw it at one latches
      termination afterwards and reports it. */
  datatype Owner = Active | Decremented(last: bool) | Released(latched: bool)

  datatype State = State(count: nat, terminate: bool, requested: bool, owners: seq<Owner>)

  const START: State := State(1, false, false, [Active])

  datatype Step = Clone(i: nat) | Decrement(i: nat) | Latch(i: nat) | Request

  /** A released owner may be released again, and dropped: nothing happens. */
  function Apply(s: State, step: Step): State {
    match step
    case Clone(i) =>
      if i < |s.owners| && s.owners[i].Active? && s.count < U64_MAX
      then s.(count := s.count + 1, owners := s.owners + [Active]) else s
    case Decrement(i) =>
      if i < |s.owners| && s.owners[i].Active? && s.count >= 1
      then s.(count := s.count - 1, owners := s.owners[i := Decremented(s.count == 1)]) else s
    case Latch(i) =>
      if i < |s.owners| && s.owners[i].Decremented?
      then s.(terminate := s.terminate || s.owners[i].last, owners := s.owners[i := Released(s.owners[i].last)]) else s
    case Request => s.(terminate := true, requested := true)
  }

  function Run(steps: seq<Step>): State {
    if steps == [] then START else Apply(Run(steps[..|steps| - 1]), steps[|steps| - 1])
  }

  function One(b: bool): nat {
    if b then 1 else 0
  }

  function IsLast(o: Owner): bool {
    (o.Decremented? && o.last) || (o.Released? && o.latched)
  }

  function ActiveOwners(owners: seq<Owner>): nat {
    if owners == [] then 0 else ActiveOwners(owners[..|owners| - 1]) + One(owners[|owners| - 1].Active?)
  }

  function LastOwners(owners: seq<Owner>): nat {
    if owners == [] then 0 else LastOwners(owners[..|owners| - 1]) + One(IsLast(owners[|owners| - 1]))
  }

  function Latched(owners: seq<Owner>): nat {
    if owners == [] then 0 else Latched(owners[..|owners| - 1]) + One(owners[|owners| - 1] == Released(true))
  }

  lemma {:induction false} Updated(owners: seq<Owner>, i: nat, o: Owner)
    requires i < |owners|
    ensures ActiveOwners(owners[i := o]) == ActiveOwners(owners) - One(owners[i].Active?) + One(o.Active?)
    ensures LastOwners(owners[i := o]) == LastOwners(owners) - One(IsLast(owners[i])) + One(IsLast(o))
    ensures Latched(owners[i := o]) == Latched(owners) - One(owners[i] == Released(true)) + One(o == Released(true))
  {
    var n := |owners| - 1;
    if i == n {
      assert owners[i := o][..n] == owners[..n];
    } else {
      Updated(owners[..n], i, o);
      assert owners[i := o][..n] == owners[..n][i := o];
    }
  }

  lemma Appended(owners: seq<Owner>)
    ensures ActiveOwners(owners + [Active]) == ActiveOwners(owners) + 1
    ensures LastOwners(owners + [Active]) == LastOwners(owners) && Latched(owners + [Active]) == Latched(owners)
  {
    assert (owners + [Active])[..|owners|] == owners;
  }

  lemma {:induction false} OneOf(owners: seq<Owner>, i: nat)
    requires i < |owners|
    ensures One(owners[i].Active?) <= ActiveOwners(owners) && One(IsLast(owners[i])) <= LastOwners(owners)
  {
    var n := |owners| - 1;
    if i < n {
      OneOf(owners[..n], i);
    }
  }

  lemma {:induction false} LatchedIsLast(owners: seq<Owner>)
    ensures Latched(owners) <= LastOwners(owners)
    ensures Latched(owners) == LastOwners(owners)
       <==> forall i :: 0 <= i < |owners| ==> owners[i] != Decremented(true)
  {
    if owners != [] {
      LatchedIsLast(owners[..|owners| - 1]);
    }
  }

  /** The count is the owners still active; once it reaches zero exactly one
      owner knows that it was the last, and termination follows it alone. */
  ghost predicate Inv(s: State) {
    && s.count == ActiveOwners(s.owners)
    && LastOwners(s.owners) == One(s.count == 0)
    && (s.terminate <==> s.requested || Latched(s.owners) > 0)
  }

  lemma StepKeepsInv(s: State, step: Step)
    requires Inv(s)
    ensures Inv(Apply(s, step))
  {
    match step
    case Clone(i) =>
      if i < |s.owners| {
        OneOf(s.owners, i);
        Appended(s.owners);
      }
    case Decrement(i) =>
      if i < |s.owners| {
        OneOf(s.owners, i);
        Updated(s.owners, i, Decremented(s.count == 1));
      }
    case Latch(i) =>
      if i < |s.owners| && s.owners[i].Decremented? {
        Updated(s.owners, i, Released(s.owners[i].last));
      }
    case Request =>
  }

  lemma {:induction false} EveryRunKeepsInv(steps: seq<Step>)
    ensures Inv(Run(steps))
  {
    if steps != [] {
      EveryRunKeepsInv(steps[..|steps| - 1]);
      StepKeepsInv(Run(steps[..|steps| - 1]), steps[|steps| - 1]);
    }
  }

  /** The count always equals the active owners, and the release of an active
      owner never underflows it. */
  lemma CountIsExact(steps: seq<Step>)
    ensures var s := Run(steps);
            s.count == ActiveOwners(s.owners) && forall i :: 0 <= i < |s.owners| && s.owners[i].Active? ==> s.count >= 1
  {
    EveryRunKeepsInv(steps);
    var s := Run(steps);
    forall i | 0 <= i < |s.owners| && s.owners[i].Active? ensures s.count >= 1 {
      OneOf(s.owners, i);
    }
  }

  /** When every owner is released, exactly one release returned true. */
  lemma ExactlyOneLatches(steps: seq<Step>)
    requires forall i :: 0 <= i < |Run(steps).owners| ==> Run(steps).owners[i].Released?
    ensures Latched(Run(steps).owners) == 1 && Run(steps).terminate
  {
    EveryRunKeepsInv(steps);
    var s := Run(steps);
    LatchedIsLast(s.owners);
    NoActive(s.owners);
  }

  lemma {:induction false} NoActive(owners: seq<Owner>)
    ensures ActiveOwners(owners) == 0 <==> forall i :: 0 <= i < |owners| ==> !owners[i].Active?
  {
    if owners != [] {
      NoActive(owners[..|owners| - 1]);
    }
  }

  /** The owner that learns it was last decrements last: nobody is active
      then, and nobody becomes active afterwards. */
  lemma LastIsLast(steps: seq<Step>, i: nat)
    requires i < |Run(steps).owners| && IsLast(Run(steps).owners[i])
    ensures var s := Run(steps);
            && s.count == 0 && (forall k :: 0 <= k < |s.owners| ==> !s.owners[k].Active?)
            && forall k :: 0 <= k < |s.owners| && IsLast(s.owners[k]) ==> k == i
  {
    EveryRunKeepsInv(steps);
    var s := Run(steps);
    OneOf(s.owners, i);
    NoActive(s.owners);
    forall k | 0 <= k < |s.owners| && IsLast(s.owners[k]) ensures k == i {
      if k != i {
        Updated(s.owners, i, Released(false));
        OneOf(s.owners[i := Released(false)], k);
      }
    }
  }

  lemma {:induction false} EmptyStaysEmpty(steps: seq<Step>, more: seq<Step>)
    requires Run(steps).count == 0
    ensures Run(steps + more).count == 0
  {
    if more == [] {
      assert steps + more == steps;
    } else {
      var n := |more| - 1;
      EmptyStaysEmpty(steps, more[..n]);
      assert (steps + more)[..|steps + more| - 1] == steps + more[..n];
      CountIsExact(steps + more[..n]);
    }
  }

  /** Without an explicit request, termination is latched only after every
      owner has given up its share. */
  lemma TerminationNeedsEveryRelease(steps: seq<Step>)
    requires Request !in steps && Run(steps).terminate
    ensures var s := Run(steps); s.count == 0 && forall i :: 0 <= i < |s.owners| ==> !s.owners[i].Active?
  {
    EveryRunKeepsInv(steps);
    NeverRequested(steps);
    LatchedIsLast(Run(steps).owners);
    NoActive(Run(steps).owners);
  }

  lemma {:induction false} NeverRequested(steps: seq<Step>)
    requires Request !in steps
    ensures !Run(steps).requested
  {
    if steps != [] {
      NeverRequested(steps[..|steps| - 1]);
    }
  }

  /** What the steps of an owner do in any run: a clone of an active owner is one
      more active owner, giving up takes one share and remembers whether it was
      the last, and only the last latches. */
  lemma StepsTakeEffect(steps: seq<Step>, i: nat)
    requires i < |Run(steps).owners|
    ensures var s := Run(steps);
            && (s.owners[i] == Active && s.count < U64_MAX ==>
                  Apply(s, Clone(i)) == s.(count := s.count + 1, owners := s.owners + [Active]))
            && (s.owners[i] == Active ==>
                  && s.count >= 1
                  && Apply(s, Decrement(i))
                     == s.(count := s.count - 1, owners := s.owners[i := Decremented(s.count == 1)]))
            && (s.owners[i] == Decremented(true) ==>
                  Apply(s, Latch(i)) == s.(terminate := true, owners := s.owners[i := Released(true)]))
            && (s.owners[i] == Decremented(false) ==>
                  Apply(s, Latch(i)) == s.(owners := s.owners[i := Released(false)]))
            && Apply(s, Request).terminate
  {
    EveryRunKeepsInv(steps);
    ActiveIsCounted(Run(steps).owners, i);
  }

  lemma {:induction false} ActiveIsCounted(owners: seq<Owner>, i: nat)
    requires i < |owners|
    ensures owners[i].Active? ==> ActiveOwners(owners) >= 1
  {
    if i < |owners| - 1 {
      ActiveIsCounted(owners[..|owners| - 1], i);
    }
  }

  // ----- the handles in place -----

  class Shared {
    var externalOwners: nat
    var terminate: bool

    constructor ()
      ensures externalOwners == 1 && !terminate
    {
      externalOwners, terminate := 1, false;
    }
  }

  class Ownership {
    const shared: Shared
    var active: bool

    constructor (shared: Shared)
      ensures this.shared == shared && active
    {
      this.shared, active := shared, true;
    }

    /** A second release does nothing; the release that takes the count from
        one latches termination and says so. `None` is the code's panic on a
        count of zero. */
    method Release() returns (last: Option<bool>)
      modifies this, shared
      ensures !active
      ensures last.None? <==> old(active) && old(shared.externalOwners) == 0
      ensures last == Some(true) <==> old(active) && old(shared.externalOwners) == 1
      ensures shared.externalOwners == old(shared.externalOwners) - (if old(active) && last.Some? then 1 else 0)
      ensures shared.terminate == (old(shared.terminate) || last == Some(true))
    {
      if !active {
        return Some(false);
      }
      active := false;
      var previous := shared.externalOwners;
      if previous == 0 {
        return None;
      }
      shared.externalOwners := previous - 1;
      if previous == 1 {
        shared.terminate := true;
        return Some(true);
      }
      return Some(false);
    }

    /** `None` is the code's panic on a released owner or a full count. */
    method CloneOwner() returns (other: Option<Ownership>)
      modifies shared
      ensures other.Some? <==> active && old(shared.externalOwners) < U64_MAX
      ensures other.Some? ==> fresh(other.value) && other.value.shared == shared && other.value.active
      ensures shared.externalOwners == old(shared.externalOwners) + (if other.Some? then 1 else 0)
      ensures shared.terminate == old(shared.terminate)
    {
      if !active || shared.externalOwners >= U64_MAX {
        return None;
      }
      shared.externalOwners := shared.externalOwners + 1;
      var owner := new Ownership(shared);
      return Some(owner);
    }
  }
}
