/** What a call of the lease owner is bound to answer, whatever drops run
    meanwhile: a reservation that fits is granted, a refusal has its reason, and
    an empty owner closes. */
module LeaseCalls {
  import opened Machine
  import opened ResourceStates
  import opened Leases
  import Ledger

  // ----- a reservation that fits -----

  /** The lengths the call has still to reserve. */
  function Remaining(count: nat, base: nat, want: seq<u64>): (rest: seq<u64>)
    ensures |rest| <= |want|
  {
    if base <= count <= base + |want| then want[count - base..] else []
  }

  predicate Reserving(owner: Owner) {
    owner.Next? || owner.Checked? || owner.HasRegion? || owner.HasBytes?
  }

  predicate NoneZero(lengths: seq<u64>) {
    forall i :: 0 <= i < |lengths| ==> lengths[i] != 0
  }

  /** The charges the current length has already taken. */
  function RegionTaken(owner: Owner): nat {
    if owner.HasRegion? || owner.HasBytes? then 1 else 0
  }

  function BytesTaken(owner: Owner, length: u64): nat {
    if owner.HasBytes? then length else 0
  }

  /** The owner is reserving `want` and there is room for all that is left. */
  ghost predicate OnCourse(limits: Limits, s: State, base: nat, want: seq<u64>) {
    && s.liveness.Active? && Reserving(s.owner) && s.owner.base == base && s.owner.want == want
    && base <= |s.leases| <= base + |want|
    && var rest := Remaining(|s.leases|, base, want);
       && NoneZero(rest) && (!s.owner.Next? ==> rest != [])
       && s.regions + |rest| <= limits.maxRegions + RegionTaken(s.owner)
       && s.bytes + Ledger.Sum(rest) <= limits.maxBytes + BytesTaken(s.owner, if rest == [] then 0 else rest[0])
  }

  lemma SumOfRest(rest: seq<u64>)
    requires rest != []
    ensures Ledger.Sum(rest) == rest[0] + Ledger.Sum(rest[1..])
  {
    assert rest == [rest[0]] + rest[1..];
    Ledger.SumSplit([rest[0]], rest[1..]);
    Ledger.SumOne(rest[0]);
  }

  /** How many steps of the owner the call still takes. */
  function StepsLeft(count: nat, owner: Owner): int
    requires Reserving(owner)
  {
    4 * (owner.base + |owner.want| - count) + 1
    - (match owner case Next(_, _) => 0 case Checked(_, _) => 1 case HasRegion(_, _) => 2 case _ => 3)
  }

  lemma NextOnCourse(limits: Limits, s: State, base: nat, want: seq<u64>)
    requires OnCourse(limits, s, base, want) && s.owner.Next? && |s.leases| < base + |want|
    ensures Apply(limits, s, OwnerStep) == s.(owner := Checked(base, want))
  {
    var rest := Remaining(|s.leases|, base, want);
    SumOfRest(rest);
    assert Current(|s.leases|, base, want) == rest[0];
  }

  lemma CheckedOnCourse(limits: Limits, s: State, base: nat, want: seq<u64>)
    requires OnCourse(limits, s, base, want) && s.owner.Checked?
    ensures Apply(limits, s, OwnerStep) == s.(regions := s.regions + 1, owner := HasRegion(base, want))
  {
  }

  lemma RegionOnCourse(limits: Limits, s: State, base: nat, want: seq<u64>)
    requires OnCourse(limits, s, base, want) && s.owner.HasRegion?
    ensures var length := Current(|s.leases|, base, want);
            Apply(limits, s, OwnerStep) == s.(bytes := s.bytes + length, owner := HasBytes(base, want))
  {
    SumOfRest(Remaining(|s.leases|, base, want));
  }

  lemma BytesOnCourse(limits: Limits, s: State, base: nat, want: seq<u64>)
    requires OnCourse(limits, s, base, want) && s.owner.HasBytes?
    ensures OnCourse(limits, Apply(limits, s, OwnerStep), base, want)
    ensures Apply(limits, s, OwnerStep).owner == Next(base, want)
    ensures |Apply(limits, s, OwnerStep).leases| == |s.leases| + 1
  {
    var rest := Remaining(|s.leases|, base, want);
    SumOfRest(rest);
    assert Remaining(|s.leases| + 1, base, want) == rest[1..];
  }

  lemma OwnerStaysOnCourse(limits: Limits, s: State, base: nat, want: seq<u64>)
    requires Inv(limits, s) && OnCourse(limits, s, base, want)
    ensures var t := Apply(limits, s, OwnerStep);
            || (t.owner.Idle? && t.reply == Granted)
            || (OnCourse(limits, t, base, want) && StepsLeft(|t.leases|, t.owner) < StepsLeft(|s.leases|, s.owner))
  {
    match s.owner
    case Next(_, _) =>
      if |s.leases| < base + |want| {
        NextOnCourse(limits, s, base, want);
      }
    case Checked(_, _) => CheckedOnCourse(limits, s, base, want);
    case HasRegion(_, _) => RegionOnCourse(limits, s, base, want);
    case HasBytes(_, _) => BytesOnCourse(limits, s, base, want);
  }

  lemma DropStaysOnCourse(limits: Limits, s: State, base: nat, want: seq<u64>, step: Step)
    requires Inv(limits, s) && OnCourse(limits, s, base, want) && (step.DropBytes? || step.DropRegion?)
    ensures var t := Apply(limits, s, step);
            && OnCourse(limits, t, base, want) && t.owner == s.owner && |t.leases| == |s.leases|
  {
    if step.i < |s.leases| {
      ChargeOfOne(s.leases, step.i);
    }
  }

  /** Only the owner's own steps and drops; no further call is started. */
  predicate NoStarts(steps: seq<Step>) {
    forall i :: 0 <= i < |steps| ==> !steps[i].Start?
  }

  function OwnerSteps(steps: seq<Step>): nat {
    if steps == [] then 0
    else OwnerSteps(steps[..|steps| - 1]) + if steps[|steps| - 1].OwnerStep? then 1 else 0
  }

  /** After `more`, the call is on course with fewer steps left, or was granted. */
  ghost predicate GrantedOrOnCourse(limits: Limits, t: State, base: nat, want: seq<u64>, taken: nat) {
    || (t.owner.Idle? && t.reply == Granted)
    || (OnCourse(limits, t, base, want) && StepsLeft(|t.leases|, t.owner) + taken <= 4 * |want| + 1)
  }

  lemma StepKeepsCourse(limits: Limits, s: State, base: nat, want: seq<u64>, taken: nat, step: Step)
    requires Inv(limits, s) && GrantedOrOnCourse(limits, s, base, want, taken) && !step.Start?
    ensures GrantedOrOnCourse(limits, Apply(limits, s, step), base, want, taken + if step.OwnerStep? then 1 else 0)
  {
    if !(s.owner.Idle? && s.reply == Granted) {
      if step.OwnerStep? {
        OwnerStaysOnCourse(limits, s, base, want);
      } else {
        DropStaysOnCourse(limits, s, base, want, step);
      }
    }
  }

  lemma RunOne(limits: Limits, steps: seq<Step>, step: Step)
    ensures Run(limits, steps + [step]) == Apply(limits, Run(limits, steps), step)
  {
    assert (steps + [step])[..|steps|] == steps;
  }

  lemma StartIsOnCourse(limits: Limits, s: State, lengths: seq<u64>)
    requires s.owner.Idle? && s.liveness.Active? && NoneZero(lengths)
    requires s.regions + |lengths| <= limits.maxRegions && s.bytes + Ledger.Sum(lengths) <= limits.maxBytes
    ensures GrantedOrOnCourse(limits, Apply(limits, s, Start(Reserve(lengths))), |s.leases|, lengths, 0)
  {
    assert lengths[0..] == lengths;
  }

  lemma {:induction false} StaysOnCourse(limits: Limits, steps: seq<Step>, lengths: seq<u64>, more: seq<Step>)
    requires Run(limits, steps).owner.Idle? && Run(limits, steps).liveness.Active? && NoneZero(lengths)
    requires Run(limits, steps).regions + |lengths| <= limits.maxRegions
    requires Run(limits, steps).bytes + Ledger.Sum(lengths) <= limits.maxBytes
    requires NoStarts(more)
    ensures GrantedOrOnCourse(limits, Run(limits, steps + [Start(Reserve(lengths))] + more),
                              |Run(limits, steps).leases|, lengths, OwnerSteps(more))
    decreases |more|
  {
    var begun := steps + [Start(Reserve(lengths))];
    if more == [] {
      assert begun + more == begun;
      RunOne(limits, steps, Start(Reserve(lengths)));
      StartIsOnCourse(limits, Run(limits, steps), lengths);
    } else {
      var n := |more| - 1;
      StaysOnCourse(limits, steps, lengths, more[..n]);
      assert begun + more == (begun + more[..n]) + [more[n]];
      RunOne(limits, begun + more[..n], more[n]);
      EveryRunKeepsInv(limits, begun + more[..n]);
      StepKeepsCourse(limits, Run(limits, begun + more[..n]), |Run(limits, steps).leases|, lengths,
                      OwnerSteps(more[..n]), more[n]);
    }
  }

  /** A reservation that fits when it is started is never refused, whatever drops
      run meanwhile, and is granted by the time the owner has taken its steps. */
  lemma FittingCallIsGranted(limits: Limits, steps: seq<Step>, lengths: seq<u64>, more: seq<Step>)
    requires Run(limits, steps).owner.Idle? && Run(limits, steps).liveness.Active? && NoneZero(lengths)
    requires Run(limits, steps).regions + |lengths| <= limits.maxRegions
    requires Run(limits, steps).bytes + Ledger.Sum(lengths) <= limits.maxBytes
    requires NoStarts(more)
    ensures var t := Run(limits, steps + [Start(Reserve(lengths))] + more);
            && !t.reply.Refused?
            && (OwnerSteps(more) >= 4 * |lengths| + 1 ==> t.owner.Idle? && t.reply == Granted)
  {
    StaysOnCourse(limits, steps, lengths, more);
    EveryRunKeepsInv(limits, steps + [Start(Reserve(lengths))] + more);
  }

  // ----- a granted call -----

  /** No lease is empty, and a length being charged is not either. */
  ghost predicate NoEmptyLease(limits: Limits, s: State) {
    && (forall i :: 0 <= i < |s.leases| ==> 0 < s.leases[i].bytes <= limits.maxBytes)
    && (s.owner.Checked? || s.owner.HasRegion? || s.owner.HasBytes? ==>
          0 < Current(|s.leases|, s.owner.base, s.owner.want) <= limits.maxBytes)
  }

  lemma StepKeepsNoEmpty(limits: Limits, s: State, step: Step)
    requires Inv(limits, s) && NoEmptyLease(limits, s)
    ensures NoEmptyLease(limits, Apply(limits, s, step))
  {
  }

  lemma {:induction false} EveryLeaseIsCharged(limits: Limits, steps: seq<Step>)
    ensures NoEmptyLease(limits, Run(limits, steps))
  {
    if steps != [] {
      EveryLeaseIsCharged(limits, steps[..|steps| - 1]);
      EveryRunKeepsInv(limits, steps[..|steps| - 1]);
      StepKeepsNoEmpty(limits, Run(limits, steps[..|steps| - 1]), steps[|steps| - 1]);
    }
  }

  /** A call is only granted when none of its lengths is zero or beyond the byte
      limit, and then each length has its own live lease. */
  lemma GrantedCallFitted(limits: Limits, steps: seq<Step>)
    requires Run(limits, steps).owner.Next? && Apply(limits, Run(limits, steps), OwnerStep).reply.Granted?
    ensures var s, t := Run(limits, steps), Apply(limits, Run(limits, steps), OwnerStep);
            && HasLeases(t.leases, s.owner.base, s.owner.want)
            && forall j :: 0 <= j < |s.owner.want| ==> 0 < s.owner.want[j] <= limits.maxBytes
  {
    GrantedCallHolds(limits, steps);
    EveryLeaseIsCharged(limits, steps);
    var s, t := Run(limits, steps), Apply(limits, Run(limits, steps), OwnerStep);
    forall j | 0 <= j < |s.owner.want| ensures 0 < s.owner.want[j] <= limits.maxBytes {
      assert t.leases[s.owner.base + j] == Lease(s.owner.want[j], Live);
    }
  }

  // ----- a refusal has its reason -----

  /** The reservation of `length` cannot go on, for the reason given. */
  predicate Justified(limits: Limits, s: State, length: u64, error: ResourceError) {
    match error
    case LimitReached =>
      length == 0 || length > limits.maxBytes || s.regions >= limits.maxRegions || s.bytes + length > limits.maxBytes
    case NotActive(l) => l == s.liveness && l != Active
    case _ => false
  }

  /** In every run, a step that turns a reservation into a refusal finds a limit
      reached or the session not active, and the refusal says which. */
  lemma RefusalIsJustified(limits: Limits, steps: seq<Step>)
    requires Reserving(Run(limits, steps).owner)
    ensures var s := Run(limits, steps);
            var t := Apply(limits, s, OwnerStep);
            var length := Current(|s.leases|, s.owner.base, s.owner.want);
            && (t.owner.UndoRegion? || t.owner.Unwinding? ==> Justified(limits, s, length, t.owner.error))
            && !t.owner.UndoBytes? && (t.owner.Idle? ==> t.reply == Granted)
  {
    EveryRunKeepsInv(limits, steps);
  }

  // ----- drops -----

  /** In every run a lease that was handed out can be dropped: first its bytes
      leave the counter, then its region does. */
  lemma DropsTakeEffect(limits: Limits, steps: seq<Step>, i: nat)
    requires var s := Run(limits, steps); i < |s.leases| && (s.owner.Idle? || s.owner.Reading? || s.owner.Closing?)
    ensures var s := Run(limits, steps);
            && (s.leases[i].phase == Live ==>
                  && s.leases[i].bytes <= s.bytes
                  && Apply(limits, s, DropBytes(i))
                     == s.(bytes := s.bytes - s.leases[i].bytes,
                           leases := s.leases[i := s.leases[i].(phase := HalfDropped)]))
            && (s.leases[i].phase == HalfDropped ==>
                  && s.regions >= 1
                  && Apply(limits, s, DropRegion(i))
                     == s.(regions := s.regions - 1, leases := s.leases[i := s.leases[i].(phase := Gone)]))
  {
    EveryRunKeepsInv(limits, steps);
    ChargeOfOne(Run(limits, steps).leases, i);
  }

  // ----- observing, closing, poisoning -----

  lemma RunTwo(limits: Limits, steps: seq<Step>, a: Step, b: Step)
    ensures Run(limits, steps + [a, b]) == Apply(limits, Apply(limits, Run(limits, steps), a), b)
  {
    assert steps + [a, b] == (steps + [a]) + [b];
    RunOne(limits, steps, a);
    RunOne(limits, steps + [a], b);
  }

  /** Undisturbed, the observed facts are the counters. */
  lemma ObservedAlone(limits: Limits, steps: seq<Step>)
    requires Run(limits, steps).owner.Idle?
    ensures var s, t := Run(limits, steps), Run(limits, steps + [Start(Observe), OwnerStep]);
            t == s.(reply := Facts(s.regions, s.bytes))
  {
    RunTwo(limits, steps, Start(Observe), OwnerStep);
  }

  /** Undisturbed, closing succeeds exactly on empty counters of an owner that is
      not closed, and otherwise says what remains. */
  lemma ClosedAlone(limits: Limits, steps: seq<Step>)
    requires Run(limits, steps).owner.Idle?
    ensures var s, t := Run(limits, steps), Run(limits, steps + [Start(TryClose), OwnerStep] + [OwnerStep]);
            t == if s.regions != 0 || s.bytes != 0 then s.(reply := Refused(LeasesRemain(s.regions, s.bytes)))
                 else if s.liveness.Closed? then s.(reply := Refused(NotActive(Closed)))
                 else s.(liveness := Closed, reply := ClosedNow)
  {
    RunTwo(limits, steps, Start(TryClose), OwnerStep);
    RunOne(limits, steps + [Start(TryClose), OwnerStep], OwnerStep);
  }

  /** Poisoning takes effect exactly on an active owner, at once. */
  lemma PoisonedAtOnce(limits: Limits, steps: seq<Step>)
    requires Run(limits, steps).owner.Idle?
    ensures var s, t := Run(limits, steps), Run(limits, steps + [Start(Poison)]);
            t == s.(liveness := if s.liveness == Active then Poisoned else s.liveness, reply := Silent)
  {
    RunOne(limits, steps, Start(Poison));
  }
}
