/** Lease accounting: one owner charges two counters while any number of
    leases are dropped concurrently, each in two separate atomic steps. */
module Leases {
  import opened Machine
  import opened ResourceStates

  datatype Phase = Live | HalfDropped | Gone

  /** A lease gives its bytes back first and its region second. */
  datatype Lease = Lease(bytes: u64, phase: Phase)

  datatype Reply =
    | Silent
    | Granted
    | Refused(error: ResourceError)
    | Facts(regions: nat, bytes: nat)
    | ClosedNow

  /** Where the owner is inside a call. `base` is the number of leases that
      existed before the call, `want` the lengths the call asked for. */
  datatype Owner =
    | Idle
    | Next(base: nat, want: seq<u64>)
    | Checked(base: nat, want: seq<u64>)
    | HasRegion(base: nat, want: seq<u64>)
    | HasBytes(base: nat, want: seq<u64>)
    | UndoBytes(base: nat, want: seq<u64>, error: ResourceError)
    | UndoRegion(base: nat, error: ResourceError)
    | Unwinding(base: nat, at: nat, half: bool, error: ResourceError)
    | Reading(regions: nat, closing: bool)
    | Closing

  datatype Limits = Limits(maxRegions: u32, maxBytes: u64)

  datatype State = State(liveness: Liveness, regions: nat, bytes: nat, leases: seq<Lease>, owner: Owner, reply: Reply)

  const START: State := State(Active, 0, 0, [], Idle, Silent)

  datatype Call = Reserve(lengths: seq<u64>) | Observe | TryClose | Poison

  /** A call starts when the owner is idle; `OwnerStep` is its next atomic
      operation; the drop steps belong to whoever holds lease `i`. */
  datatype Step = Start(call: Call) | OwnerStep | DropBytes(i: nat) | DropRegion(i: nat)

  /** `fetch_sub` wraps. */
  function Sub(a: nat, b: nat, width: nat): nat {
    if a >= b then a - b else if a + width >= b then a + width - b else 0
  }

  function SubBytes(s: State, amount: u64): State {
    s.(bytes := Sub(s.bytes, amount, 0x1_0000_0000_0000_0000))
  }

  function SubRegion(s: State): State {
    s.(regions := Sub(s.regions, 1, 0x1_0000_0000))
  }

  function Finish(s: State, reply: Reply): State {
    s.(owner := Idle, reply := reply)
  }

  function ApplyStart(s: State, call: Call): State {
    match call
    case Reserve(lengths) => s.(owner := Next(|s.leases|, lengths), reply := Silent)
    case Observe => s.(owner := Reading(s.regions, false), reply := Silent)
    case TryClose => s.(owner := Reading(s.regions, true), reply := Silent)
    case Poison => s.(liveness := if s.liveness.Active? then Poisoned else s.liveness, reply := Silent)
  }

  function Fail(s: State, base: nat, error: ResourceError): State {
    s.(owner := Unwinding(base, base, false, error))
  }

  /** The length being reserved: the first without a lease. */
  function Current(count: nat, base: nat, want: seq<u64>): u64 {
    if base <= count < base + |want| then want[count - base] else 0
  }

  function ApplyNext(limits: Limits, s: State, base: nat, want: seq<u64>): State {
    var length := Current(|s.leases|, base, want);
    if |s.leases| >= base + |want| then Finish(s, Granted)
    else if length == 0 || length > limits.maxBytes then Fail(s, base, LimitReached)
    else if !s.liveness.Active? then Fail(s, base, NotActive(s.liveness))
    else s.(owner := Checked(base, want))
  }

  function ApplyReserve(limits: Limits, s: State, base: nat, want: seq<u64>): State {
    var length := Current(|s.leases|, base, want);
    match s.owner
    case Checked(_, _) =>
      if s.regions < limits.maxRegions then s.(regions := s.regions + 1, owner := HasRegion(base, want))
      else Fail(s, base, LimitReached)
    case HasRegion(_, _) =>
      if s.bytes + length <= limits.maxBytes then s.(bytes := s.bytes + length, owner := HasBytes(base, want))
      else s.(owner := UndoRegion(base, LimitReached))
    case HasBytes(_, _) =>
      if s.liveness.Active?
      then s.(leases := s.leases + [Lease(length, Live)], owner := Next(base, want))
      else s.(owner := UndoBytes(base, want, NotActive(s.liveness)))
    case UndoBytes(_, _, error) => SubBytes(s, length).(owner := UndoRegion(base, error))
    case _ => s
  }

  /** Reservations already made by a refused call are dropped in order. */
  function ApplyUnwind(s: State, base: nat, at: nat, half: bool, error: ResourceError): State {
    if at >= |s.leases| then Finish(s, Refused(error))
    else if !half then
      SubBytes(s, s.leases[at].bytes).(leases := s.leases[at := s.leases[at].(phase := HalfDropped)],
                                       owner := Unwinding(base, at, true, error))
    else
      SubRegion(s).(leases := s.leases[at := s.leases[at].(phase := Gone)],
                    owner := Unwinding(base, at + 1, false, error))
  }

  function ApplyReading(s: State, regions: nat, closing: bool): State {
    if !closing then Finish(s, Facts(regions, s.bytes))
    else if regions != 0 || s.bytes != 0 then Finish(s, Refused(LeasesRemain(regions, s.bytes)))
    else s.(owner := Closing)
  }

  function ApplyOwner(limits: Limits, s: State): State {
    match s.owner
    case Idle => s
    case Next(base, want) => ApplyNext(limits, s, base, want)
    case Unwinding(base, at, half, error) => ApplyUnwind(s, base, at, half, error)
    case Reading(regions, closing) => ApplyReading(s, regions, closing)
    case Closing =>
      if s.liveness.Closed? then Finish(s, Refused(NotActive(Closed)))
      else Finish(s.(liveness := Closed), ClosedNow)
    case UndoRegion(base, error) => Fail(SubRegion(s), base, error)
    case _ => ApplyReserve(limits, s, s.owner.base, s.owner.want)
  }

  /** Leases of the running reservation call are still the owner's. */
  predicate HandedOut(s: State, i: nat) {
    i < |s.leases| && (OwnCall(s.owner) ==> i < s.owner.base)
  }

  predicate OwnCall(owner: Owner) {
    !owner.Idle? && !owner.Reading? && !owner.Closing?
  }

  function Apply(limits: Limits, s: State, step: Step): State {
    match step
    case Start(call) => if s.owner.Idle? then ApplyStart(s, call) else s
    case OwnerStep => ApplyOwner(limits, s)
    case DropBytes(i) =>
      if HandedOut(s, i) && s.leases[i].phase.Live?
      then SubBytes(s, s.leases[i].bytes).(leases := s.leases[i := s.leases[i].(phase := HalfDropped)]) else s
    case DropRegion(i) =>
      if HandedOut(s, i) && s.leases[i].phase.HalfDropped?
      then SubRegion(s).(leases := s.leases[i := s.leases[i].(phase := Gone)]) else s
  }

  function Run(limits: Limits, steps: seq<Step>): State {
    if steps == [] then START else Apply(limits, Run(limits, steps[..|steps| - 1]), steps[|steps| - 1])
  }

  // ----- what is charged -----

  function BytesOf(l: Lease): nat {
    if l.phase.Live? then l.bytes else 0
  }

  function RegionOf(l: Lease): nat {
    if l.phase.Gone? then 0 else 1
  }

  function ChargedBytes(leases: seq<Lease>): nat {
    if leases == [] then 0 else ChargedBytes(leases[..|leases| - 1]) + BytesOf(leases[|leases| - 1])
  }

  function ChargedRegions(leases: seq<Lease>): nat {
    if leases == [] then 0 else ChargedRegions(leases[..|leases| - 1]) + RegionOf(leases[|leases| - 1])
  }

  lemma {:induction false} ChargeUpdated(leases: seq<Lease>, i: nat, l: Lease)
    requires i < |leases|
    ensures ChargedBytes(leases[i := l]) == ChargedBytes(leases) - BytesOf(leases[i]) + BytesOf(l)
    ensures ChargedRegions(leases[i := l]) == ChargedRegions(leases) - RegionOf(leases[i]) + RegionOf(l)
  {
    var n := |leases| - 1;
    if i == n {
      assert leases[i := l][..n] == leases[..n];
    } else {
      ChargeUpdated(leases[..n], i, l);
      assert leases[i := l][..n] == leases[..n][i := l];
    }
  }

  lemma {:induction false} ChargeOfOne(leases: seq<Lease>, i: nat)
    requires i < |leases|
    ensures BytesOf(leases[i]) <= ChargedBytes(leases) && RegionOf(leases[i]) <= ChargedRegions(leases)
  {
    var n := |leases| - 1;
    if i < n {
      ChargeOfOne(leases[..n], i);
    }
  }

  lemma ChargeAppended(leases: seq<Lease>, l: Lease)
    ensures ChargedBytes(leases + [l]) == ChargedBytes(leases) + BytesOf(l)
    ensures ChargedRegions(leases + [l]) == ChargedRegions(leases) + RegionOf(l)
  {
    assert (leases + [l])[..|leases|] == leases;
  }

  lemma {:induction false} NothingCharged(leases: seq<Lease>)
    ensures ChargedRegions(leases) == 0 <==> forall i :: 0 <= i < |leases| ==> leases[i].phase.Gone?
    ensures ChargedRegions(leases) == 0 ==> ChargedBytes(leases) == 0
  {
    if leases != [] {
      NothingCharged(leases[..|leases| - 1]);
    }
  }

  // ----- the invariant -----

  function BytesInFlight(count: nat, owner: Owner): nat {
    if owner.HasBytes? || owner.UndoBytes? then Current(count, owner.base, owner.want) else 0
  }

  function RegionsInFlight(owner: Owner): nat {
    if owner.HasRegion? || owner.HasBytes? || owner.UndoBytes? || owner.UndoRegion? then 1 else 0
  }

  ghost predicate Counted(limits: Limits, regions: nat, bytes: nat, leases: seq<Lease>, owner: Owner) {
    && regions == ChargedRegions(leases) + RegionsInFlight(owner) <= limits.maxRegions
    && bytes == ChargedBytes(leases) + BytesInFlight(|leases|, owner) <= limits.maxBytes
  }

  /** The leases of the running call: all live, or being dropped in order. */
  ghost predicate OwnLeases(leases: seq<Lease>, owner: Owner) {
    match owner
    case Unwinding(base, at, half, _) =>
      && base <= at <= |leases| && (half ==> at < |leases|)
      && (forall i :: base <= i < at ==> leases[i].phase.Gone?)
      && (half ==> leases[at].phase.HalfDropped?)
      && (forall i :: (if half then at + 1 else at) <= i < |leases| ==> leases[i].phase.Live?)
    case Idle => true
    case Reading(_, _) => true
    case Closing => true
    case UndoRegion(base, _) => base <= |leases| && forall i :: base <= i < |leases| ==> leases[i].phase.Live?
    case _ =>
      && owner.base <= |leases| <= owner.base + |owner.want|
      && forall i :: owner.base <= i < |leases| ==> leases[i] == Lease(owner.want[i - owner.base], Live)
  }

  /** Only the owner changes the state, so it stays active inside a reservation. */
  ghost predicate OwnerView(liveness: Liveness, regions: nat, bytes: nat, owner: Owner) {
    && (owner.Checked? || owner.HasRegion? || owner.HasBytes? ==> liveness.Active?)
    && !owner.UndoBytes?
    && (owner.Reading? ==> regions <= owner.regions)
    && (owner.Closing? || liveness.Closed? ==> regions == 0 && bytes == 0)
  }

  ghost predicate Replied(liveness: Liveness, owner: Owner, reply: Reply) {
    && (!owner.Idle? ==> reply.Silent?)
    && (reply.ClosedNow? ==> liveness.Closed?)
  }

  ghost predicate Inv(limits: Limits, s: State) {
    && Replied(s.liveness, s.owner, s.reply)
    && Counted(limits, s.regions, s.bytes, s.leases, s.owner)
    && OwnLeases(s.leases, s.owner)
    && (s.owner.Checked? || s.owner.HasRegion? || s.owner.HasBytes? ==> |s.leases| < s.owner.base + |s.owner.want|)
    && OwnerView(s.liveness, s.regions, s.bytes, s.owner)
  }

  lemma StartKeepsInv(limits: Limits, s: State, call: Call)
    requires Inv(limits, s) && s.owner.Idle?
    ensures Inv(limits, ApplyStart(s, call))
  {
  }

  lemma GrantKeepsInv(limits: Limits, s: State)
    requires Inv(limits, s) && s.owner.HasBytes?
    ensures Inv(limits, ApplyOwner(limits, s))
  {
    ChargeAppended(s.leases, Lease(Current(|s.leases|, s.owner.base, s.owner.want), Live));
  }

  lemma NextKeepsInv(limits: Limits, s: State)
    requires Inv(limits, s) && s.owner.Next?
    ensures Inv(limits, ApplyOwner(limits, s))
  {
  }

  lemma ChargeKeepsInv(limits: Limits, s: State)
    requires Inv(limits, s) && (s.owner.Checked? || s.owner.HasRegion?)
    ensures Inv(limits, ApplyOwner(limits, s))
  {
  }

  /** Giving a live lease's bytes back, by its holder or by the unwinding owner. */
  lemma BytesReturned(limits: Limits, s: State, i: nat, owner: Owner)
    requires Counted(limits, s.regions, s.bytes, s.leases, s.owner) && i < |s.leases| && s.leases[i].phase.Live?
    requires BytesInFlight(|s.leases|, owner) == BytesInFlight(|s.leases|, s.owner)
    requires RegionsInFlight(owner) == RegionsInFlight(s.owner)
    ensures s.leases[i].bytes <= s.bytes
    ensures Counted(limits, s.regions, s.bytes - s.leases[i].bytes,
                    s.leases[i := s.leases[i].(phase := HalfDropped)], owner)
  {
    ChargeOfOne(s.leases, i);
    ChargeUpdated(s.leases, i, s.leases[i].(phase := HalfDropped));
  }

  lemma RegionReturned(limits: Limits, s: State, i: nat, owner: Owner)
    requires Counted(limits, s.regions, s.bytes, s.leases, s.owner) && i < |s.leases| && s.leases[i].phase.HalfDropped?
    requires BytesInFlight(|s.leases|, owner) == BytesInFlight(|s.leases|, s.owner)
    requires RegionsInFlight(owner) == RegionsInFlight(s.owner)
    ensures 1 <= s.regions
    ensures Counted(limits, s.regions - 1, s.bytes, s.leases[i := s.leases[i].(phase := Gone)], owner)
  {
    ChargeOfOne(s.leases, i);
    ChargeUpdated(s.leases, i, s.leases[i].(phase := Gone));
  }

  lemma UnwindKeepsInv(limits: Limits, s: State)
    requires Inv(limits, s) && s.owner.Unwinding?
    ensures Inv(limits, ApplyOwner(limits, s))
  {
    var at := s.owner.at;
    if at < |s.leases| {
      if s.owner.half {
        RegionReturned(limits, s, at, Unwinding(s.owner.base, at + 1, false, s.owner.error));
      } else {
        BytesReturned(limits, s, at, Unwinding(s.owner.base, at, true, s.owner.error));
      }
    }
  }

  lemma OwnerKeepsInv(limits: Limits, s: State)
    requires Inv(limits, s)
    ensures Inv(limits, ApplyOwner(limits, s))
  {
    match s.owner
    case Checked(_, _) => ChargeKeepsInv(limits, s);
    case HasRegion(_, _) => ChargeKeepsInv(limits, s);
    case HasBytes(_, _) => GrantKeepsInv(limits, s);
    case Unwinding(_, _, _, _) => UnwindKeepsInv(limits, s);
    case Next(_, _) => NextKeepsInv(limits, s);
    case _ =>
  }

  lemma DropKeepsOwnLeases(leases: seq<Lease>, owner: Owner, i: nat, l: Lease)
    requires OwnLeases(leases, owner) && i < |leases| && (OwnCall(owner) ==> i < owner.base)
    ensures OwnLeases(leases[i := l], owner)
  {
  }

  lemma DropBytesKeepsInv(limits: Limits, s: State, i: nat)
    requires Inv(limits, s)
    ensures Inv(limits, Apply(limits, s, DropBytes(i)))
  {
    if HandedOut(s, i) && s.leases[i].phase.Live? {
      BytesReturned(limits, s, i, s.owner);
      DropKeepsOwnLeases(s.leases, s.owner, i, s.leases[i].(phase := HalfDropped));
    }
  }

  lemma DropRegionKeepsInv(limits: Limits, s: State, i: nat)
    requires Inv(limits, s)
    ensures Inv(limits, Apply(limits, s, DropRegion(i)))
  {
    if HandedOut(s, i) && s.leases[i].phase.HalfDropped? {
      RegionReturned(limits, s, i, s.owner);
      DropKeepsOwnLeases(s.leases, s.owner, i, s.leases[i].(phase := Gone));
    }
  }

  lemma StepKeepsInv(limits: Limits, s: State, step: Step)
    requires Inv(limits, s)
    ensures Inv(limits, Apply(limits, s, step))
  {
    match step
    case Start(call) => if s.owner.Idle? { StartKeepsInv(limits, s, call); }
    case OwnerStep => OwnerKeepsInv(limits, s);
    case DropBytes(i) => DropBytesKeepsInv(limits, s, i);
    case DropRegion(i) => DropRegionKeepsInv(limits, s, i);
  }

  lemma {:induction false} EveryRunKeepsInv(limits: Limits, steps: seq<Step>)
    ensures Inv(limits, Run(limits, steps))
  {
    if steps != [] {
      EveryRunKeepsInv(limits, steps[..|steps| - 1]);
      StepKeepsInv(limits, Run(limits, steps[..|steps| - 1]), steps[|steps| - 1]);
    }
  }

  // ----- theorems over every run -----

  /** At every moment of every interleaving the counters are the sums over
      the leases not yet past each decrement, plus the reservation being made;
      they stay within the limits, and no pending decrement can underflow. */
  lemma CountersMatchLeases(limits: Limits, steps: seq<Step>)
    ensures var s := Run(limits, steps);
            && s.regions == ChargedRegions(s.leases) + RegionsInFlight(s.owner) <= limits.maxRegions
            && s.bytes == ChargedBytes(s.leases) + BytesInFlight(|s.leases|, s.owner) <= limits.maxBytes
            && (forall i :: 0 <= i < |s.leases| && s.leases[i].phase.Live? ==> s.leases[i].bytes <= s.bytes)
            && (forall i :: 0 <= i < |s.leases| && !s.leases[i].phase.Gone? ==> 1 <= s.regions)
            && (s.owner.UndoRegion? ==> 1 <= s.regions)
  {
    EveryRunKeepsInv(limits, steps);
    var s := Run(limits, steps);
    forall i | 0 <= i < |s.leases|
      ensures BytesOf(s.leases[i]) <= s.bytes && RegionOf(s.leases[i]) <= s.regions
    {
      ChargeOfOne(s.leases, i);
    }
  }

  /** The second activity check of a reservation never fails, so the branch
      that takes the bytes back is never reached. */
  lemma SecondCheckNeverFails(limits: Limits, steps: seq<Step>)
    ensures var s := Run(limits, steps);
            !s.owner.UndoBytes? && (s.owner.HasBytes? ==> s.liveness.Active?)
  {
    EveryRunKeepsInv(limits, steps);
  }

  /** A granted call leaves one live lease per requested length. */
  lemma GrantedCallHolds(limits: Limits, steps: seq<Step>)
    requires Run(limits, steps).owner.Next?
    ensures var s := Run(limits, steps);
            var t := Apply(limits, s, OwnerStep);
            t.reply.Granted? ==> HasLeases(t.leases, s.owner.base, s.owner.want)
  {
    EveryRunKeepsInv(limits, steps);
    var s := Run(limits, steps);
    if |s.leases| >= s.owner.base + |s.owner.want| {
      FullCallHasLeases(s.leases, s.owner);
    }
  }

  ghost predicate HasLeases(leases: seq<Lease>, base: nat, want: seq<u64>) {
    |leases| == base + |want| && forall j :: 0 <= j < |want| ==> leases[base + j] == Lease(want[j], Live)
  }

  lemma FullCallHasLeases(leases: seq<Lease>, owner: Owner)
    requires owner.Next? && OwnLeases(leases, owner) && |leases| >= owner.base + |owner.want|
    ensures HasLeases(leases, owner.base, owner.want)
  {
  }

  /** A refused call leaves nothing behind: every lease it made is gone and
      no charge of its own remains in either counter. */
  lemma RefusedCallRestores(limits: Limits, steps: seq<Step>)
    requires Run(limits, steps).owner.Unwinding?
    ensures var s := Run(limits, steps);
            var t := Apply(limits, s, OwnerStep);
            t.owner.Idle? ==>
              && t.reply == Refused(s.owner.error) && s.owner.base <= |t.leases|
              && (forall i :: s.owner.base <= i < |t.leases| ==> t.leases[i].phase.Gone?)
              && t.regions == ChargedRegions(t.leases[..s.owner.base])
              && t.bytes == ChargedBytes(t.leases[..s.owner.base])
  {
    EveryRunKeepsInv(limits, steps);
    var s := Run(limits, steps);
    if s.owner.at >= |s.leases| {
      GoneTail(s.leases, s.owner.base);
    }
  }

  lemma {:induction false} GoneTail(leases: seq<Lease>, base: nat)
    requires base <= |leases| && forall i :: base <= i < |leases| ==> leases[i].phase.Gone?
    ensures ChargedRegions(leases) == ChargedRegions(leases[..base])
    ensures ChargedBytes(leases) == ChargedBytes(leases[..base])
  {
    if base == |leases| {
      assert leases[..base] == leases;
    } else {
      GoneTail(leases[..|leases| - 1], base);
      assert leases[..|leases| - 1][..base] == leases[..base];
    }
  }

  /** Observed facts are never lower than what is charged when they are
      returned, although drops go on between the two loads. */
  lemma FactsNeverLow(limits: Limits, steps: seq<Step>)
    requires Run(limits, steps).owner.Reading?
    ensures var t := Apply(limits, Run(limits, steps), OwnerStep);
            && (t.reply.Facts? ==>
                  ChargedRegions(t.leases) <= t.reply.regions && ChargedBytes(t.leases) <= t.reply.bytes)
            && (t.reply.Facts? && t.reply.regions == 0 ==> forall i :: 0 <= i < |t.leases| ==> t.leases[i].phase.Gone?)
            && (t.reply.Refused? ==>
                  && t.reply.error.LeasesRemain?
                  && ChargedRegions(t.leases) <= t.reply.error.regions
                  && ChargedBytes(t.leases) <= t.reply.error.bytes)
  {
    EveryRunKeepsInv(limits, steps);
    NothingCharged(Run(limits, steps).leases);
  }

  /** Closing succeeds only when no lease is charged, and from then on every
      counter stays zero and no reservation is ever granted a lease. */
  lemma CloseNeedsEmpty(limits: Limits, steps: seq<Step>)
    requires Run(limits, steps).reply.ClosedNow? || Run(limits, steps).liveness.Closed?
    ensures var s := Run(limits, steps);
            && s.liveness.Closed? && s.regions == 0 && s.bytes == 0
            && forall i :: 0 <= i < |s.leases| ==> s.leases[i].phase.Gone?
  {
    EveryRunKeepsInv(limits, steps);
    NothingCharged(Run(limits, steps).leases);
  }

  lemma {:induction false} ClosedForever(limits: Limits, steps: seq<Step>, more: seq<Step>)
    requires Run(limits, steps).liveness.Closed?
    ensures Run(limits, steps + more).liveness.Closed?
    ensures |Run(limits, steps + more).leases| == |Run(limits, steps).leases|
  {
    if more == [] {
      assert steps + more == steps;
    } else {
      var n := |more| - 1;
      ClosedForever(limits, steps, more[..n]);
      assert (steps + more)[..|steps + more| - 1] == steps + more[..n];
      EveryRunKeepsInv(limits, steps + more[..n]);
    }
  }
}
