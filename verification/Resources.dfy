/** The resource owner as the session uses it between interleavings: methods
    that update the counters in place, and the reservation loop with its rollback. */
module Resources {
  import opened Machine
  import opened Limits
  import opened Ledger
  import opened ResourceStates

  class ResourceOwner {
    const limits: SessionLimits
    var liveness: Liveness
    var held: seq<u64>
    var active: seq<u64>
    var activeRegions: nat
    var activeBytes: nat

    ghost function Value(): Ledger
      reads this
    {
      Ledger(held, active, activeRegions, activeBytes)
    }

    ghost predicate Valid()
      reads this
    {
      Balanced(Value(), limits) && (liveness.Closed? ==> activeRegions == 0 && activeBytes == 0)
    }

    constructor (limits: SessionLimits)
      ensures this.limits == limits && Valid() && Value() == EMPTY && liveness.Active?
    {
      this.limits := limits;
      liveness, held, active, activeRegions, activeBytes := Active, [], [], 0, 0;
    }

    method ReserveOne(length: u64) returns (r: Result<u64, ResourceError>)
      requires Valid()
      modifies this
      ensures Valid() && liveness == old(liveness)
      ensures r.Ok? <==> old(liveness).Active? && Reserve(old(Value()), limits, length).Some?
      ensures r.Ok? ==> r.value == length && Some(Value()) == Reserve(old(Value()), limits, length)
      ensures r.Err? ==> Value() == old(Value())
      ensures r.Err? ==> r.error == if length == 0 || length > limits.maxActiveBytes || old(liveness).Active?
                                    then LimitReached else NotActive(old(liveness))
    {
      if length == 0 || length > limits.maxActiveBytes {
        return Err(LimitReached);
      }
      if !liveness.Active? {
        return Err(NotActive(liveness));
      }
      if activeRegions >= limits.maxActiveRegions {
        return Err(LimitReached);
      }
      activeRegions := activeRegions + 1;
      if activeBytes + length > limits.maxActiveBytes {
        activeRegions := activeRegions - 1;
        return Err(LimitReached);
      }
      ReserveKeepsBalance(old(Value()), limits, length);
      activeBytes := activeBytes + length;
      held := held + [length];
      return Ok(length);
    }

    /** The drop of the newest reservation: bytes first, then the region. */
    method DropLast()
      requires Valid() && held != []
      modifies this
      ensures Valid() && liveness == old(liveness)
      ensures held == old(held)[..|old(held)| - 1] && active == old(active)
      ensures activeRegions == old(activeRegions) - 1
      ensures activeBytes == old(activeBytes) - old(held)[|old(held)| - 1]
    {
      activeBytes := activeBytes - held[|held| - 1];
      activeRegions := activeRegions - 1;
      held := held[..|held| - 1];
    }

    /** `reserve_mapped_lengths`: all of the lengths or none of them. */
    method ReserveMappedLengths(lengths: seq<u64>) returns (r: Result<seq<u64>, ResourceError>)
      requires Valid()
      modifies this
      ensures Valid() && liveness == old(liveness)
      ensures r.Ok? <==> lengths == [] || (old(liveness).Active? && ReserveAll(old(Value()), limits, lengths).Some?)
      ensures r.Ok? ==> r.value == lengths && Some(Value()) == ReserveAll(old(Value()), limits, lengths)
      ensures r.Err? ==> Value() == old(Value()) && lengths != []
      ensures r.Err? ==> r.error == if lengths[0] == 0 || lengths[0] > limits.maxActiveBytes || old(liveness).Active?
                                    then LimitReached else NotActive(old(liveness))
    {
      ghost var start := Value();
      assert lengths[..0] == [];
      var i := 0;
      while i < |lengths|
        invariant 0 <= i <= |lengths| && Valid() && liveness == old(liveness)
        invariant i > 0 ==> liveness.Active?
        invariant ReserveAll(start, limits, lengths[..i]) == Some(Value())
      {
        assert lengths[..i + 1][..i] == lengths[..i];
        var one := ReserveOne(lengths[i]);
        if one.Err? {
          Unwind(start, lengths[..i]);
          if liveness.Active? {
            RefusedPrefix(start, limits, lengths, i + 1);
          }
          return Err(one.error);
        }
        i := i + 1;
      }
      assert lengths[..i] == lengths;
      return Ok(lengths);
    }

    method Unwind(ghost start: Ledger, taken: seq<u64>)
      requires Valid() && Balanced(start, limits) && ReserveAll(start, limits, taken) == Some(Value())
      modifies this
      ensures Valid() && liveness == old(liveness) && Value() == start
    {
      ReserveAllKeepsBalance(start, limits, taken);
      var i := |taken|;
      while i > 0
        invariant 0 <= i <= |taken| && Valid() && liveness == old(liveness)
        invariant held == start.held + taken[..i] && active == start.active
      {
        DropLast();
        i := i - 1;
      }
      assert start.held + taken[..0] == start.held;
    }

    method PoisonResources()
      requires Valid()
      modifies this
      ensures Valid() && Value() == old(Value())
      ensures liveness == if old(liveness).Active? then Poisoned else old(liveness)
    {
      if liveness.Active? {
        liveness := Poisoned;
      }
    }

    /** Closing is refused while anything is charged, and happens once. */
    method TryClose() returns (r: Result<(), ResourceError>)
      requires Valid()
      modifies this
      ensures Valid() && Value() == old(Value())
      ensures r.Ok? <==> !old(liveness).Closed? && held == [] && active == []
      ensures r.Err? ==> r.error == if held != [] || active != [] then LeasesRemain(activeRegions, activeBytes)
                                    else NotActive(Closed)
      ensures liveness == if r.Ok? then Closed else old(liveness)
    {
      if activeRegions != 0 || activeBytes != 0 {
        return Err(LeasesRemain(activeRegions, activeBytes));
      }
      if liveness.Closed? {
        return Err(NotActive(Closed));
      }
      liveness := Closed;
      return Ok(());
    }

    /** Completing a reservation hands its charge to the mapping, exactly when
        the mapped length is the reserved one and the session is active. */
    method Complete(actual: u64) returns (r: Result<u64, ResourceError>)
      requires Valid() && held != []
      modifies this
      ensures Valid() && liveness == old(liveness)
      ensures r.Ok? <==> old(held)[0] == actual && liveness.Active?
      ensures held == old(held)[1..]
      ensures r.Ok? ==> active == old(active) + [actual] && activeRegions == old(activeRegions)
                        && activeBytes == old(activeBytes)
      ensures r.Err? ==> active == old(active) && activeRegions == old(activeRegions) - 1
                         && activeBytes == old(activeBytes) - old(held)[0]
      ensures r.Err? ==> r.error == if old(held)[0] != actual then MappedLengthMismatch(old(held)[0], actual)
                                    else NotActive(liveness)
    {
      var reserved := held[0];
      if reserved == actual && liveness.Active? {
        FirstPasses(Value(), limits);
        held, active := held[1..], active + [reserved];
        return Ok(actual);
      }
      FirstReturns(Value(), limits);
      held := held[1..];
      activeBytes := activeBytes - reserved;
      activeRegions := activeRegions - 1;
      return Err(if reserved != actual then MappedLengthMismatch(reserved, actual) else NotActive(liveness));
    }
  }

  lemma FirstOf(s: seq<u64>)
    requires s != []
    ensures Sum(s) == s[0] + Sum(s[1..])
  {
    assert s == [s[0]] + s[1..];
    SumSplit([s[0]], s[1..]);
    SumOne(s[0]);
  }

  /** The oldest reservation passes to its mapping. */
  lemma FirstPasses(l: Ledger, limits: SessionLimits)
    requires Balanced(l, limits) && l.held != []
    ensures Balanced(Ledger(l.held[1..], l.active + [l.held[0]], l.regions, l.bytes), limits)
  {
    FirstOf(l.held);
    SumSplit(l.active, [l.held[0]]);
    SumOne(l.held[0]);
  }

  /** The oldest reservation is given back. */
  lemma FirstReturns(l: Ledger, limits: SessionLimits)
    requires Balanced(l, limits) && l.held != []
    ensures l.held[0] <= l.bytes && 1 <= l.regions
    ensures Balanced(Ledger(l.held[1..], l.active, l.regions - 1, l.bytes - l.held[0]), limits)
  {
    FirstOf(l.held);
  }

  /** A refusal of one length refuses every batch that starts with it. */
  lemma {:induction false} RefusedPrefix(l: Ledger, limits: SessionLimits, lengths: seq<u64>, n: nat)
    requires n <= |lengths| && ReserveAll(l, limits, lengths[..n]).None?
    ensures ReserveAll(l, limits, lengths).None?
    decreases |lengths|
  {
    if n == |lengths| {
      assert lengths[..n] == lengths;
    } else {
      var m := |lengths| - 1;
      assert lengths[..m][..n] == lengths[..n];
      RefusedPrefix(l, limits, lengths[..m], n);
    }
  }
}
