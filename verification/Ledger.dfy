/** The charges a session holds against its active-region and active-byte limits. */
module Ledger {
  import opened Machine
  import opened Limits

  /** `held` are reservations of the open transaction, `active` those of
      committed batches that still have live mappings. */
  datatype Ledger = Ledger(held: seq<u64>, active: seq<u64>, regions: nat, bytes: nat)

  const EMPTY: Ledger := Ledger([], [], 0, 0)

  function Sum(s: seq<u64>): nat {
    if s == [] then 0 else Sum(s[..|s| - 1]) + s[|s| - 1]
  }

  predicate Admits(limits: SessionLimits, regions: nat, bytes: nat, length: u64) {
    length != 0 && length <= limits.maxActiveBytes
    && regions < limits.maxActiveRegions && bytes + length <= limits.maxActiveBytes
  }

  function Reserve(l: Ledger, limits: SessionLimits, length: u64): Option<Ledger> {
    if Admits(limits, l.regions, l.bytes, length)
    then Some(l.(held := l.held + [length], regions := l.regions + 1, bytes := l.bytes + length))
    else None
  }

  /** One reservation after another, giving up at the first refusal. */
  function ReserveAll(l: Ledger, limits: SessionLimits, lengths: seq<u64>): Option<Ledger> {
    if lengths == [] then Some(l)
    else match ReserveAll(l, limits, lengths[..|lengths| - 1])
      case None => None
      case Some(next) => Reserve(next, limits, lengths[|lengths| - 1])
  }

  function ReleaseHeld(l: Ledger): Ledger {
    Ledger([], l.active, l.regions - Min(l.regions, |l.held|), l.bytes - Min(l.bytes, Sum(l.held)))
  }

  /** Commit hands the open transaction's reservations to the mapped regions. */
  function Keep(l: Ledger): Ledger {
    Ledger([], l.active + l.held, l.regions, l.bytes)
  }

  /** A mapping of a committed batch is dropped. */
  function Drop(l: Ledger, i: nat): Ledger {
    if i < |l.active|
    then Ledger(l.held, l.active[..i] + l.active[i + 1..],
                l.regions - Min(l.regions, 1), l.bytes - Min(l.bytes, l.active[i]))
    else l
  }

  ghost predicate Balanced(l: Ledger, limits: SessionLimits) {
    && l.regions == |l.held| + |l.active| <= limits.maxActiveRegions
    && l.bytes == Sum(l.held) + Sum(l.active) <= limits.maxActiveBytes
  }

  lemma {:induction false} SumSplit(a: seq<u64>, b: seq<u64>)
    ensures Sum(a + b) == Sum(a) + Sum(b)
  {
    if b == [] {
      assert a + b == a;
    } else {
      SumSplit(a, b[..|b| - 1]);
      assert (a + b)[..|a + b| - 1] == a + b[..|b| - 1];
    }
  }

  lemma SumOne(x: u64)
    ensures Sum([x]) == x
  {
    assert [x][..0] == [];
  }

  lemma ReserveKeepsBalance(l: Ledger, limits: SessionLimits, length: u64)
    requires Balanced(l, limits) && Reserve(l, limits, length).Some?
    ensures Balanced(Reserve(l, limits, length).value, limits)
  {
    assert (l.held + [length])[..|l.held|] == l.held;
  }

  /** A granted batch is charged in full on top of what was there. */
  lemma {:induction false} ReserveAllKeepsBalance(l: Ledger, limits: SessionLimits, lengths: seq<u64>)
    requires Balanced(l, limits)
    ensures var r := ReserveAll(l, limits, lengths);
            r.Some? ==> Balanced(r.value, limits) && r.value.held == l.held + lengths && r.value.active == l.active
  {
    if lengths == [] {
      assert l.held + lengths == l.held;
    } else {
      var n := |lengths| - 1;
      ReserveAllKeepsBalance(l, limits, lengths[..n]);
      match ReserveAll(l, limits, lengths[..n])
      case None =>
      case Some(next) =>
        if Reserve(next, limits, lengths[n]).Some? {
          ReserveKeepsBalance(next, limits, lengths[n]);
          assert l.held + lengths == (l.held + lengths[..n]) + [lengths[n]];
        }
    }
  }

  /** Taking reservations one by one grants exactly the batches that fit as a whole. */
  lemma {:induction false} ReserveAllExactly(l: Ledger, limits: SessionLimits, lengths: seq<u64>)
    requires Balanced(l, limits)
    ensures ReserveAll(l, limits, lengths).Some?
       <==> (forall i :: 0 <= i < |lengths| ==> lengths[i] != 0)
            && l.regions + |lengths| <= limits.maxActiveRegions && l.bytes + Sum(lengths) <= limits.maxActiveBytes
  {
    ReserveAllKeepsBalance(l, limits, lengths);
    if lengths != [] {
      var n := |lengths| - 1;
      ReserveAllExactly(l, limits, lengths[..n]);
      ReserveAllKeepsBalance(l, limits, lengths[..n]);
      SumSplit(l.held, lengths[..n]);
    }
  }

  lemma ReleaseKeepsBalance(l: Ledger, limits: SessionLimits)
    requires Balanced(l, limits)
    ensures Balanced(ReleaseHeld(l), limits) && ReleaseHeld(l).held == [] && ReleaseHeld(l).active == l.active
  {
  }

  lemma KeepKeepsBalance(l: Ledger, limits: SessionLimits)
    requires Balanced(l, limits)
    ensures Balanced(Keep(l), limits) && Keep(l).held == [] && Keep(l).active == l.active + l.held
  {
    SumSplit(l.active, l.held);
  }

  lemma DropKeepsBalance(l: Ledger, limits: SessionLimits, i: nat)
    requires Balanced(l, limits)
    ensures Balanced(Drop(l, i), limits) && Drop(l, i).held == l.held
    ensures i < |l.active| ==>
              && Drop(l, i).active == l.active[..i] + l.active[i + 1..]
              && Drop(l, i).regions == l.regions - 1 && Drop(l, i).bytes == l.bytes - l.active[i]
    ensures i >= |l.active| ==> Drop(l, i) == l
  {
    if i < |l.active| {
      assert l.active == l.active[..i] + ([l.active[i]] + l.active[i + 1..]);
      SumSplit(l.active[..i], [l.active[i]] + l.active[i + 1..]);
      SumSplit([l.active[i]], l.active[i + 1..]);
      SumSplit(l.active[..i], l.active[i + 1..]);
      SumOne(l.active[i]);
    }
  }
}
