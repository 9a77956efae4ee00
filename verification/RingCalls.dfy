/** What the calls on a ring were asked for is what they answer: every copy
    comes back under the slot and sequence of the call that began it. */
module RingCalls {
  import opened Machine
  import opened Ring

  /** Step `k` is the call that became reader `r`. */
  ghost predicate AskedAt(c: Config, steps: seq<Step>, k: nat, r: nat, i: nat, q: u64)
    requires ValidConfig(c)
  {
    && k < |steps| && steps[k] == LoadSequence(i, q)
    && |Run(c, steps[..k]).readers| == r && |Run(c, steps[..k + 1]).readers| == r + 1
  }

  /** The reader still serves slot `i` and sequence `q`. */
  predicate Serves(reader: Reader, i: nat, q: u64) {
    match reader
    case Loaded(slot, sequence) => slot == i && sequence == q
    case Copying(o, _) => o.slotIndex == i && o.sequence == q
    case Rechecking(o, _) => o.slotIndex == i && o.sequence == q
    case Stopped => true
  }

  ghost predicate Answers(s: State, r: nat, i: nat, q: u64) {
    && r < |s.readers| && Serves(s.readers[r], i, q)
    && forall d :: 0 <= d < |s.delivered| && s.delivered[d].reader == r ==>
         s.delivered[d].slot == i && s.delivered[d].sequence == q
  }

  ghost predicate Owned(s: State) {
    forall d :: 0 <= d < |s.delivered| ==> s.delivered[d].reader < |s.readers|
  }

  lemma StepKeepsOwned(s: State, step: Step)
    requires WellSized(s) && Owned(s)
    ensures Owned(Apply(s, step)) && |s.readers| <= |Apply(s, step).readers|
  {
  }

  lemma StepKeepsAnswers(s: State, step: Step, r: nat, i: nat, q: u64)
    requires WellSized(s) && Answers(s, r, i, q)
    ensures Answers(Apply(s, step), r, i, q)
  {
  }

  lemma NewReader(s: State, step: Step)
    requires WellSized(s) && Owned(s) && |Apply(s, step).readers| != |s.readers|
    ensures step.LoadSequence? && |Apply(s, step).readers| == |s.readers| + 1
    ensures Answers(Apply(s, step), |s.readers|, step.slot, step.expected)
  {
  }

  lemma {:induction false} EveryRunIsOwned(c: Config, steps: seq<Step>)
    requires ValidConfig(c)
    ensures Owned(Run(c, steps))
  {
    if steps != [] {
      EveryRunIsOwned(c, steps[..|steps| - 1]);
      StepKeepsOwned(Run(c, steps[..|steps| - 1]), steps[|steps| - 1]);
    }
  }

  lemma AskedStays(c: Config, steps: seq<Step>, n: nat, k: nat, r: nat, i: nat, q: u64)
    requires ValidConfig(c) && n <= |steps| && AskedAt(c, steps[..n], k, r, i, q)
    ensures AskedAt(c, steps, k, r, i, q)
  {
    assert steps[..n][..k] == steps[..k] && steps[..n][..k + 1] == steps[..k + 1];
  }

  /** Every reader of every run was begun by one call that named a slot and a
      sequence; the reader serves that slot and sequence to its end, and what it
      returns it returns under them. */
  lemma {:induction false} CopiesAnswerTheirCalls(c: Config, steps: seq<Step>, r: nat) returns (k: nat, i: nat, q: u64)
    requires ValidConfig(c) && r < |Run(c, steps).readers|
    ensures AskedAt(c, steps, k, r, i, q) && Answers(Run(c, steps), r, i, q)
    decreases |steps|
  {
    var n := |steps| - 1;
    var before := Run(c, steps[..n]);
    EveryRunIsOwned(c, steps[..n]);
    StepKeepsOwned(before, steps[n]);
    if r < |before.readers| {
      k, i, q := CopiesAnswerTheirCalls(c, steps[..n], r);
      StepKeepsAnswers(before, steps[n], r, i, q);
      AskedStays(c, steps, n, k, r, i, q);
    } else {
      NewReader(before, steps[n]);
      k, i, q := n, steps[n].slot, steps[n].expected;
      assert steps[..n + 1] == steps;
    }
  }

  /** The two ends of slot `i` are bound to one route: owner and cell of the
      mapping, this role, this generation. */
  lemma BindingsShareRoute(c: Config, i: nat)
    requires ValidConfig(c) && i < |c.routes|
    ensures var w, a := BindWriter(c, i), BindAck(c, i);
            && w.ackOwner == a.owner == c.routes[i].owner && w.ackCell == a.cellIndex == c.routes[i].cell
            && w.slot.role == a.target == c.role && w.slot.generation == a.generation == c.generation
            && w.slot.slotIndex == a.slotIndex == i
            && w.slot.capacity == c.capacity && w.slot.slotCount == |c.routes|
  {
  }
}
