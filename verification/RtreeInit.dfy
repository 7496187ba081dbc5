/**
 `rtree_node_init` of rtree.c as a step system: any number of threads race to initialise one slot
 with a compare-and-swap, and the losers spin until the winner has published its node.

 Pointers are numbers: NULL is 0 and RTREE_NODE_INITIALIZING is 1, as in rtree.h.
 */
module RtreeInit {
  const NULL: nat := 0
  const INITIALIZING: nat := 1

  /** Where a thread stands in `rtree_node_init`. */
  datatype Pc =
    | Start                 // before the compare-and-swap
    | Spinning              // lost it: waiting for the node
    | Allocating            // won it: about to call rtree->alloc
    | Publishing(node: nat) // about to write the node
    | Returned(node: nat)

  /** `owner` and `allocations` are history: who won, and how many calls of rtree->alloc were made. */
  datatype State = State(slot: nat, threads: seq<Pc>, owner: int, allocations: nat)

  datatype Step = Cas(t: nat) | Read(t: nat) | Alloc(t: nat, node: nat) | Write(t: nat)

  ghost predicate Init(s: State) {
    && s.slot != INITIALIZING && s.owner == -1 && s.allocations == 0
    && forall t :: 0 <= t < |s.threads| ==> s.threads[t].Start?
  }

  /** The allocator returns NULL or an address other than the marker. */
  predicate Enabled(s: State, step: Step) {
    step.t < |s.threads| &&
    match step
    case Cas(t) => s.threads[t].Start?
    case Read(t) => s.threads[t].Spinning?
    case Alloc(t, node) => s.threads[t].Allocating? && node != INITIALIZING
    case Write(t) => s.threads[t].Publishing?
  }

  function Next(s: State, step: Step): State
    requires Enabled(s, step)
  {
    match step
    case Cas(t) =>
      if s.slot == NULL then s.(slot := INITIALIZING, threads := s.threads[t := Allocating], owner := t)
      else s.(threads := s.threads[t := Spinning])
    case Read(t) =>
      if s.slot == INITIALIZING then s else s.(threads := s.threads[t := Returned(s.slot)])
    case Alloc(t, node) =>
      s.(threads := s.threads[t := if node == NULL then Returned(NULL) else Publishing(node)],
         allocations := s.allocations + 1)
    case Write(t) =>
      s.(slot := s.threads[t].node, threads := s.threads[t := Returned(s.threads[t].node)])
  }

  predicate RunEnabled(s: State, steps: seq<Step>)
    decreases |steps|
  {
    steps == [] || (Enabled(s, steps[0]) && RunEnabled(Next(s, steps[0]), steps[1..]))
  }

  function Run(s: State, steps: seq<Step>): State
    requires RunEnabled(s, steps)
    decreases |steps|
  {
    if steps == [] then s else Run(Next(s, steps[0]), steps[1..])
  }

  // ---------- The invariant ----------

  ghost predicate Idle(p: Pc, slot: nat) {
    p.Start? || (p.Spinning? && slot != NULL) || (p.Returned? && p.node == slot && slot != NULL && slot != INITIALIZING)
  }

  /** Only the owner is ever outside the losers' path, and only while the slot says INITIALIZING. */
  ghost predicate Inv(s: State) {
    && (forall t :: 0 <= t < |s.threads| && t != s.owner ==> Idle(s.threads[t], s.slot))
    && (s.owner == -1 ==> s.slot != INITIALIZING && s.allocations == 0)
    && (s.owner != -1 ==>
          && 0 <= s.owner < |s.threads|
          && match s.threads[s.owner]
             case Allocating => s.slot == INITIALIZING && s.allocations == 0
             case Publishing(node) => s.slot == INITIALIZING && s.allocations == 1 && node != NULL && node != INITIALIZING
             case Returned(node) => s.allocations == 1 && (if node == NULL then s.slot == INITIALIZING else s.slot == node && node != INITIALIZING)
             case _ => false)
  }

  /** The winner's allocation failed: the slot still says INITIALIZING but nobody will publish a node. */
  ghost predicate Stuck(s: State) {
    0 <= s.owner < |s.threads| && s.threads[s.owner] == Returned(NULL)
  }

  lemma StepInv(s: State, step: Step)
    requires Inv(s) && Enabled(s, step)
    ensures Inv(Next(s, step))
    ensures Moves(s.slot, Next(s, step).slot)
    ensures Stuck(s) ==> Stuck(Next(s, step))
  {
  }

  /** One step moves the slot from NULL to INITIALIZING or from INITIALIZING to a node, if at all. */
  predicate Moves(before: nat, after: nat) {
    || before == after
    || (before == NULL && after == INITIALIZING)
    || (before == INITIALIZING && after != NULL && after != INITIALIZING)
  }

  /** Over several steps it never goes back, and a node stays. */
  predicate Progress(before: nat, after: nat) {
    before == after || before == NULL || (before == INITIALIZING && after != NULL)
  }

  lemma {:induction false} RunInv(s: State, steps: seq<Step>)
    requires Inv(s) && RunEnabled(s, steps)
    ensures Inv(Run(s, steps)) && Progress(s.slot, Run(s, steps).slot)
    ensures Stuck(s) ==> Stuck(Run(s, steps))
    ensures |Run(s, steps).threads| == |s.threads|
    decreases |steps|
  {
    if steps != [] {
      StepInv(s, steps[0]);
      RunInv(Next(s, steps[0]), steps[1..]);
    }
  }

  // ---------- What callers rely on ----------

  /**
   For any number of threads and any interleaving: the allocator is called at most once, the marker is
   never returned, all non-NULL results are the node in the slot, and only the failed winner gets NULL.
   */
  lemma OnceOnly(s0: State, steps: seq<Step>)
    requires Init(s0) && RunEnabled(s0, steps)
    ensures var s := Run(s0, steps);
            && s.allocations <= 1
            && (forall t :: 0 <= t < |s.threads| && s.threads[t].Returned? ==> s.threads[t].node != INITIALIZING)
            && (forall t :: 0 <= t < |s.threads| && s.threads[t].Returned? && s.threads[t].node != NULL ==>
                  s.threads[t].node == s.slot)
            && (forall t :: 0 <= t < |s.threads| && s.threads[t] == Returned(NULL) ==> t == s.owner && s.slot == INITIALIZING)
  {
    RunInv(s0, steps);
  }

  /** Once published, the node stays: later results agree with earlier ones. */
  lemma ResultsAgree(s0: State, before: seq<Step>, after: seq<Step>, t: nat, u: nat)
    requires Init(s0) && RunEnabled(s0, before) && RunEnabled(Run(s0, before), after)
    requires var s := Run(s0, before); t < |s.threads| && s.threads[t].Returned? && s.threads[t].node != NULL
    requires var s := Run(Run(s0, before), after); u < |s.threads| && s.threads[u].Returned? && s.threads[u].node != NULL
    ensures Run(s0, before).threads[t].node == Run(Run(s0, before), after).threads[u].node
  {
    RunInv(s0, before);
    RunInv(Run(s0, before), after);
  }

  /**
   A spinning thread can still return exactly when the winner's allocation has not failed.  A failed
   allocation leaves the marker in the slot, and every other caller then spins for ever.
   */
  lemma SpinnerCanReturn(s0: State, steps: seq<Step>, t: nat)
    requires Init(s0) && RunEnabled(s0, steps)
    requires t < |Run(s0, steps).threads| && Run(s0, steps).threads[t].Spinning?
    ensures (exists more :: RunEnabled(Run(s0, steps), more) && |Run(Run(s0, steps), more).threads| > t
                            && Run(Run(s0, steps), more).threads[t].Returned?)
            <==> !Stuck(Run(s0, steps))
  {
    var s := Run(s0, steps);
    RunInv(s0, steps);
    if Stuck(s) {
      forall more | RunEnabled(s, more) ensures |Run(s, more).threads| > t && !Run(s, more).threads[t].Returned? {
        RunInv(s, more);
        OwnerStays(s, more);
      }
    } else {
      var more := Finish(s, t);
    }
  }

  lemma {:induction false} OwnerStays(s: State, steps: seq<Step>)
    requires Inv(s) && RunEnabled(s, steps) && s.owner != -1
    ensures Run(s, steps).owner == s.owner
    decreases |steps|
  {
    if steps != [] {
      StepInv(s, steps[0]);
      OwnerStays(Next(s, steps[0]), steps[1..]);
    }
  }

  lemma RunOne(s: State, step: Step)
    requires Enabled(s, step)
    ensures RunEnabled(s, [step]) && Run(s, [step]) == Next(s, step)
  {
    assert [step][1..] == [];
  }

  /** A continuation in which the spinning thread returns. */
  lemma Finish(s: State, t: nat) returns (more: seq<Step>)
    requires Inv(s) && t < |s.threads| && s.threads[t].Spinning? && !Stuck(s)
    ensures RunEnabled(s, more) && |Run(s, more).threads| > t && Run(s, more).threads[t].Returned?
    decreases 0 <= s.owner < |s.threads| && s.threads[s.owner].Allocating?
  {
    if s.slot != INITIALIZING {
      more := [Read(t)];
      RunOne(s, Read(t));
    } else if s.threads[s.owner].Publishing? {
      var s1 := Next(s, Write(s.owner));
      more := [Write(s.owner)] + [Read(t)];
      assert more[1..] == [Read(t)];
      RunOne(s1, Read(t));
    } else {
      var s1 := Next(s, Alloc(s.owner, 2));
      var rest := Finish(s1, t);
      more := [Alloc(s.owner, 2)] + rest;
      assert more[1..] == rest;
    }
  }

  /** A run that gets stuck: the winner's allocation fails while another thread is spinning. */
  lemma StuckExample() returns (s0: State, steps: seq<Step>)
    ensures Init(s0) && RunEnabled(s0, steps)
    ensures Stuck(Run(s0, steps)) && Run(s0, steps).threads == [Returned(NULL), Spinning]
  {
    s0 := State(NULL, [Start, Start], -1, 0);
    steps := [Cas(0), Cas(1), Alloc(0, NULL)];
    var s1 := Next(s0, Cas(0));
    var s2 := Next(s1, Cas(1));
    assert steps[1..] == [Cas(1), Alloc(0, NULL)] && steps[1..][1..] == [Alloc(0, NULL)];
    RunOne(s2, Alloc(0, NULL));
    assert RunEnabled(s1, [Cas(1), Alloc(0, NULL)]);
  }
}
