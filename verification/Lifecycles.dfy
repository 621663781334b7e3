/** The reconcile pass and its timers (src/dispatch/lifecycle.rs). */
module Lifecycles {
  import opened Wrappers
  import opened Primitives
  import opened Clocks
  import opened Kernels
  import opened Multicast
  import opened Interfaces
  import opened InterfaceTables

  const RECONCILE_TICK: nat := 30 * SECOND
  const RECONCILE_RETRY: nat := SECOND

  datatype Moved = Rebound | Removed

  /** What a step means for whoever uses the interface's captures. */
  function MovedBy(step: Step): Option<Moved> {
    match step
    case ParkedNow(Some(_)) => Some(Removed)
    case BindFailed(Present(_), _, _, _) => Some(Removed)
    case Bound(_, _, _) => Some(Rebound)
    case _ => None
  }

  /** The presence and the bind count around a step, as the table shows them. */
  ghost predicate Observed(was: Presence, now: Presence, step: Step, at: Instant, before: nat, after: nat) {
    Settled(was, now, step, at) && after == before + if step.Bound? then 1 else 0
  }

  /** A step moves an interface exactly when it enters or leaves Present or is bound once more. */
  lemma MovedExactly(was: Presence, now: Presence, step: Step, at: Instant, before: nat, after: nat)
    requires Observed(was, now, step, at, before, after)
    ensures MovedBy(step).Some? <==> was.Present? != now.Present? || after > before
    ensures MovedBy(step).Some? ==> (MovedBy(step).value == Removed <==> !now.Present?)
  {
  }

  function NextPass(now: Instant, soon: bool, bindRetry: Option<Instant>): (next: Instant)
    ensures now < next <= now + 30 * SECOND
    ensures soon ==> next <= now + SECOND
    ensures bindRetry.Some? && now < bindRetry.value ==> next <= bindRetry.value
    ensures next == now + (if soon then SECOND else 30 * SECOND) || Some(next) == bindRetry
  {
    var next := now + if soon then RECONCILE_RETRY else RECONCILE_TICK;
    if bindRetry.Some? && now < bindRetry.value < next then bindRetry.value else next
  }

  datatype Rebuilt = Rebuilt(captures: seq<nat>, removed: bool)

  function CapturesOf(captures: seq<CaptureEntry>, key: nat): seq<nat> {
    CapturesFrom(captures, key, |captures|)
  }

  function CapturesFrom(captures: seq<CaptureEntry>, key: nat, n: nat): seq<nat>
    requires n <= |captures|
  {
    if n == 0 then []
    else CapturesFrom(captures, key, n - 1) + if captures[n - 1].interface == key then [n - 1] else []
  }

  lemma {:induction false} CapturesOfExactly(captures: seq<CaptureEntry>, key: nat, n: nat, c: nat)
    requires n <= |captures|
    ensures c in CapturesFrom(captures, key, n) <==> c < n && captures[c].interface == key
  {
    if n > 0 {
      CapturesOfExactly(captures, key, n - 1, c);
    }
  }

  lemma {:induction false} SameCapturesOf(a: seq<CaptureEntry>, b: seq<CaptureEntry>, key: nat, n: nat)
    requires n <= |a| == |b| && forall c :: 0 <= c < |a| ==> a[c].interface == b[c].interface
    ensures CapturesFrom(a, key, n) == CapturesFrom(b, key, n)
  {
    if n > 0 {
      SameCapturesOf(a, b, key, n - 1);
    }
  }

  /** A pass could not settle this interface: try again soon. */
  predicate Unsettled(step: Step, gone: bool) {
    gone || step.LookupFailed? || (step.Bound? && step.gone)
  }

  ghost predicate AnyUnsettled(steps: seq<Step>, dead: seq<bool>)
    requires |steps| == |dead|
  {
    exists j :: 0 <= j < |steps| && Unsettled(steps[j], dead[j])
  }

  /** An interface the pass settled has had every group attempted. */
  ghost predicate AllTried(entries: seq<InterfaceEntry>, steps: seq<Step>, dead: seq<bool>, at: Instant) {
    && |steps| == |dead| <= |entries|
    && forall j :: 0 <= j < |steps| && !Unsettled(steps[j], dead[j]) ==> Tried(entries[j], at)
  }

  lemma AllTriedNext(was: seq<InterfaceEntry>, now: seq<InterfaceEntry>, steps: seq<Step>, dead: seq<bool>, step: Step, gone: bool, at: Instant)
    requires AllTried(was, steps, dead, at) && |steps| < |was| == |now| && now == was[|steps| := now[|steps|]]
    requires !Unsettled(step, gone) ==> Tried(now[|steps|], at)
    ensures AllTried(now, steps + [step], dead + [gone], at)
  {
    hide Tried, Unsettled;
  }

  lemma AnyUnsettledNext(steps: seq<Step>, dead: seq<bool>, step: Step, gone: bool)
    requires |steps| == |dead|
    ensures AnyUnsettled(steps + [step], dead + [gone]) <==> AnyUnsettled(steps, dead) || Unsettled(step, gone)
  {
    var s, d := steps + [step], dead + [gone];
    assert s[|steps|] == step && d[|steps|] == gone;
    if j :| 0 <= j < |steps| && Unsettled(steps[j], dead[j]) {
      assert Unsettled(s[j], d[j]);
    }
  }

  /** How often each interface was bound in the pass so far. */
  ghost predicate BindsPassed(was: seq<nat>, now: seq<nat>, steps: seq<Step>) {
    && |steps| <= |was| == |now|
    && forall j :: 0 <= j < |was| ==> now[j] == was[j] + if j < |steps| && steps[j].Bound? then 1 else 0
  }

  lemma BindsPassedNext(was: seq<nat>, a: seq<nat>, b: seq<nat>, steps: seq<Step>, step: Step)
    requires BindsPassed(was, a, steps) && |steps| < |was|
    requires b == a[|steps| := a[|steps|] + if step.Bound? then 1 else 0]
    ensures BindsPassed(was, b, steps + [step])
  {
  }

  lemma TalliedOn(a: seq<CaptureEntry>, b: seq<CaptureEntry>, c: seq<CaptureEntry>, n0: seq<nat>, n1: seq<nat>, n2: seq<nat>)
    requires Tallied(a, b, n0, n1) && Tallied(b, c, n1, n2)
    ensures Tallied(a, c, n0, n2)
  {
  }

  // ----- Recovery

  /** Each step reports what the answer of its lookup demands. */
  ghost predicate AllAnswered(was: seq<InterfaceEntry>, steps: seq<Step>, found: seq<Found>, at: Instant) {
    && |steps| == |found| <= |was|
    && forall j :: 0 <= j < |steps| ==> Answered(found[j], was[j].presence, steps[j], at)
  }

  lemma AllAnsweredNext(was: seq<InterfaceEntry>, steps: seq<Step>, found: seq<Found>, step: Step, answer: Found, at: Instant)
    requires AllAnswered(was, steps, found, at) && |steps| < |was| && Answered(answer, was[|steps|].presence, step, at)
    ensures AllAnswered(was, steps + [step], found + [answer], at)
  {
    hide Answered;
  }

  /** On a quiet machine each step answers what the machine has. */
  ghost predicate QuietSteps(was: seq<InterfaceEntry>, steps: seq<Step>, k: KernelState, at: Instant) {
    && |steps| <= |was|
    && forall j :: 0 <= j < |steps| ==> QuietStep(was[j], steps[j], k, at)
  }

  ghost predicate QuietStep(was: InterfaceEntry, step: Step, k: KernelState, at: Instant) {
    Answered(FoundIn(k, was.name), was.presence, step, at)
  }

  lemma QuietStepsNext(was: seq<InterfaceEntry>, steps: seq<Step>, step: Step, k: KernelState, at: Instant)
    requires QuietSteps(was, steps, k, at) && |steps| < |was| && QuietStep(was[|steps|], step, k, at)
    ensures QuietSteps(was, steps + [step], k, at)
  {
    hide QuietStep;
  }

  /** The first `n` interfaces whose names resolve have recovered, but for those still backing off. */
  ghost predicate AllRecovered(was: seq<InterfaceEntry>, now: seq<InterfaceEntry>, captures: seq<CaptureEntry>, k: KernelState,
                               lacking: set<(Index, bool)>, n: nat, at: Instant) {
    && n <= |was| == |now|
    && forall j :: 0 <= j < n ==> RecoveredIfAble(was[j], now[j], captures, j, k, lacking, at)
  }

  ghost predicate RecoveredIfAble(was: InterfaceEntry, now: InterfaceEntry, captures: seq<CaptureEntry>, j: nat,
                                  k: KernelState, lacking: set<(Index, bool)>, at: Instant) {
    was.name in k.names && k.names[was.name] in k.live && !BackingOff(was.presence, k.names[was.name], at) ==>
      Recovered(was, now, captures, j, k.names[was.name], k, lacking, at)
  }

  lemma AllRecoveredNext(was: seq<InterfaceEntry>, a: seq<InterfaceEntry>, b: seq<InterfaceEntry>, before: seq<CaptureEntry>, after: seq<CaptureEntry>,
                         k: KernelState, lacking: set<(Index, bool)>, key: nat, at: Instant)
    requires AllRecovered(was, a, before, k, lacking, key, at) && key < |was| == |b| && b == a[key := b[key]]
    requires Rebinds(before, after, key) && RecoveredIfAble(was[key], b[key], after, key, k, lacking, at)
    ensures AllRecovered(was, b, after, k, lacking, key + 1, at)
  {
    hide AllMet;
    forall j | 0 <= j < key
      ensures RecoveredIfAble(was[j], b[j], after, j, k, lacking, at)
    {
      assert RecoveredIfAble(was[j], a[j], before, j, k, lacking, at);
    }
  }

  /**
   What a pass on a quiet machine leaves of an interface that can be bound: it is where its name
   points, and each group is a membership of that very interface, unless the interface is without
   its family or the group failed before and is not yet due.
   */
  lemma RecoveredIsReal(was: seq<InterfaceEntry>, now: seq<InterfaceEntry>, captures: seq<CaptureEntry>,
                        k: KernelState, lacking: set<(Index, bool)>, at: Instant, key: nat, j: nat)
    requires TableOk(now, captures, k) && AllRecovered(was, now, captures, k, lacking, |now|, at) && KeepsWanted(was, now)
    requires key < |now| && FirstIsIn(captures, key) && !now[key].early
    requires was[key].name in k.names && k.names[was[key].name] in k.live && !BackingOff(was[key].presence, k.names[was[key].name], at)
    requires now[key].memberships.Some? && j < |now[key].memberships.value.groups|
    ensures var i, m := k.names[was[key].name], now[key].memberships.value;
            && now[key].presence == Present(i)
            && (|| (m.groups[j].state.Joined? && Held(i, k.live[i], m.groups[j].group) in m.sockets.All())
                || (m.groups[j].state == Waiting(NoFamily) && (i, m.groups[j].group.v6) in lacking)
                || (m.groups[j].state.JoinFailed? && m.groups[j] == was[key].memberships.value.groups[j] && at < m.groups[j].state.retryAt))
  {
    var m := now[key].memberships.value;
    assert RecoveredIfAble(was[key], now[key], captures, key, k, lacking, at);
    assert KeepsEntry(was[key], now[key]);
    if m.groups[j].state.Joined? {
      JoinedIsReal(now, captures, k, key, j);
    }
  }

  /** The captures, whose they are and what was sent on them; all are resident. */
  ghost predicate SameOwners(a: seq<CaptureEntry>, b: seq<CaptureEntry>) {
    && |a| == |b|
    && forall c :: 0 <= c < |a| ==>
      && b[c].resident && a[c].interface == b[c].interface
      && a[c].sentPacket == b[c].sentPacket && a[c].sent == b[c].sent
  }

  /** The pass so far: what each interface's step did, and which it reported rebuilt. */
  ghost predicate Passed(was: seq<InterfaceEntry>, now: seq<InterfaceEntry>, steps: seq<Step>, at: Instant) {
    && |was| == |now| && |steps| <= |was|
    && (forall j :: 0 <= j < |steps| ==> Settled(was[j].presence, now[j].presence, steps[j], at))
    && (forall j :: 0 <= j < |steps| && Timely(was[j], at) ==> Timely(now[j], at))
    && (forall j :: |steps| <= j < |was| ==> now[j] == was[j])
    && (forall j :: 0 <= j < |was| && now[j].early ==> was[j].early)
    && KeepsWanted(was, now)
  }

  /** `whom` are, in order, the interfaces `rebuilt` reports. */
  ghost predicate Reports(rebuilt: seq<Rebuilt>, whom: seq<nat>, steps: seq<Step>, captures: seq<CaptureEntry>) {
    && |rebuilt| == |whom|
    && (forall a, b :: 0 <= a < b < |whom| ==> whom[a] < whom[b])
    && (forall j :: j in whom <==> 0 <= j < |steps| && MovedBy(steps[j]).Some?)
    && (forall a :: 0 <= a < |whom| ==>
          && rebuilt[a].captures == CapturesOf(captures, whom[a])
          && whom[a] < |steps| && MovedBy(steps[whom[a]]).Some?
          && rebuilt[a].removed == (MovedBy(steps[whom[a]]).value == Removed))
  }

  class InterfaceLifecycle {
    var nextReconcile: Instant

    constructor (now: Instant)
      ensures nextReconcile == now + RECONCILE_TICK
    {
      nextReconcile := now + RECONCILE_TICK;
    }

    /**
     Step every interface, attempt the groups of the kept ones, and arm the next pass. `steps` and
     `dead` record each interface's step and whether its join found the index dead.
     */
    method Reconcile(table: InterfaceTable, kernel: Kernel, now: Instant)
        returns (rebuilt: seq<Rebuilt>, ghost whom: seq<nat>, ghost steps: seq<Step>, ghost dead: seq<bool>, ghost found: seq<Found>)
      requires table.Valid(kernel) && forall c :: 0 <= c < |table.captures| ==> table.captures[c].resident
      modifies this, table, kernel`state
      ensures table.Valid(kernel) && Evolves(old(kernel.state), kernel.state)
      ensures |steps| == |dead| == |table.entries| && Passed(old(table.entries), table.entries, steps, now)
      ensures AllAnswered(old(table.entries), steps, found, now)
      ensures Reports(rebuilt, whom, steps, old(table.captures))
      ensures AllTried(table.entries, steps, dead, now)
      ensures SameOwners(old(table.captures), table.captures)
      ensures kernel.quiet ==> kernel.state == old(kernel.state)
      ensures BindsPassed(old(table.binds), table.binds, steps) && Tallied(old(table.captures), table.captures, old(table.binds), table.binds)
      ensures kernel.quiet ==> AllRecovered(old(table.entries), table.entries, table.captures, kernel.state, kernel.lacking, |steps|, now)
      ensures kernel.quiet ==> QuietSteps(old(table.entries), steps, kernel.state, now)
      ensures forall j :: 0 <= j < |steps| ==>
                (j in whom <==> old(table.entries[j].presence.Present?) != table.entries[j].presence.Present? || table.binds[j] > old(table.binds[j]))
      ensures now < nextReconcile <= now + RECONCILE_TICK
      ensures (exists j :: 0 <= j < |steps| && (dead[j] || steps[j].LookupFailed? || (steps[j].Bound? && steps[j].gone))) ==>
                nextReconcile <= now + SECOND
      ensures (exists j :: 0 <= j < |steps| && table.entries[j].presence.Parked?) ==> nextReconcile <= now + SECOND
      ensures (forall j :: 0 <= j < |steps| ==> !steps[j].LookupFailed?) ==>
                forall j :: 0 <= j < |steps| && table.entries[j].presence.Unbound? ==>
                  nextReconcile <= table.entries[j].presence.nextTry
      ensures (forall j :: 0 <= j < |steps| ==>
                 !dead[j] && !steps[j].LookupFailed? && !(steps[j].Bound? && steps[j].gone) && !table.entries[j].presence.Parked?) ==>
                || nextReconcile == now + 30 * SECOND
                || exists j :: 0 <= j < |steps| && table.entries[j].presence.Unbound? && table.entries[j].presence.nextTry == nextReconcile
    {
      hide AllAnswered, Passed, Reports, InterfaceTable.Valid, Tallied, AllRecovered, AllTried, Evolves, SameOwners;
      var soon;
      rebuilt, soon, whom, steps, dead, found := StepAll(table, kernel, now);
      var parked := table.AnyParked();
      var retry := table.NextBindRetry();
      nextReconcile := NextPass(now, soon || parked, retry);
      DueLater(old(table.entries), table.entries, steps, now);
      forall j | 0 <= j < |steps|
        ensures j in whom <==> old(table.entries[j].presence.Present?) != table.entries[j].presence.Present? || table.binds[j] > old(table.binds[j])
      {
        RebuiltExactly(old(table.entries), table.entries, steps, now, old(table.binds), table.binds, rebuilt, whom, old(table.captures), j);
      }
    }

    method StepAll(table: InterfaceTable, kernel: Kernel, now: Instant)
        returns (rebuilt: seq<Rebuilt>, soon: bool, ghost whom: seq<nat>, ghost steps: seq<Step>, ghost dead: seq<bool>,
                 ghost found: seq<Found>)
      requires table.Valid(kernel) && forall c :: 0 <= c < |table.captures| ==> table.captures[c].resident
      modifies table, kernel`state
      ensures table.Valid(kernel) && Evolves(old(kernel.state), kernel.state)
      ensures |steps| == |dead| == |table.entries| && Passed(old(table.entries), table.entries, steps, now)
      ensures AllAnswered(old(table.entries), steps, found, now)
      ensures Reports(rebuilt, whom, steps, old(table.captures))
      ensures soon <==> AnyUnsettled(steps, dead)
      ensures |table.entries| == |old(table.entries)|
      ensures AllTried(table.entries, steps, dead, now)
      ensures SameOwners(old(table.captures), table.captures)
      ensures kernel.quiet ==> kernel.state == old(kernel.state)
      ensures BindsPassed(old(table.binds), table.binds, steps) && Tallied(old(table.captures), table.captures, old(table.binds), table.binds)
      ensures kernel.quiet ==> AllRecovered(old(table.entries), table.entries, table.captures, kernel.state, kernel.lacking, |steps|, now)
      ensures kernel.quiet ==> QuietSteps(old(table.entries), steps, kernel.state, now)
    {
      hide *;
      rebuilt, whom, steps, dead, found := [], [], [], [], [];
      NothingPassed(table, kernel, now);
      soon := false;
      NoneUnsettled();
      var key := 0;
      while key < |table.entries|
        invariant key == |steps| == |dead| <= |table.entries|
        invariant table.Valid(kernel) && Evolves(old(kernel.state), kernel.state)
        invariant SameOwners(old(table.captures), table.captures)
        invariant Passed(old(table.entries), table.entries, steps, now)
        invariant AllAnswered(old(table.entries), steps, found, now)
        invariant Reports(rebuilt, whom, steps, old(table.captures))
        invariant soon <==> AnyUnsettled(steps, dead)
        invariant |table.entries| == |old(table.entries)|
        invariant AllTried(table.entries, steps, dead, now)
        invariant BindsPassed(old(table.binds), table.binds, steps) && Tallied(old(table.captures), table.captures, old(table.binds), table.binds)
        invariant kernel.quiet ==> kernel.state == old(kernel.state)
        invariant kernel.quiet ==> QuietSteps(old(table.entries), steps, kernel.state, now)
        invariant kernel.quiet ==> AllRecovered(old(table.entries), table.entries, table.captures, kernel.state, kernel.lacking, key, now)
      {
        ghost var before, captures, binds := table.entries, table.captures, table.binds;
        var step, gone;
        ghost var answer;
        step, gone, answer := StepAndConverge(table, kernel, key, now, old(kernel.state), old(table.captures), old(table.entries), steps);
        AllAnsweredNext(old(table.entries), steps, found, step, answer, now);
        AnyUnsettledNext(steps, dead, step, gone);
        AllTriedNext(before, table.entries, steps, dead, step, gone, now);
        BindsPassedNext(old(table.binds), binds, table.binds, steps, step);
        TalliedOn(old(table.captures), captures, table.captures, old(table.binds), binds, table.binds);
        if kernel.quiet {
          QuietStepsNext(old(table.entries), steps, step, kernel.state, now);
          AllRecoveredNext(old(table.entries), before, table.entries, captures, table.captures, kernel.state, kernel.lacking, key, now);
        }
        soon := soon || Unsettled(step, gone);
        var moved := MovedBy(step);
        SameCaptures(old(table.captures), table.captures, key);
        if moved.Some? {
          rebuilt := rebuilt + [Rebuilt(CapturesOf(table.captures, key), moved.value == Removed)];
          whom := whom + [key];
        }
        ReportsNext(rebuilt, whom, steps, step, old(table.captures));
        steps, dead, found := steps + [step], dead + [gone], found + [answer];
        key := key + 1;
      }
    }

    /** One interface's step, and an attempt at its groups where the step made none. */
    method StepAndConverge(table: InterfaceTable, kernel: Kernel, key: nat, now: Instant,
                           ghost k0: KernelState, ghost captures0: seq<CaptureEntry>, ghost was: seq<InterfaceEntry>, ghost steps: seq<Step>)
        returns (step: Step, gone: bool, ghost found: Found)
      requires table.Valid(kernel) && key < |table.entries| && Evolves(k0, kernel.state)
      requires SameOwners(captures0, table.captures)
      requires key == |steps| && Passed(was, table.entries, steps, now)
      modifies table, kernel`state
      ensures table.Valid(kernel) && Evolves(k0, kernel.state)
      ensures SameOwners(captures0, table.captures)
      ensures |table.entries| == |old(table.entries)| && Passed(was, table.entries, steps + [step], now)
      ensures table.entries == old(table.entries)[key := table.entries[key]]
      ensures Answered(found, was[key].presence, step, now)
      ensures !Unsettled(step, gone) ==> Tried(table.entries[key], now)
      ensures Rebinds(old(table.captures), table.captures, key) && |old(table.binds)| == |table.entries|
      ensures table.binds == old(table.binds)[key := old(table.binds[key]) + if step.Bound? then 1 else 0]
      ensures Tallied(old(table.captures), table.captures, old(table.binds), table.binds)
      ensures kernel.quiet ==> kernel.state == old(kernel.state)
      ensures kernel.quiet ==> QuietStep(was[key], step, kernel.state, now)
      ensures kernel.quiet ==> RecoveredIfAble(was[key], table.entries[key], table.captures, key, kernel.state, kernel.lacking, now)
    {
      hide Timely, Evolves, KeepsGroups, AllMet, Passed, InterfaceTable.Valid;
      KeyIsOpen(table, kernel, key, was, steps, now);
      ghost var k := kernel.state;
      step, found := table.Step(kernel, key, now);
      EvolvesOn(k0, k, kernel.state);
      k := kernel.state;
      gone := false;
      MetAfresh(was[key].memberships, table.entries[key].memberships, kernel.lacking, now);
      PassedNext(was, old(table.entries), table.entries, steps, step, now);
      if step.Kept? {
        ghost var mid := table.entries;
        gone := table.ConvergeOn(kernel, key, now);
        EvolvesOn(k0, k, kernel.state);
        PassedAgain(was, mid, table.entries, steps + [step], key, now);
      }
    }
  }

  lemma KeyIsOpen(table: InterfaceTable, kernel: Kernel, key: nat, was: seq<InterfaceEntry>, steps: seq<Step>, at: Instant)
    requires table.Valid(kernel) && key == |steps| < |table.entries| && Passed(was, table.entries, steps, at)
    ensures |was| == |table.entries| == |table.binds| && was[key] == table.entries[key]
  {
  }

  /** Groups attempted afresh are met whatever they were before. */
  lemma MetAfresh(was: Option<Memberships>, m: Option<Memberships>, lacking: set<(Index, bool)>, at: Instant)
    ensures forall i :: AllMet(Rebased(was), m, i, lacking, at) ==> AllMet(was, m, i, lacking, at)
  {
  }

  lemma NoneUnsettled()
    ensures !AnyUnsettled([], [])
  {
  }

  lemma SameCaptures(a: seq<CaptureEntry>, b: seq<CaptureEntry>, key: nat)
    requires SameOwners(a, b)
    ensures CapturesOf(a, key) == CapturesOf(b, key)
  {
    SameCapturesOf(a, b, key, |a|);
  }

  lemma NothingPassed(table: InterfaceTable, kernel: Kernel, at: Instant)
    requires table.Valid(kernel) && forall c :: 0 <= c < |table.captures| ==> table.captures[c].resident
    ensures Evolves(kernel.state, kernel.state) && SameOwners(table.captures, table.captures)
    ensures Passed(table.entries, table.entries, [], at) && Reports([], [], [], table.captures)
    ensures AllTried(table.entries, [], [], at)
    ensures BindsPassed(table.binds, table.binds, []) && Tallied(table.captures, table.captures, table.binds, table.binds)
    ensures AllRecovered(table.entries, table.entries, table.captures, kernel.state, kernel.lacking, 0, at)
    ensures QuietSteps(table.entries, [], kernel.state, at) && AllAnswered(table.entries, [], [], at)
    ensures |table.binds| == |table.entries|
  {
  }

  lemma PassedNext(was: seq<InterfaceEntry>, a: seq<InterfaceEntry>, b: seq<InterfaceEntry>, steps: seq<Step>, step: Step, at: Instant)
    requires Passed(was, a, steps, at) && |steps| < |was| && |b| == |a|
    requires b == a[|steps| := b[|steps|]] && KeepsEntry(a[|steps|], b[|steps|]) && (b[|steps|].early ==> a[|steps|].early)
    requires Settled(a[|steps|].presence, b[|steps|].presence, step, at)
    requires Timely(a[|steps|], at) ==> Timely(b[|steps|], at)
    ensures Passed(was, b, steps + [step], at)
  {
    hide Timely;
    KeepsEntryOn(was[|steps|], a[|steps|], b[|steps|]);
  }

  lemma PassedAgain(was: seq<InterfaceEntry>, a: seq<InterfaceEntry>, b: seq<InterfaceEntry>, steps: seq<Step>, key: nat, at: Instant)
    requires Passed(was, a, steps, at) && key < |steps| && |b| == |a|
    requires b == a[key := b[key]] && KeepsEntry(a[key], b[key]) && b[key].presence == a[key].presence && (b[key].early ==> a[key].early)
    requires Timely(a[key], at) ==> Timely(b[key], at)
    ensures Passed(was, b, steps, at)
  {
    hide Timely;
    KeepsEntryOn(was[key], a[key], b[key]);
  }

  lemma ReportsNext(rebuilt: seq<Rebuilt>, whom: seq<nat>, steps: seq<Step>, step: Step, captures: seq<CaptureEntry>)
    requires MovedBy(step).None? ==> Reports(rebuilt, whom, steps, captures)
    requires MovedBy(step).Some? ==>
               && rebuilt != [] && whom != [] && whom[|whom| - 1] == |steps|
               && rebuilt[|rebuilt| - 1] == Rebuilt(CapturesOf(captures, |steps|), MovedBy(step).value == Removed)
               && Reports(rebuilt[..|rebuilt| - 1], whom[..|whom| - 1], steps, captures)
    ensures Reports(rebuilt, whom, steps + [step], captures)
  {
    hide MovedBy, CapturesOf;
    var all := steps + [step];
    assert forall j :: 0 <= j < |steps| ==> all[j] == steps[j];
    if MovedBy(step).Some? {
      ReportedNext(rebuilt, whom, steps, step, captures);
    } else {
      forall a | 0 <= a < |whom|
        ensures whom[a] < |steps|
      {
        assert whom[a] in whom;
      }
    }
  }

  lemma ReportedNext(rebuilt: seq<Rebuilt>, whom: seq<nat>, steps: seq<Step>, step: Step, captures: seq<CaptureEntry>)
    requires MovedBy(step).Some? && rebuilt != [] && |whom| == |rebuilt| && whom[|whom| - 1] == |steps|
    requires rebuilt[|rebuilt| - 1] == Rebuilt(CapturesOf(captures, |steps|), MovedBy(step).value == Removed)
    requires Reports(rebuilt[..|rebuilt| - 1], whom[..|whom| - 1], steps, captures)
    ensures Reports(rebuilt, whom, steps + [step], captures)
  {
    hide MovedBy, CapturesOf;
    var n, all := |whom| - 1, steps + [step];
    assert forall j :: 0 <= j < |steps| ==> all[j] == steps[j];
    assert all[|steps|] == step && whom == whom[..n] + [|steps|] && rebuilt == rebuilt[..n] + [rebuilt[n]];
    forall a | 0 <= a < n
      ensures whom[a] in whom[..n]
    {
      assert whom[..n][a] == whom[a];
    }
  }

  /** After a pass in which every lookup ran, an interface still unbound is due later. */
  lemma DueLater(was: seq<InterfaceEntry>, now: seq<InterfaceEntry>, steps: seq<Step>, at: Instant)
    requires Passed(was, now, steps, at) && |steps| == |now|
    ensures forall j :: 0 <= j < |steps| && !steps[j].LookupFailed? && now[j].presence.Unbound? ==>
              at < now[j].presence.nextTry
  {
    forall j | 0 <= j < |steps| && !steps[j].LookupFailed? && now[j].presence.Unbound?
      ensures at < now[j].presence.nextTry
    {
      assert Settled(was[j].presence, now[j].presence, steps[j], at);
    }
  }

  /** A pass reports an interface exactly when it entered or left Present or was bound once more. */
  lemma RebuiltExactly(was: seq<InterfaceEntry>, now: seq<InterfaceEntry>, steps: seq<Step>, at: Instant,
                       before: seq<nat>, after: seq<nat>, rebuilt: seq<Rebuilt>, whom: seq<nat>, captures: seq<CaptureEntry>, j: nat)
    requires Passed(was, now, steps, at) && Reports(rebuilt, whom, steps, captures) && j < |steps|
    requires BindsPassed(before, after, steps)
    ensures j in whom <==> was[j].presence.Present? != now[j].presence.Present? || after[j] > before[j]
    ensures forall a :: 0 <= a < |whom| && whom[a] == j ==> (rebuilt[a].removed <==> !now[j].presence.Present?)
  {
    MovedExactly(was[j].presence, now[j].presence, steps[j], at, before[j], after[j]);
  }

  // ----- Back-off over a run of failures

  datatype Happening = Stepped(step: Step, at: Instant) | Woken(at: Instant)

  /** `a` becomes `b` while every bind at `i` fails: a failure, an idle step, or a wake-up. */
  ghost predicate StillFailing(a: Presence, b: Presence, h: Happening, i: Index) {
    match h
    case Stepped(step, at) =>
      && Settled(a, b, step, at)
      && (step.BindFailed? ==> step.index == i)
      && (step.BindFailed? || step.Kept? || step.LookupFailed?)
    case Woken(at) => b == if a.Unbound? then a.(nextTry := at) else a
  }

  predicate IsFailure(h: Happening) {
    h.Stepped? && h.step.BindFailed?
  }

  function Failures(hs: seq<Happening>): nat {
    if hs == [] then 0 else Failures(hs[..|hs| - 1]) + if IsFailure(hs[|hs| - 1]) then 1 else 0
  }

  ghost predicate FailingRun(ps: seq<Presence>, hs: seq<Happening>, i: Index) {
    && |ps| == |hs| + 1
    && !(ps[0].Unbound? && ps[0].index == i)
    && forall t :: 0 <= t < |hs| ==> StillFailing(ps[t], ps[t + 1], hs[t], i)
  }

  lemma {:induction false} FailuresAreCounted(ps: seq<Presence>, hs: seq<Happening>, i: Index)
    requires FailingRun(ps, hs, i)
    ensures var n, p := Failures(hs), ps[|hs|];
            if n == 0 then !(p.Unbound? && p.index == i)
            else p.Unbound? && p.index == i && p.attempts == if n - 1 < U32_MAX then n - 1 else U32_MAX
    decreases |hs|
  {
    if hs != [] {
      var t := |hs| - 1;
      FailuresAreCounted(ps[..|ps| - 1], hs[..t], i);
      assert StillFailing(ps[t], ps[t + 1], hs[t], i);
    }
  }

  /** The k-th consecutive failure at one index, counting from 0, waits min(30, 2^k) seconds. */
  lemma KthFailureWaits(ps: seq<Presence>, hs: seq<Happening>, i: Index, t: nat)
    requires FailingRun(ps, hs, i) && t < |hs| && IsFailure(hs[t])
    ensures var k := Failures(hs[..t]);
            hs[t].step.retryIn == (if Pow2(k) < 30 then Pow2(k) else 30) * SECOND
    ensures ps[t + 1].Unbound? && ps[t + 1].nextTry == hs[t].at + hs[t].step.retryIn
  {
    var k := Failures(hs[..t]);
    FailuresAreCounted(ps[..t + 1], hs[..t], i);
    assert StillFailing(ps[t], ps[t + 1], hs[t], i);
    RetryDelayDoubles(NextAttempts(ps[t], i));
    if k > U32_MAX {
      assert Pow2(5) == 32;
      Pow2Grows(5, k);
      Pow2Grows(5, U32_MAX);
    }
  }
}
