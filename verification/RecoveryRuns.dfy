/**
 Runs of the reconcile pass, each at the time the last one set, on a machine that has become quiet:
 every interface whose name resolves recovers, those backing off included, within a stated time.
 */
module RecoveryRuns {
  import opened Wrappers
  import opened Clocks
  import opened Kernels
  import opened Multicast
  import opened Addresses
  import opened Interfaces
  import opened InterfaceTables
  import opened Lifecycles

  /** The entry's name resolves to the interface at `i`. */
  predicate PointsTo(e: InterfaceEntry, k: KernelState, i: Index) {
    e.name in k.names && k.names[e.name] == i && i in k.live
  }

  /** What is left to retry is due by then: a bind by `limit`, a join one tick before it. */
  predicate DueBy(e: InterfaceEntry, i: Index, limit: Instant) {
    && (e.presence.Unbound? && e.presence.index == i ==> e.presence.nextTry <= limit)
    && (e.memberships.Some? ==>
          var groups := e.memberships.value.groups;
          forall j :: 0 <= j < |groups| && groups[j].state.JoinFailed? ==> groups[j].state.retryAt + RECONCILE_TICK <= limit)
  }

  ghost predicate AllDueBy(entries: seq<InterfaceEntry>, k: KernelState, limit: Instant) {
    forall j, i :: 0 <= j < |entries| && PointsTo(entries[j], k, i) ==> DueBy(entries[j], i, limit)
  }

  /** Nothing left to do for the interface: bound where its name points, read by all, every group met. */
  predicate Done(e: InterfaceEntry, captures: seq<CaptureEntry>, j: nat, i: Index, k: KernelState, lacking: set<(Index, bool)>) {
    && e.presence == Present(i) && Attached(captures, j, i, k)
    && (e.memberships.Some? ==>
          forall l :: 0 <= l < |e.memberships.value.groups| ==> Met(e.memberships.value.groups[l], i, lacking))
  }

  /** A pass at `at` is behind the interface: done, or what is not is due later, and `next` is no later than a bind's retry. */
  predicate Behind(e: InterfaceEntry, captures: seq<CaptureEntry>, j: nat, i: Index, k: KernelState, lacking: set<(Index, bool)>,
                   at: Instant, next: Instant) {
    || (e.presence.Unbound? && e.presence.index == i && next <= e.presence.nextTry)
    || (&& e.presence == Present(i) && Attached(captures, j, i, k)
        && (e.memberships.Some? ==>
              var groups := e.memberships.value.groups;
              forall l :: 0 <= l < |groups| ==>
                Met(groups[l], i, lacking) || (groups[l].state.JoinFailed? && at < groups[l].state.retryAt)))
  }

  ghost predicate AllBehind(entries: seq<InterfaceEntry>, captures: seq<CaptureEntry>, k: KernelState, lacking: set<(Index, bool)>,
                            at: Instant, next: Instant) {
    forall j, i :: 0 <= j < |entries| && PointsTo(entries[j], k, i) ==> Behind(entries[j], captures, j, i, k, lacking, at, next)
  }

  ghost predicate AllDone(entries: seq<InterfaceEntry>, captures: seq<CaptureEntry>, k: KernelState, lacking: set<(Index, bool)>) {
    forall j, i :: 0 <= j < |entries| && PointsTo(entries[j], k, i) ==> Done(entries[j], captures, j, i, k, lacking)
  }

  /** Parked, with no socket, no address and no group but in wait. */
  ghost predicate Withdrawn(e: InterfaceEntry) {
    && e.presence == Parked && e.addrs == NO_ADDRESSES && e.mtu == None
    && (e.memberships.Some? ==> Idle(e.memberships.value))
  }

  /** Every interface the machine has no name for is withdrawn. */
  ghost predicate AllWithdrawn(entries: seq<InterfaceEntry>, k: KernelState) {
    forall j :: 0 <= j < |entries| && entries[j].name !in k.names ==> Withdrawn(entries[j])
  }

  lemma UnresolvedIsWithdrawn(was: seq<InterfaceEntry>, now: seq<InterfaceEntry>, captures: seq<CaptureEntry>, steps: seq<Step>,
                              k: KernelState, at: Instant)
    requires TableOk(now, captures, k) && |steps| == |now| && Passed(was, now, steps, at) && QuietSteps(was, steps, k, at)
    ensures AllWithdrawn(now, k)
  {
    hide TableOk, Timely;
    forall j | 0 <= j < |now| && now[j].name !in k.names
      ensures Withdrawn(now[j])
    {
      assert KeepsEntry(was[j], now[j]) && QuietStep(was[j], steps[j], k, at);
      assert Settled(was[j].presence, now[j].presence, steps[j], at);
      AbsentHoldsNothing(now, captures, k, j);
    }
  }

  /** No entry is gained, and none becomes early. */
  predicate NoneMoreEarly(a: seq<InterfaceEntry>, b: seq<InterfaceEntry>) {
    |a| == |b| && forall j :: 0 <= j < |a| && b[j].early ==> a[j].early
  }

  /** One interface through one quiet pass. */
  lemma PassMovesOn(was: InterfaceEntry, e: InterfaceEntry, step: Step, captures: seq<CaptureEntry>, j: nat, i: Index,
                    k: KernelState, lacking: set<(Index, bool)>, at: Instant, next: Instant, limit: Instant)
    requires EntryOk(e, j, captures, k) && KeepsEntry(was, e) && PointsTo(was, k, i) && DueBy(was, i, limit)
    requires RecoveredIfAble(was, e, captures, j, k, lacking, at) && QuietStep(was, step, k, at) && Settled(was.presence, e.presence, step, at)
    requires e.presence.Unbound? ==> next <= e.presence.nextTry
    ensures DueBy(e, i, limit) && Behind(e, captures, j, i, k, lacking, at, next)
  {
    if BackingOff(was.presence, i, at) {
      assert e.presence == was.presence;
    } else {
      assert Recovered(was, e, captures, j, i, k, lacking, at);
      if e.memberships.Some? {
        forall l | 0 <= l < |e.memberships.value.groups|
          ensures Met(e.memberships.value.groups[l], i, lacking)
                  || (e.memberships.value.groups[l] == was.memberships.value.groups[l] && Resting(e.memberships.value.groups[l], at))
        {
        }
      }
    }
  }

  /** Once the next pass would be after everything is due, nothing is left. */
  lemma ThenDone(e: InterfaceEntry, captures: seq<CaptureEntry>, j: nat, i: Index, k: KernelState, lacking: set<(Index, bool)>,
                 at: Instant, next: Instant, limit: Instant)
    requires DueBy(e, i, limit) && Behind(e, captures, j, i, k, lacking, at, next) && limit < next <= at + RECONCILE_TICK
    ensures Done(e, captures, j, i, k, lacking)
  {
  }

  lemma QuietLookupsRun(was: seq<InterfaceEntry>, steps: seq<Step>, k: KernelState, at: Instant)
    requires QuietSteps(was, steps, k, at)
    ensures forall j :: 0 <= j < |steps| ==> !steps[j].LookupFailed?
  {
    forall j | 0 <= j < |steps|
      ensures !steps[j].LookupFailed?
    {
      assert QuietStep(was[j], steps[j], k, at);
    }
  }

  lemma ValidHolds(table: InterfaceTable, kernel: Kernel)
    requires table.Valid(kernel)
    ensures TableOk(table.entries, table.captures, kernel.state)
  {
  }

  /** One pass, at the time the last one set. */
  method OnePass(life: InterfaceLifecycle, table: InterfaceTable, kernel: Kernel, ghost limit: Instant) returns (ghost at: Instant)
    requires table.Valid(kernel) && kernel.quiet && forall c :: 0 <= c < |table.captures| ==> table.captures[c].resident
    requires AllDueBy(table.entries, kernel.state, limit)
    modifies life, table, kernel`state
    ensures table.Valid(kernel) && kernel.state == old(kernel.state) && SameOwners(old(table.captures), table.captures)
    ensures at == old(life.nextReconcile) < life.nextReconcile <= at + RECONCILE_TICK
    ensures KeepsWanted(old(table.entries), table.entries) && NoneMoreEarly(old(table.entries), table.entries)
    ensures AllDueBy(table.entries, kernel.state, limit)
    ensures AllBehind(table.entries, table.captures, kernel.state, kernel.lacking, at, life.nextReconcile)
    ensures AllWithdrawn(table.entries, kernel.state)
  {
    hide *;
    at := life.nextReconcile;
    ghost var was := table.entries;
    var rebuilt;
    ghost var whom, steps, dead, found;
    rebuilt, whom, steps, dead, found := life.Reconcile(table, kernel, life.nextReconcile);
    QuietLookupsRun(was, steps, kernel.state, at);
    ValidHolds(table, kernel);
    PassIsBehind(table, kernel, was, steps, at, life.nextReconcile, limit);
    UnresolvedIsWithdrawn(was, table.entries, table.captures, steps, kernel.state, at);
  }

  lemma PassIsBehind(table: InterfaceTable, kernel: Kernel, was: seq<InterfaceEntry>, steps: seq<Step>, at: Instant, next: Instant, limit: Instant)
    requires table.Valid(kernel) && |steps| == |table.entries| && Passed(was, table.entries, steps, at)
    requires AllRecovered(was, table.entries, table.captures, kernel.state, kernel.lacking, |steps|, at)
    requires QuietSteps(was, steps, kernel.state, at) && AllDueBy(was, kernel.state, limit)
    requires forall j :: 0 <= j < |steps| && table.entries[j].presence.Unbound? ==> next <= table.entries[j].presence.nextTry
    ensures KeepsWanted(was, table.entries) && NoneMoreEarly(was, table.entries)
    ensures AllDueBy(table.entries, kernel.state, limit)
    ensures AllBehind(table.entries, table.captures, kernel.state, kernel.lacking, at, next)
  {
    forall j, i | 0 <= j < |table.entries| && PointsTo(table.entries[j], kernel.state, i)
      ensures DueBy(table.entries[j], i, limit)
      ensures Behind(table.entries[j], table.captures, j, i, kernel.state, kernel.lacking, at, next)
    {
      assert KeepsEntry(was[j], table.entries[j]) && EntryOk(table.entries[j], j, table.captures, kernel.state);
      assert PointsTo(was[j], kernel.state, i) && DueBy(was[j], i, limit);
      assert RecoveredIfAble(was[j], table.entries[j], table.captures, j, kernel.state, kernel.lacking, at);
      assert QuietStep(was[j], steps[j], kernel.state, at) && Settled(was[j].presence, table.entries[j].presence, steps[j], at);
      PassMovesOn(was[j], table.entries[j], steps[j], table.captures, j, i, kernel.state, kernel.lacking, at, next, limit);
    }
  }

  /**
   Passes for as long as they fall by `limit`. If everything left to retry is due by then, every
   interface whose name resolves is bound where it points, read by all its captures, and has every
   group joined that it has the family for.
   */
  method PassesUntil(life: InterfaceLifecycle, table: InterfaceTable, kernel: Kernel, limit: Instant)
    requires table.Valid(kernel) && kernel.quiet && forall c :: 0 <= c < |table.captures| ==> table.captures[c].resident
    requires life.nextReconcile <= limit && AllDueBy(table.entries, kernel.state, limit)
    modifies life, table, kernel`state
    ensures table.Valid(kernel) && kernel.state == old(kernel.state) && limit < life.nextReconcile <= limit + RECONCILE_TICK
    ensures NoneMoreEarly(old(table.entries), table.entries) && KeepsWanted(old(table.entries), table.entries)
    ensures SameOwners(old(table.captures), table.captures)
    ensures AllDone(table.entries, table.captures, kernel.state, kernel.lacking) && AllWithdrawn(table.entries, kernel.state)
  {
    hide AllWithdrawn, InterfaceTable.Valid, AllDueBy, AllBehind, AllDone, KeepsEntry;
    ghost var at := OnePass(life, table, kernel, limit);
    while life.nextReconcile <= limit
      invariant table.Valid(kernel) && kernel.state == old(kernel.state) && SameOwners(old(table.captures), table.captures)
      invariant 0 <= at <= limit && at < life.nextReconcile <= at + RECONCILE_TICK
      invariant NoneMoreEarly(old(table.entries), table.entries) && KeepsWanted(old(table.entries), table.entries)
      invariant AllDueBy(table.entries, kernel.state, limit) && AllWithdrawn(table.entries, kernel.state)
      invariant AllBehind(table.entries, table.captures, kernel.state, kernel.lacking, at, life.nextReconcile)
      decreases limit + RECONCILE_TICK - life.nextReconcile
    {
      ghost var mid := table.entries;
      at := OnePass(life, table, kernel, limit);
      KeepsWantedOn(old(table.entries), mid, table.entries);
    }
    ThenAllDone(table.entries, table.captures, kernel.state, kernel.lacking, at, life.nextReconcile, limit);
  }

  lemma KeepsWantedOn(a: seq<InterfaceEntry>, b: seq<InterfaceEntry>, c: seq<InterfaceEntry>)
    requires KeepsWanted(a, b) && KeepsWanted(b, c)
    ensures KeepsWanted(a, c)
  {
    forall j | 0 <= j < |a|
      ensures KeepsEntry(a[j], c[j])
    {
      KeepsEntryOn(a[j], b[j], c[j]);
    }
  }

  lemma ThenAllDone(entries: seq<InterfaceEntry>, captures: seq<CaptureEntry>, k: KernelState, lacking: set<(Index, bool)>,
                    at: Instant, next: Instant, limit: Instant)
    requires AllDueBy(entries, k, limit) && AllBehind(entries, captures, k, lacking, at, next) && limit < next <= at + RECONCILE_TICK
    ensures AllDone(entries, captures, k, lacking)
  {
    hide DueBy, Behind, Done;
    forall j, i | 0 <= j < |entries| && PointsTo(entries[j], k, i)
      ensures Done(entries[j], captures, j, i, k, lacking)
    {
      assert DueBy(entries[j], i, limit) && Behind(entries[j], captures, j, i, k, lacking, at, next);
      ThenDone(entries[j], captures, j, i, k, lacking, at, next, limit);
    }
  }

  /**
   From the moment the machine is quiet, within a minute every resolvable interface is done and
   every other one withdrawn.
   */
  method RecoversWithinAMinute(life: InterfaceLifecycle, table: InterfaceTable, kernel: Kernel, since: Instant)
    requires table.Valid(kernel) && kernel.quiet && forall c :: 0 <= c < |table.captures| ==> table.captures[c].resident
    requires life.nextReconcile <= since + RECONCILE_TICK
    requires forall j :: 0 <= j < |table.entries| ==> Timely(table.entries[j], since)
    modifies life, table, kernel`state
    ensures table.Valid(kernel) && kernel.state == old(kernel.state)
    ensures SameOwners(old(table.captures), table.captures) && NoneMoreEarly(old(table.entries), table.entries)
    ensures life.nextReconcile <= since + 60 * SECOND + RECONCILE_TICK
    ensures AllDone(table.entries, table.captures, kernel.state, kernel.lacking) && AllWithdrawn(table.entries, kernel.state)
  {
    hide AllWithdrawn, InterfaceTable.Valid, AllDone;
    TimelyIsDue(table.entries, kernel.state, since);
    PassesUntil(life, table, kernel, since + 60 * SECOND);
  }

  /** Then every group is a membership of the interface its name points to, but for families it lacks. */
  lemma DoneIsReal(entries: seq<InterfaceEntry>, captures: seq<CaptureEntry>, k: KernelState, lacking: set<(Index, bool)>, j: nat, i: Index, l: nat)
    requires TableOk(entries, captures, k) && AllDone(entries, captures, k, lacking) && j < |entries| && PointsTo(entries[j], k, i)
    requires FirstIsIn(captures, j) && !entries[j].early
    requires entries[j].memberships.Some? && l < |entries[j].memberships.value.groups|
    ensures var m := entries[j].memberships.value;
            entries[j].presence == Present(i) &&
            (Held(i, k.live[i], m.groups[l].group) in m.sockets.All() || (i, m.groups[l].group.v6) in lacking)
  {
    assert Done(entries[j], captures, j, i, k, lacking);
    if entries[j].memberships.value.groups[l].state.Joined? {
      JoinedIsReal(entries, captures, k, j, l);
    }
  }

  lemma TimelyIsDue(entries: seq<InterfaceEntry>, k: KernelState, since: Instant)
    requires forall j :: 0 <= j < |entries| ==> Timely(entries[j], since)
    ensures AllDueBy(entries, k, since + 60 * SECOND)
  {
    forall j, i | 0 <= j < |entries| && PointsTo(entries[j], k, i)
      ensures DueBy(entries[j], i, since + 60 * SECOND)
    {
      assert Timely(entries[j], since);
    }
  }
}
