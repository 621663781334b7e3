/**
 Runs of the dispatcher's parts together: passes, joins, drains, new captures and the rest of the
 machine interleave with packets and their sends in any order. Over every run the table's invariant
 stands and no datagram goes out whole twice on one egress for one packet.
 */
module DispatchRuns {
  import opened Wrappers
  import opened Primitives
  import opened Clocks
  import opened Ip
  import opened Addresses
  import opened Kernels
  import opened Multicast
  import opened Interfaces
  import opened InterfaceTables
  import opened Lifecycles
  import opened Datagrams
  import opened Egresses
  import opened RecoveryRuns

  /** One thing the daemon or the machine does; a key that names nothing does nothing. */
  datatype Op =
    | Elsewhere
    | Add(name: Name) | Open(key: nat) | Join(capture: nat, group: Group, required: bool)
    | Pass | Converge(key: nat) | Refresh(key: nat) | Wake(index: Index)
    | TakeOut(capture: nat) | PutBack(capture: nat)
    | Begin | End
    | Send(egress: nat, mac: Mac, datagram: Datagram)
    | FanOut(egress: nat, peers: seq<IpAddr>, datagram: Datagram)

  /** Groups are wanted behind a capture, so no interface ever has one wanted before. */
  predicate NoneEarly(entries: seq<InterfaceEntry>) {
    forall j :: 0 <= j < |entries| ==> !entries[j].early
  }

  /** Whatever failed so far, and the next pass, is due within the longest delay. */
  predicate AllTimely(entries: seq<InterfaceEntry>, at: Instant) {
    forall j :: 0 <= j < |entries| ==> Timely(entries[j], at)
  }

  predicate Sends(op: Op) { op.Begin? || op.End? || op.Send? || op.FanOut? }

  lemma RecordsKept(a: seq<CaptureEntry>, b: seq<CaptureEntry>, log: seq<Attempt>, packet: nat, routing: bool)
    ensures SameOwners(a, b) ==> KeepsRecords(a, b)
    ensures KeepsRecords(a, a)
    ensures Remembers(a, log, packet, routing) && KeepsRecords(a, b) ==> Remembers(b, log, packet, routing)
  {
    if Remembers(a, log, packet, routing) && KeepsRecords(a, b) {
      StillRemembers(a, b, log, packet, routing);
    }
  }

  method AllIn(table: InterfaceTable) returns (r: bool)
    ensures r <==> forall c :: 0 <= c < |table.captures| ==> table.captures[c].resident
  {
    r := forall c :: 0 <= c < |table.captures| ==> table.captures[c].resident;
  }

  /** What does not send leaves the record of what was sent alone. A drain never steps the table. */
  method Tend(kernel: Kernel, table: InterfaceTable, life: InterfaceLifecycle, op: Op, now: Instant)
    requires table.Valid(kernel) && !Sends(op)
    modifies kernel`state, table, life
    ensures table.Valid(kernel) && Evolves(old(kernel.state), kernel.state)
    ensures KeepsRecords(old(table.captures), table.captures)
    ensures old(NoneEarly(table.entries)) ==> NoneEarly(table.entries)
    ensures old(AllTimely(table.entries, now)) ==> AllTimely(table.entries, now)
    ensures old(life.nextReconcile) <= now + RECONCILE_TICK ==> life.nextReconcile <= now + RECONCILE_TICK
  {
    hide KeepsRecords, SameOwners, Remembers, Evolves, TableOk;
    RecordsKept(table.captures, table.captures, [], 0, false);
    TableIsSane(table.entries, table.captures, kernel.state);
    ghost var captures, k := table.captures, kernel.state;
    match op
    case Elsewhere =>
      kernel.Interfere();
      TableStays(table.entries, table.captures, k, kernel.state);
    case Add(name) =>
      var _ := table.FindOrAdd(kernel, name);
    case Join(capture, group, required) =>
      var _ := table.JoinGroup(kernel, capture, group, required, now);
    case Open(key) =>
      OpenOn(kernel, table, key);
    case Pass =>
      var all := AllIn(table);
      if all {
        var _ := PassNow(kernel, table, life, now);
        RecordsKept(captures, table.captures, [], 0, false);
      }
    case Converge(key) =>
      if key < |table.entries| {
        var _ := table.ConvergeOn(kernel, key, now);
      }
    case Refresh(key) =>
      if key < |table.entries| {
        var _ := table.Refresh(kernel, key);
      }
    case Wake(index) =>
      var _ := table.WakeUnbound(kernel, index, now);
    case TakeOut(capture) =>
      Place(kernel, table, capture, false);
    case PutBack(capture) =>
      Place(kernel, table, capture, true);
    case _ =>
  }

  method PassNow(kernel: Kernel, table: InterfaceTable, life: InterfaceLifecycle, now: Instant) returns (rebuilt: seq<Rebuilt>)
    requires table.Valid(kernel) && forall c :: 0 <= c < |table.captures| ==> table.captures[c].resident
    modifies kernel`state, table, life
    ensures table.Valid(kernel) && Evolves(old(kernel.state), kernel.state) && SameOwners(old(table.captures), table.captures)
    ensures old(NoneEarly(table.entries)) ==> NoneEarly(table.entries)
    ensures old(AllTimely(table.entries, now)) ==> AllTimely(table.entries, now)
    ensures life.nextReconcile <= now + RECONCILE_TICK
  {
    ghost var whom, steps, dead, found;
    rebuilt, whom, steps, dead, found := life.Reconcile(table, kernel, now);
  }

  method OpenOn(kernel: Kernel, table: InterfaceTable, key: nat)
    requires table.Valid(kernel)
    modifies kernel`state, table`captures
    ensures table.Valid(kernel) && Evolves(old(kernel.state), kernel.state)
    ensures KeepsRecords(old(table.captures), table.captures)
  {
    hide TableOk, Evolves;
    TableIsSane(table.entries, table.captures, kernel.state);
    if key < |table.entries| {
      var c := table.OpenCapture(kernel, key);
      assert c.Some? ==> table.captures == old(table.captures) + [table.captures[|old(table.captures)|]];
    }
  }

  method Place(kernel: Kernel, table: InterfaceTable, capture: nat, resident: bool)
    requires table.Valid(kernel)
    modifies table`captures
    ensures table.Valid(kernel) && KeepsRecords(old(table.captures), table.captures)
  {
    if capture < |table.captures| {
      table.SetResident(kernel, capture, resident);
    }
  }

  method Route(ghost kernel: Kernel, table: InterfaceTable, egress: Egress, op: Op)
    requires table.Valid(kernel) && egress.Valid(table) && Sends(op)
    modifies table`captures, egress
    ensures table.Valid(kernel) && egress.Valid(table) && old(egress.log) <= egress.log
  {
    hide InterfaceTable.Valid, Egress.Valid, Became, Meets, AttemptsAll, PlanFor, SomeServed, NoneServed, NoneWhole, Egress.Settled;
    match op
    case Begin =>
      egress.BeginPacket(table);
    case End =>
      egress.EndPacket(table);
    case Send(to, mac, datagram) =>
      ghost var log, packet, routing := egress.log, egress.packet, egress.routing;
      var r;
      ghost var fate;
      r, fate := egress.SendUdp(table, kernel, to, mac, datagram);
      BecameLonger(log, egress.log, fate, packet, routing, to, egress.hash(mac, datagram));
    case FanOut(to, peers, datagram) =>
      var _ := egress.SendUdpToPeers(table, kernel, to, peers, datagram);
    case _ =>
  }

  lemma BecameLonger(a: seq<Attempt>, b: seq<Attempt>, fate: Fate, packet: nat, routing: bool, egress: nat, digest: nat)
    requires Became(a, b, fate, packet, routing, egress, digest)
    ensures a <= b
  {
  }

  /** The times never go back, and start from `since`. */
  predicate Ordered(since: Instant, ops: seq<(Op, Instant)>) {
    && (forall i :: 0 <= i < |ops| ==> since <= ops[i].1)
    && (forall i, j :: 0 <= i < j < |ops| ==> ops[i].1 <= ops[j].1)
  }

  function LastTime(since: Instant, ops: seq<(Op, Instant)>): Instant {
    if ops == [] then since else ops[|ops| - 1].1
  }

  predicate OnTime(entries: seq<InterfaceEntry>, next: Instant, at: Instant) {
    AllTimely(entries, at) && next <= at + RECONCILE_TICK
  }

  lemma OnTimeLater(entries: seq<InterfaceEntry>, next: Instant, at: Instant, later: Instant)
    requires OnTime(entries, next, at) && at <= later
    ensures OnTime(entries, next, later)
  {
  }

  /** Any operations in any order. Deadlines are kept wherever the clock does not go back. */
  method Run(kernel: Kernel, table: InterfaceTable, life: InterfaceLifecycle, egress: Egress, ghost since: Instant, ops: seq<(Op, Instant)>)
    requires table.Valid(kernel) && egress.Valid(table) && NoneEarly(table.entries)
    modifies kernel`state, table, life, egress
    ensures table.Valid(kernel) && egress.Valid(table) && NoneEarly(table.entries) && Evolves(old(kernel.state), kernel.state)
    ensures old(egress.log) <= egress.log && OnceEach(egress.log)
    ensures Ordered(since, ops) && old(OnTime(table.entries, life.nextReconcile, since)) ==>
              OnTime(table.entries, life.nextReconcile, LastTime(since, ops))
  {
    hide TableOk, Evolves, Remembers, KeepsRecords, OnceEach, AllTimely;
    TableIsSane(table.entries, table.captures, kernel.state);
    ghost var timely := Ordered(since, ops) && OnTime(table.entries, life.nextReconcile, since);
    for n := 0 to |ops|
      invariant table.Valid(kernel) && egress.Valid(table) && NoneEarly(table.entries) && Evolves(old(kernel.state), kernel.state)
      invariant old(egress.log) <= egress.log
      invariant timely ==> OnTime(table.entries, life.nextReconcile, LastTime(since, ops[..n]))
    {
      ghost var k, captures := kernel.state, table.captures;
      if timely {
        OnTimeLater(table.entries, life.nextReconcile, LastTime(since, ops[..n]), ops[n].1);
      }
      assert LastTime(since, ops[..n + 1]) == ops[n].1;
      if Sends(ops[n].0) {
        Route(kernel, table, egress, ops[n].0);
      } else {
        Tend(kernel, table, life, ops[n].0, ops[n].1);
        EvolvesOn(old(kernel.state), k, kernel.state);
        RecordsKept(captures, table.captures, egress.log, egress.packet, egress.routing);
      }
    }
    assert ops[..|ops|] == ops;
    OnceEachAtLast(table.captures, egress.log, egress.packet, egress.routing);
  }

  lemma OnceEachAtLast(captures: seq<CaptureEntry>, log: seq<Attempt>, packet: nat, routing: bool)
    requires Remembers(captures, log, packet, routing)
    ensures OnceEach(log)
  {
  }

  /** From the daemon's start, on any machine: nothing is assumed of the table or of what was sent. */
  method RunFromStart(state: KernelState, quiet: bool, lacking: set<(Index, bool)>, surveys: map<Index, Survey>, os: Os, joinGroups: bool,
                      hash: (Mac, Datagram) -> nat, seed: nat, since: Instant, ops: seq<(Op, Instant)>)
      returns (kernel: Kernel, table: InterfaceTable, life: InterfaceLifecycle, egress: Egress)
    requires Sane(state)
    ensures fresh(kernel) && fresh(table) && fresh(life) && fresh(egress)
    ensures table.Valid(kernel) && NoneEarly(table.entries) && Evolves(state, kernel.state) && kernel.lacking == lacking
    ensures egress.Valid(table) && egress.hash == hash && OnceEach(egress.log)
    ensures forall key: nat :: key < |table.entries| && FirstIsIn(table.captures, key) ==>
              !Fooled(table.entries, table.captures, kernel.state, key)
    ensures Ordered(since, ops) ==> OnTime(table.entries, life.nextReconcile, LastTime(since, ops))
  {
    kernel := new Kernel(state, quiet, lacking, surveys);
    table := new InterfaceTable(kernel, os, joinGroups);
    life := new InterfaceLifecycle(since);
    egress := new Egress(hash, table, seed);
    Run(kernel, table, life, egress, since, ops);
    forall key: nat | key < |table.entries| && FirstIsIn(table.captures, key)
      ensures !Fooled(table.entries, table.captures, kernel.state, key)
    {
      NeverFooled(table.entries, table.captures, kernel.state, key);
    }
  }

  /**
   Whatever happened before, and whatever failed: once the machine is quiet and the drains are over,
   within a minute every interface whose name resolves is bound where it points, and every group is
   a membership of that very interface unless the interface lacks its family; every interface whose
   name resolves to nothing is parked and holds nothing.
   */
  method RecoversAfterAnyRun(state: KernelState, lacking: set<(Index, bool)>, surveys: map<Index, Survey>, os: Os, joinGroups: bool,
                             hash: (Mac, Datagram) -> nat, seed: nat, since: Instant, ops: seq<(Op, Instant)>)
      returns (kernel: Kernel, table: InterfaceTable, life: InterfaceLifecycle, ghost quietState: KernelState)
    requires Sane(state) && Ordered(since, ops)
    ensures fresh(kernel) && fresh(table) && fresh(life)
    ensures table.Valid(kernel) && Evolves(state, quietState) && kernel.state == quietState
    ensures life.nextReconcile <= LastTime(since, ops) + 60 * SECOND + RECONCILE_TICK
    ensures AllDone(table.entries, table.captures, kernel.state, lacking) && AllWithdrawn(table.entries, kernel.state)
    ensures forall j: nat, i, l: nat ::
              j < |table.entries| && PointsTo(table.entries[j], kernel.state, i)
              && table.entries[j].memberships.Some? && l < |table.entries[j].memberships.value.groups| ==>
                var m := table.entries[j].memberships.value;
                Held(i, kernel.state.live[i], m.groups[l].group) in m.sockets.All() || (i, m.groups[l].group.v6) in lacking
  {
    var egress;
    kernel, table, life, egress := RunFromStart(state, false, lacking, surveys, os, joinGroups, hash, seed, since, ops);
    kernel.quiet, quietState := true, kernel.state;
    EndDrains(kernel, table);
    RecoversWithinAMinute(life, table, kernel, LastTime(since, ops));
    forall j: nat, i, l: nat |
        j < |table.entries| && PointsTo(table.entries[j], kernel.state, i)
        && table.entries[j].memberships.Some? && l < |table.entries[j].memberships.value.groups|
      ensures var m := table.entries[j].memberships.value;
              Held(i, kernel.state.live[i], m.groups[l].group) in m.sockets.All() || (i, m.groups[l].group.v6) in lacking
    {
      DoneIsReal(table.entries, table.captures, kernel.state, lacking, j, i, l);
    }
  }

  method EndDrains(kernel: Kernel, table: InterfaceTable)
    requires table.Valid(kernel)
    modifies table`captures
    ensures table.Valid(kernel) && forall c :: 0 <= c < |table.captures| ==> table.captures[c].resident
  {
    for c := 0 to |table.captures|
      invariant table.Valid(kernel) && |table.captures| == |old(table.captures)|
      invariant forall b :: 0 <= b < c ==> table.captures[b].resident
    {
      table.SetResident(kernel, c, true);
    }
  }
}
