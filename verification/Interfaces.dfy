/**
 The dispatcher's interface table (src/dispatch/interface_table.rs) and its invariant: interfaces
 that come and go, the captures that read them and the groups joined on them, while the kernel may
 destroy and recreate any interface before any system call.
 */
module Interfaces {
  import opened Wrappers
  import opened Clocks
  import opened Kernels
  import opened Multicast
  import opened Ip
  import opened Addresses

  datatype Presence =
    | Present(index: Index)
    | Parked
    | Unbound(index: Index, attempts: nat, nextTry: Instant)

  datatype Step =
    | Kept
    | LookupFailed
    | ParkedNow(left: Option<Index>)
    | Bound(was: Presence, index: Index, gone: bool)
    | BindFailed(was: Presence, index: Index, retryIn: nat, first: bool)

  datatype LinkType = Ethernet | RawIp | DltNull

  /**
   `early` is history: a group was wanted before the interface had a capture, and no bind with a
   capture has started afresh since.
   */
  datatype InterfaceEntry = InterfaceEntry(
    name: Name, presence: Presence, addrs: InterfaceAddresses, mtu: Option<nat>, memberships: Option<Memberships>, early: bool)

  /** `resident` is false while a drain has taken the capture out; its binding stays what it was. */
  datatype CaptureEntry = CaptureEntry(
    resident: bool, binding: Option<Attachment>, link: LinkType, interface: nat,
    recoveries: nat, sentPacket: nat, sent: seq<nat>)

  // ----- The invariant

  ghost predicate CapturesKnown(captures: seq<CaptureEntry>, k: KernelState) {
    forall c :: 0 <= c < |captures| && captures[c].binding.Some? ==>
      Known(k, captures[c].binding.value.index, captures[c].binding.value.generation)
  }

  /** The first of interface `key`'s captures: the earliest opened, and the first to be re-bound. */
  ghost predicate IsFirst(captures: seq<CaptureEntry>, key: nat, c: int) {
    && 0 <= c < |captures| && captures[c].interface == key
    && forall b :: 0 <= b < c ==> captures[b].interface != key
  }

  /** The first capture of interface `key` was bound to an interface no younger than `g`. */
  ghost predicate Vouched(captures: seq<CaptureEntry>, key: nat, g: Generation) {
    exists c :: IsFirst(captures, key, c) && captures[c].binding.Some? && captures[c].binding.value.generation <= g
  }

  lemma {:induction false} SomeFirst(captures: seq<CaptureEntry>, key: nat, n: nat) returns (c: nat)
    requires n < |captures| && captures[n].interface == key
    ensures IsFirst(captures, key, c)
  {
    if b :| 0 <= b < n && captures[b].interface == key {
      c := SomeFirst(captures, key, b);
    } else {
      c := n;
    }
  }

  predicate HasCapture(captures: seq<CaptureEntry>, key: nat) {
    exists c :: 0 <= c < |captures| && captures[c].interface == key
  }

  ghost predicate BoundAt(captures: seq<CaptureEntry>, key: nat, i: Index) {
    forall c :: 0 <= c < |captures| && captures[c].interface == key ==>
      captures[c].binding.Some? && captures[c].binding.value.index == i
  }

  ghost predicate MembershipsOk(m: Memberships, e: InterfaceEntry, key: nat, captures: seq<CaptureEntry>, k: KernelState) {
    && Unrepeated(m)
    && (m.groups != [] ==> HasCapture(captures, key) || e.early)
    && match e.presence
       case Present(i) =>
         && Backed(m, i, k)
         && (e.early || forall h :: h in m.sockets.All() ==> Vouched(captures, key, h.generation))
       case _ => Idle(m)
  }

  ghost predicate EntryOk(e: InterfaceEntry, key: nat, captures: seq<CaptureEntry>, k: KernelState) {
    && e.addrs.Coherent()
    && (e.memberships.Some? ==> MembershipsOk(e.memberships.value, e, key, captures, k))
    && match e.presence
       case Present(i) => BoundAt(captures, key, i)
       case _ => e.addrs == NO_ADDRESSES && e.mtu == None
  }

  ghost predicate OthersOk(entries: seq<InterfaceEntry>, captures: seq<CaptureEntry>, k: KernelState, but: int) {
    forall j :: 0 <= j < |entries| && j != but ==> EntryOk(entries[j], j, captures, k)
  }

  ghost predicate TableOk(entries: seq<InterfaceEntry>, captures: seq<CaptureEntry>, k: KernelState) {
    && Sane(k)
    && CapturesKnown(captures, k)
    && OthersOk(entries, captures, k, -1)
  }

  /** Every resident capture of `key` is attached to the interface now at `i`. */
  predicate Attached(captures: seq<CaptureEntry>, key: nat, i: Index, k: KernelState) {
    forall c :: 0 <= c < |captures| && captures[c].interface == key && captures[c].resident ==>
      AttachedTo(k, captures[c].binding, i)
  }

  /** The resident captures of `key` were all attached at some moment between two. */
  ghost predicate AttachedBetween(k0: KernelState, k1: KernelState, captures: seq<CaptureEntry>, key: nat, i: Index) {
    exists k :: Evolves(k0, k) && Evolves(k, k1) && Attached(captures, key, i, k)
  }

  /** Every group of a present interface was attempted: none is pending, and no retry is due. */
  predicate Tried(e: InterfaceEntry, now: Instant) {
    e.presence.Present? && e.memberships.Some? ==>
      var groups := e.memberships.value.groups;
      forall j :: 0 <= j < |groups| ==> !groups[j].state.Pending? && (groups[j].state.JoinFailed? ==> now < groups[j].state.retryAt)
  }

  /** Every group is met, or failed before and is not yet due. */
  predicate AllMet(was: Option<Memberships>, m: Option<Memberships>, i: Index, lacking: set<(Index, bool)>, now: Instant) {
    was.Some? && m.Some? ==>
      && |was.value.groups| == |m.value.groups|
      && forall j :: 0 <= j < |m.value.groups| ==>
        || Met(m.value.groups[j], i, lacking)
        || (m.value.groups[j] == was.value.groups[j] && Resting(m.value.groups[j], now))
  }

  /** The interface is bound where its name points, read through every capture, its groups met. */
  predicate Recovered(was: InterfaceEntry, e: InterfaceEntry, captures: seq<CaptureEntry>, key: nat, i: Index,
                      k: KernelState, lacking: set<(Index, bool)>, now: Instant) {
    e.presence == Present(i) && Attached(captures, key, i, k) && AllMet(was.memberships, e.memberships, i, lacking, now)
  }

  /** Whatever failed by `at` is due again within the longest delay. */
  predicate Timely(e: InterfaceEntry, at: Instant) {
    && (e.presence.Unbound? ==> e.presence.nextTry <= at + 30 * SECOND)
    && (e.memberships.Some? ==>
          var groups := e.memberships.value.groups;
          forall j :: 0 <= j < |groups| && groups[j].state.JoinFailed? ==> groups[j].state.retryAt <= at + 30 * SECOND)
  }

  /** A failed bind at this index is not yet due its retry. */
  predicate BackingOff(p: Presence, i: Index, now: Instant) {
    p.Unbound? && p.index == i && now < p.nextTry
  }

  /**
   The point of it all: in any state the invariant allows, if the probe holds, the interface's first
   capture is not out for its drain and no group was wanted before it, a group marked joined is a membership of the very
   interface the captures read, whatever was destroyed and recreated at that index before.
   */
  lemma JoinedIsReal(entries: seq<InterfaceEntry>, captures: seq<CaptureEntry>, k: KernelState, key: nat, j: nat)
    requires TableOk(entries, captures, k)
    requires key < |entries| && entries[key].presence.Present? && entries[key].memberships.Some?
    requires j < |entries[key].memberships.value.groups| && entries[key].memberships.value.groups[j].state.Joined?
    requires !entries[key].early && FirstIsIn(captures, key) && Attached(captures, key, entries[key].presence.index, k)
    ensures var i, m := entries[key].presence.index, entries[key].memberships.value;
            i in k.live && Held(i, k.live[i], m.groups[j].group) in m.sockets.All()
  {
    var i, m := entries[key].presence.index, entries[key].memberships.value;
    assert EntryOk(entries[key], key, captures, k);
    var h :| h in m.sockets.All() && h.index == i && h.group == m.groups[j].group;
    assert Vouched(captures, key, h.generation);
    var c :| IsFirst(captures, key, c) && captures[c].binding.Some? && captures[c].binding.value.generation <= h.generation;
    assert AttachedTo(k, captures[c].binding, i);
    assert h == Held(i, k.live[i], m.groups[j].group);
  }

  /** The probe holds, yet a group marked joined is no membership of the interface at the index. */
  ghost predicate Fooled(entries: seq<InterfaceEntry>, captures: seq<CaptureEntry>, k: KernelState, key: nat) {
    && key < |entries| && entries[key].presence.Present? && entries[key].memberships.Some?
    && Attached(captures, key, entries[key].presence.index, k)
    && var i, m := entries[key].presence.index, entries[key].memberships.value;
    exists j :: 0 <= j < |m.groups| && m.groups[j].state.Joined?
                && !(i in k.live && Held(i, k.live[i], m.groups[j].group) in m.sockets.All())
  }

  ghost predicate FirstIsIn(captures: seq<CaptureEntry>, key: nat) {
    forall c :: IsFirst(captures, key, c) ==> captures[c].resident
  }

  /** The same captures of the same interfaces, out or not, whatever they are bound to. */
  ghost predicate SameShape(a: seq<CaptureEntry>, b: seq<CaptureEntry>) {
    |a| == |b| && forall c :: 0 <= c < |a| ==> b[c].interface == a[c].interface && b[c].resident == a[c].resident
  }

  /**
   The conditions are exact: the probe is never fooled about an interface if and only if its first
   capture is not out and no group was wanted before it had one. Module TableRuns reaches such a
   state for every set of captures either way.
   */
  lemma ProbeSufficesExactly(shape: seq<CaptureEntry>, n: nat, key: nat, early: bool)
    requires key < n && forall c :: 0 <= c < |shape| ==> shape[c].interface < n
    ensures FirstIsIn(shape, key) && !early <==>
              forall entries: seq<InterfaceEntry>, captures, k ::
                |entries| == n && entries[key].early == early && SameShape(shape, captures) && TableOk(entries, captures, k) ==>
                  !Fooled(entries, captures, k, key)
  {
    hide TableOk, Fooled;
    if FirstIsIn(shape, key) && !early {
      forall entries: seq<InterfaceEntry>, captures, k |
          |entries| == n && entries[key].early == early && SameShape(shape, captures) && TableOk(entries, captures, k)
        ensures !Fooled(entries, captures, k, key)
      {
        assert forall c :: IsFirst(captures, key, c) ==> IsFirst(shape, key, c);
        NeverFooled(entries, captures, k, key);
      }
    } else if early {
      var entries, captures, k := EarlyJoinBlindsTheProbe(shape, n, key);
    } else {
      var out :| IsFirst(shape, key, out) && !shape[out].resident;
      var entries, captures, k := DrainBlindsTheProbe(shape, n, key, out);
    }
  }

  lemma NeverFooled(entries: seq<InterfaceEntry>, captures: seq<CaptureEntry>, k: KernelState, key: nat)
    requires TableOk(entries, captures, k) && FirstIsIn(captures, key) && key < |entries| && !entries[key].early
    ensures !Fooled(entries, captures, k, key)
  {
    hide TableOk, Attached;
    if Fooled(entries, captures, k, key) {
      var i, m := entries[key].presence.index, entries[key].memberships.value;
      var j :| 0 <= j < |m.groups| && m.groups[j].state.Joined?
               && !(i in k.live && Held(i, k.live[i], m.groups[j].group) in m.sockets.All());
      JoinedIsReal(entries, captures, k, key, j);
    }
  }

  /** Entry `key` joined a group at index 1 on an interface since recreated there; the others are parked. */
  function Outdated(n: nat, key: nat, early: bool): (entries: seq<InterfaceEntry>)
    ensures |entries| == n
  {
    var group := Group(false, 0);
    var m := Memberships(Sockets(Some({Held(1, 0, group)}), None), [Membership(group, Joined)]);
    var present := InterfaceEntry("lan", Present(1), NO_ADDRESSES, None, Some(m), early);
    var parked := InterfaceEntry("", Parked, NO_ADDRESSES, None, None, false);
    seq(n, j => if j == key then present else parked)
  }

  function BoundTo(shape: seq<CaptureEntry>, generation: nat -> nat): (captures: seq<CaptureEntry>)
    ensures |captures| == |shape| && SameShape(shape, captures)
    ensures forall c :: 0 <= c < |captures| ==> captures[c].binding == Some(Attachment(1, generation(c)))
  {
    seq(|shape|, c requires 0 <= c < |shape| => shape[c].(binding := Some(Attachment(1, generation(c)))))
  }

  const RECREATED := KernelState(map["lan" := 1], map[1 := 1], 2)

  lemma OutdatedFools(captures: seq<CaptureEntry>, n: nat, key: nat, early: bool)
    requires key < n && CapturesKnown(captures, RECREATED) && BoundAt(captures, key, 1) && Attached(captures, key, 1, RECREATED)
    requires early || (HasCapture(captures, key) && Vouched(captures, key, 0))
    ensures TableOk(Outdated(n, key, early), captures, RECREATED) && Fooled(Outdated(n, key, early), captures, RECREATED, key)
  {
    var entries := Outdated(n, key, early);
    var m := entries[key].memberships.value;
    assert m.sockets.All() == {Held(1, 0, Group(false, 0))};
    assert Holds(m.sockets.All(), 1, m.groups[0].group);
    assert Backed(m, 1, RECREATED);
    forall j | 0 <= j < n
      ensures EntryOk(entries[j], j, captures, RECREATED)
    {
    }
    assert m.groups[0].state.Joined? && Held(1, 1, m.groups[0].group) !in m.sockets.All();
  }

  /**
   A capture that is out cannot be asked: it stays bound to the interface the group was joined on
   while the later ones are attached to one since recreated at the same index.
   */
  lemma DrainBlindsTheProbe(shape: seq<CaptureEntry>, n: nat, key: nat, out: nat)
      returns (entries: seq<InterfaceEntry>, captures: seq<CaptureEntry>, k: KernelState)
    requires key < n && IsFirst(shape, key, out) && !shape[out].resident
    ensures |entries| == n && !entries[key].early && SameShape(shape, captures) && TableOk(entries, captures, k)
    ensures Fooled(entries, captures, k, key)
  {
    entries, captures, k := Outdated(n, key, false), BoundTo(shape, c => if c == out then 0 else 1), RECREATED;
    assert IsFirst(captures, key, out) && captures[out].binding.value.generation <= 0;
    assert Vouched(captures, key, 0);
    OutdatedFools(captures, n, key, false);
  }

  /** A capture opened after the group was joined vouches for nothing older than itself. */
  lemma EarlyJoinBlindsTheProbe(shape: seq<CaptureEntry>, n: nat, key: nat)
      returns (entries: seq<InterfaceEntry>, captures: seq<CaptureEntry>, k: KernelState)
    requires key < n
    ensures |entries| == n && entries[key].early && SameShape(shape, captures) && TableOk(entries, captures, k)
    ensures Fooled(entries, captures, k, key)
  {
    entries, captures, k := Outdated(n, key, true), BoundTo(shape, _ => 1), RECREATED;
    OutdatedFools(captures, n, key, true);
  }

  /** An interface that is not present holds no socket and no address, and every group waits. */
  lemma AbsentHoldsNothing(entries: seq<InterfaceEntry>, captures: seq<CaptureEntry>, k: KernelState, key: nat)
    requires TableOk(entries, captures, k) && key < |entries| && !entries[key].presence.Present?
    ensures entries[key].addrs == NO_ADDRESSES && entries[key].mtu == None
    ensures entries[key].memberships.Some? ==> Idle(entries[key].memberships.value)
  {
    assert EntryOk(entries[key], key, captures, k);
  }

  // ----- The invariant under the kernel's steps and the table's

  lemma EntryStays(e: InterfaceEntry, key: nat, captures: seq<CaptureEntry>, k: KernelState, k': KernelState)
    requires EntryOk(e, key, captures, k) && Evolves(k, k')
    ensures EntryOk(e, key, captures, k')
  {
    if e.memberships.Some? && e.presence.Present? {
      BackedStays(e.memberships.value, e.presence.index, k, k');
    }
  }

  lemma CapturesStay(captures: seq<CaptureEntry>, k: KernelState, k': KernelState)
    requires CapturesKnown(captures, k) && Evolves(k, k')
    ensures CapturesKnown(captures, k')
  {
    forall c | 0 <= c < |captures| && captures[c].binding.Some?
      ensures Known(k', captures[c].binding.value.index, captures[c].binding.value.generation)
    {
      KnownStays(k, k', captures[c].binding.value.index, captures[c].binding.value.generation);
    }
  }

  lemma OthersStay(entries: seq<InterfaceEntry>, captures: seq<CaptureEntry>, k: KernelState, k': KernelState, but: int)
    requires OthersOk(entries, captures, k, but) && Evolves(k, k')
    ensures OthersOk(entries, captures, k', but)
  {
    forall j | 0 <= j < |entries| && j != but
      ensures EntryOk(entries[j], j, captures, k')
    {
      EntryStays(entries[j], j, captures, k, k');
    }
  }

  lemma TableIsSane(entries: seq<InterfaceEntry>, captures: seq<CaptureEntry>, k: KernelState)
    requires TableOk(entries, captures, k)
    ensures Sane(k) && Evolves(k, k)
    ensures forall e :: KeepsEntry(e, e)
  {
  }

  /** Whatever the kernel does between two of the daemon's calls, the invariant stands. */
  lemma TableStays(entries: seq<InterfaceEntry>, captures: seq<CaptureEntry>, k: KernelState, k': KernelState)
    requires TableOk(entries, captures, k) && Evolves(k, k')
    ensures TableOk(entries, captures, k')
  {
    CapturesStay(captures, k, k');
    OthersStay(entries, captures, k, k', -1);
  }

  /** The captures of every interface but `key` are bound as before. */
  ghost predicate SameBut(a: seq<CaptureEntry>, b: seq<CaptureEntry>, key: int) {
    && |a| == |b|
    && (forall c :: 0 <= c < |a| ==> a[c].interface == b[c].interface)
    && (forall c :: 0 <= c < |a| && a[c].interface != key ==> a[c].binding == b[c].binding)
  }

  lemma EntrySpared(e: InterfaceEntry, j: nat, a: seq<CaptureEntry>, b: seq<CaptureEntry>, key: int, k: KernelState)
    requires EntryOk(e, j, a, k) && SameBut(a, b, key) && j != key
    ensures EntryOk(e, j, b, k)
  {
    if e.memberships.Some? {
      var m := e.memberships.value;
      if HasCapture(a, j) {
        var c :| 0 <= c < |a| && a[c].interface == j;
        assert b[c].interface == j;
      }
      forall h | h in m.sockets.All() && Vouched(a, j, h.generation)
        ensures Vouched(b, j, h.generation)
      {
        var c :| IsFirst(a, j, c) && a[c].binding.Some? && a[c].binding.value.generation <= h.generation;
        assert IsFirst(b, j, c) && b[c].binding == a[c].binding;
      }
    }
  }

  lemma OthersSpared(entries: seq<InterfaceEntry>, a: seq<CaptureEntry>, b: seq<CaptureEntry>, k: KernelState, key: int)
    requires OthersOk(entries, a, k, key) && SameBut(a, b, key)
    ensures OthersOk(entries, b, k, key)
  {
    forall j | 0 <= j < |entries| && j != key
      ensures EntryOk(entries[j], j, b, k)
    {
      EntrySpared(entries[j], j, a, b, key, k);
    }
  }

  /** A new binding of the interface at `i` now is known from now on. */
  lemma BindingIsKnown(k: KernelState, a: Option<Attachment>, i: Index)
    requires Sane(k) && AttachedTo(k, a, i)
    ensures Known(k, a.value.index, a.value.generation)
  {
  }

  /** Memberships gained at `i` after the captures were bound there are vouched for by the first. */
  lemma GainedAreVouched(captures: seq<CaptureEntry>, key: nat, i: Index, a: Socket, b: Socket, k: KernelState)
    requires CapturesKnown(captures, k) && BoundAt(captures, key, i) && HasCapture(captures, key)
    requires Gained(a, b, i, k)
    requires forall h :: h in a ==> Vouched(captures, key, h.generation)
    ensures forall h :: h in b ==> Vouched(captures, key, h.generation)
  {
    var n :| 0 <= n < |captures| && captures[n].interface == key;
    var c := SomeFirst(captures, key, n);
    forall h | h in b && h !in a
      ensures Vouched(captures, key, h.generation)
    {
      assert Known(k, i, captures[c].binding.value.generation) && Since(k, i, h.generation);
      assert captures[c].binding.value.generation <= h.generation;
    }
  }

  lemma PutEntry(entries: seq<InterfaceEntry>, captures: seq<CaptureEntry>, k: KernelState, key: nat, e: InterfaceEntry)
    requires Sane(k) && CapturesKnown(captures, k) && key < |entries|
    requires OthersOk(entries, captures, k, key) && EntryOk(e, key, captures, k)
    ensures TableOk(entries[key := e], captures, k)
  {
  }

  /** Wanted groups, names and the table's own rows are never lost. */
  ghost predicate KeepsWanted(a: seq<InterfaceEntry>, b: seq<InterfaceEntry>) {
    && |a| <= |b|
    && forall j :: 0 <= j < |a| ==> KeepsEntry(a[j], b[j])
  }

  ghost predicate KeepsEntry(a: InterfaceEntry, b: InterfaceEntry) {
    && a.name == b.name
    && (a.memberships.Some? <==> b.memberships.Some?)
    && (a.memberships.Some? ==> KeepsGroups(a.memberships.value, b.memberships.value))
  }

  lemma KeepsEntryOn(a: InterfaceEntry, b: InterfaceEntry, c: InterfaceEntry)
    requires KeepsEntry(a, b) && KeepsEntry(b, c)
    ensures KeepsEntry(a, c)
  {
  }
}
