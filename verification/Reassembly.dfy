/**
 The reassembler of src/dispatch/reassembly.rs as a machine over lists of accepted fragments: the
 reference the classes of module Reassemblers are proved against, and what its runs promise.
 */
module Reassembly {
  import opened Wrappers
  import opened Clocks
  import opened LinearMaps
  import opened Fragments

  const SLOTS: nat := 16
  const DISCARDS: nat := 64
  const EXPIRY: nat := 2_000_000_000

  datatype DatagramKey = DatagramKey(ingress: nat, source: nat, dest: nat, id: nat)

  datatype Lost = Lost(ingress: nat, source: nat, dest: nat, loss: Loss)

  datatype Slot = Slot(pieces: seq<Fragment>, started: Instant)

  /** History: slots opened and how each was closed, buffers allocated and on loan. */
  datatype Tally = Tally(begun: nat, completed: nat, losses: nat, released: nat, buffers: nat, loaned: nat)

  datatype State = State(
    collecting: seq<(DatagramKey, Slot)>,
    discarding: seq<(DatagramKey, Instant)>,
    spare: nat,
    lost: seq<Lost>,
    tally: Tally)

  const EMPTY := State([], [], 0, [], Tally(0, 0, 0, 0, 0, 0))

  function KeyOf(ingress: nat, f: Fragment): DatagramKey {
    DatagramKey(ingress, f.header.source, f.header.dest, f.header.id)
  }

  /** Instant::duration_since saturates at zero. */
  function Elapsed(now: Instant, since: Instant): nat {
    if since <= now then now - since else 0
  }

  predicate Stale(now: Instant, since: Instant) {
    Elapsed(now, since) >= EXPIRY
  }

  /** Iterator::min_by_key: of equal minima the first. */
  function FirstOldest(times: seq<Instant>): (i: nat)
    requires times != []
    ensures i < |times|
    ensures forall j :: 0 <= j < |times| ==> times[i] <= times[j]
    ensures forall j :: 0 <= j < i ==> times[i] < times[j]
  {
    var n := |times| - 1;
    if n == 0 then 0
    else
      var i := FirstOldest(times[..n]);
      assert forall j :: 0 <= j < n ==> times[..n][j] == times[j];
      if times[n] < times[i] then n else i
  }

  function Starts(collecting: seq<(DatagramKey, Slot)>): (times: seq<Instant>)
    ensures |times| == |collecting|
    ensures forall i :: 0 <= i < |times| ==> times[i] == collecting[i].1.started
  {
    seq(|collecting|, i requires 0 <= i < |collecting| => collecting[i].1.started)
  }

  function Sinces(discarding: seq<(DatagramKey, Instant)>): (times: seq<Instant>)
    ensures |times| == |discarding|
    ensures forall i :: 0 <= i < |times| ==> times[i] == discarding[i].1
  {
    seq(|discarding|, i requires 0 <= i < |discarding| => discarding[i].1)
  }

  /** The first index no longer fresh at `now`, or the length. */
  function FirstStale(times: seq<Instant>, now: Instant): (i: nat)
    ensures i <= |times|
    ensures i < |times| ==> Stale(now, times[i])
    ensures forall j :: 0 <= j < i ==> !Stale(now, times[j])
  {
    if times == [] then 0
    else if Stale(now, times[0]) then 0
    else
      var i := FirstStale(times[1..], now);
      assert forall j :: 0 < j < i + 1 ==> times[j] == times[1..][j - 1];
      i + 1
  }

  // ----- The operations

  function Shelved(d: seq<(DatagramKey, Instant)>, key: DatagramKey, now: Instant): seq<(DatagramKey, Instant)> {
    var kept := if |d| >= DISCARDS then Delete(d, d[FirstOldest(Sinces(d))].0) else d;
    Put(kept, key, now)
  }

  function Discard(s: State, key: DatagramKey, now: Instant): State {
    s.(discarding := Shelved(s.discarding, key, now))
  }

  /** Close `key`'s slot, if it has one, and keep its buffer. */
  function Close(s: State, key: DatagramKey): State {
    if Has(s.collecting, key) then s.(collecting := Delete(s.collecting, key), spare := s.spare + 1) else s
  }

  function GiveUp(s: State, key: DatagramKey, loss: Loss, now: Instant): (r: State)
    ensures Has(s.collecting, key) ==> |r.collecting| == |s.collecting| - 1
  {
    var closed := Close(s, key);
    if Has(s.collecting, key) then
      Discard(closed.(lost := s.lost + [Lost(key.ingress, key.source, key.dest, loss)],
                      tally := s.tally.(losses := s.tally.losses + 1)), key, now)
    else Discard(closed, key, now)
  }

  function ExpireSlots(s: State, now: Instant): State
    decreases |s.collecting|
  {
    var i := FirstStale(Starts(s.collecting), now);
    if i == |s.collecting| then s
    else
      assert Has(s.collecting, s.collecting[i].0) by { HasIffKey(s.collecting, s.collecting[i].0); }
      ExpireSlots(GiveUp(s, s.collecting[i].0, Expired, now), now)
  }

  function Expire(s: State, now: Instant): State {
    ExpireSlots(s.(discarding := Filter(s.discarding, (p: (DatagramKey, Instant)) => !Stale(now, p.1))), now)
  }

  function MakeRoom(s: State, now: Instant): State {
    if |s.collecting| >= SLOTS
    then GiveUp(s, s.collecting[FirstOldest(Starts(s.collecting))].0, Evicted, now)
    else s
  }

  function Open(s: State, key: DatagramKey, now: Instant): State {
    var t := s.tally.(begun := s.tally.begun + 1);
    var c := Put(s.collecting, key, Slot([], now));
    if s.spare > 0 then s.(collecting := c, spare := s.spare - 1, tally := t)
    else s.(collecting := c, tally := t.(buffers := t.buffers + 1))
  }

  function Release(s: State, key: DatagramKey, now: Instant): State {
    var t := if Has(s.collecting, key) then s.tally.(released := s.tally.released + 1) else s.tally;
    Discard(Close(s, key).(tally := t), key, now)
  }

  /** The slot `key`'s fragment goes to, opened if need be. */
  function WithSlot(s: State, key: DatagramKey, now: Instant): State {
    if Has(s.collecting, key) then s else Open(MakeRoom(s, now), key, now)
  }

  /** `key`'s slot takes `f`: given up, still incomplete, or complete and gone. */
  ghost function Feed(s: State, key: DatagramKey, f: Fragment, now: Instant): (State, Option<Whole>)
    requires Has(s.collecting, key)
  {
    var slot := Lookup(s.collecting, key).value;
    match Accept(slot.pieces, f)
    case Failure(loss) => (GiveUp(s, key, loss, now), None)
    case Success(ps) =>
      if Complete(ps) then
        (s.(collecting := Delete(s.collecting, key),
            tally := s.tally.(completed := s.tally.completed + 1, loaned := s.tally.loaned + 1)),
         Some(Assemble(ps)))
      else (s.(collecting := Put(s.collecting, key, slot.(pieces := ps))), None)
  }

  lemma WithSlotHas(s: State, key: DatagramKey, now: Instant)
    requires Distinct(s.collecting)
    ensures Has(WithSlot(s, key, now).collecting, key)
  {
    if !Has(s.collecting, key) {
      var m := MakeRoom(s, now);
      if |s.collecting| >= SLOTS {
        DeleteLookup(s.collecting, s.collecting[FirstOldest(Starts(s.collecting))].0, key);
      }
      PutLookup(m.collecting, key, Slot([], now), key);
    }
  }

  /** An offer once expiry has run. */
  ghost function Take(e: State, key: DatagramKey, f: Fragment, wanted: bool, now: Instant): (State, Option<Whole>)
    requires Distinct(e.collecting)
  {
    if Has(e.discarding, key) then (e, None)
    else if !wanted then (Release(e, key, now), None)
    else
      WithSlotHas(e, key, now);
      Feed(WithSlot(e, key, now), key, f, now)
  }

  ghost function Offer(s: State, ingress: nat, f: Fragment, wanted: bool, now: Instant): (State, Option<Whole>)
    requires Distinct(s.collecting)
  {
    ExpireKeepsDistinct(s, now);
    Take(Expire(s, now), KeyOf(ingress, f), f, wanted, now)
  }

  lemma {:induction false} ExpireSlotsKeepsDistinct(s: State, now: Instant)
    requires Distinct(s.collecting)
    ensures Distinct(ExpireSlots(s, now).collecting)
    decreases |s.collecting|
  {
    var i := FirstStale(Starts(s.collecting), now);
    if i < |s.collecting| {
      var k := s.collecting[i].0;
      HasIffKey(s.collecting, k);
      DeleteLookup(s.collecting, k, k);
      ExpireSlotsKeepsDistinct(GiveUp(s, k, Expired, now), now);
    }
  }

  lemma ExpireKeepsDistinct(s: State, now: Instant)
    requires Distinct(s.collecting)
    ensures Distinct(Expire(s, now).collecting)
  {
    ExpireSlotsKeepsDistinct(s.(discarding := Filter(s.discarding, (p: (DatagramKey, Instant)) => !Stale(now, p.1))), now);
  }

  // ----- The invariant of every run

  ghost predicate Disjoint(s: State) {
    forall k: DatagramKey :: Has(s.collecting, k) ==> !Has(s.discarding, k)
  }

  /** Every slot was closed in exactly one way or is open; every buffer is in one place. */
  predicate Conserved(s: State) {
    && s.tally.begun == s.tally.completed + s.tally.losses + s.tally.released + |s.collecting|
    && s.tally.buffers == s.spare + |s.collecting| + s.tally.loaned
  }

  ghost predicate SlotInv(key: DatagramKey, slot: Slot) {
    && Agree(slot.pieces)
    && forall j :: 0 <= j < |slot.pieces| ==> KeyOf(key.ingress, slot.pieces[j]) == key
  }

  ghost predicate SlotsInv(collecting: seq<(DatagramKey, Slot)>) {
    && Distinct(collecting)
    && forall i :: 0 <= i < |collecting| ==> SlotInv(collecting[i].0, collecting[i].1)
  }

  ghost predicate Inv(s: State) {
    && SlotsInv(s.collecting)
    && Distinct(s.discarding)
    && Disjoint(s)
    && |s.collecting| <= SLOTS
    && |s.discarding| <= DISCARDS
    && Conserved(s)
  }

  lemma DiscardLookup(s: State, key: DatagramKey, now: Instant, x: DatagramKey)
    requires Distinct(s.discarding) && |s.discarding| <= DISCARDS
    ensures var d := Discard(s, key, now).discarding;
            && Distinct(d) && |d| <= DISCARDS
            && Lookup(d, key) == Some(now)
            && (x != key ==> Lookup(d, x) == Lookup(s.discarding, x) || Lookup(d, x) == None)
  {
    if |s.discarding| >= DISCARDS {
      var oldest := s.discarding[FirstOldest(Sinces(s.discarding))].0;
      HasIffKey(s.discarding, oldest);
      DeleteLookup(s.discarding, oldest, x);
      PutLookup(Delete(s.discarding, oldest), key, now, key);
      PutLookup(Delete(s.discarding, oldest), key, now, x);
    } else {
      PutLookup(s.discarding, key, now, key);
      PutLookup(s.discarding, key, now, x);
    }
  }

  lemma SlotsInvDelete(c: seq<(DatagramKey, Slot)>, key: DatagramKey)
    requires SlotsInv(c)
    ensures SlotsInv(Delete(c, key))
  {
    DeleteLookup(c, key, key);
  }

  lemma SlotsInvPut(c: seq<(DatagramKey, Slot)>, key: DatagramKey, slot: Slot)
    requires SlotsInv(c) && SlotInv(key, slot)
    ensures SlotsInv(Put(c, key, slot))
  {
    PutLookup(c, key, slot, key);
  }

  lemma LookupInv(c: seq<(DatagramKey, Slot)>, key: DatagramKey)
    requires SlotsInv(c) && Has(c, key)
    ensures SlotInv(key, Lookup(c, key).value)
  {
  }

  lemma ShelvedStaysDisjoint(s: State, key: DatagramKey, now: Instant, k: DatagramKey)
    requires Inv(s)
    ensures Has(Delete(s.collecting, key), k) ==> !Has(Discard(s, key, now).discarding, k)
  {
    DeleteLookup(s.collecting, key, k);
    DiscardLookup(s, key, now, k);
    assert Has(s.collecting, k) ==> !Has(s.discarding, k);
  }

  /** A slot closed on the way to the discard list leaves the two key sets disjoint. */
  lemma ShelveInv(s: State, key: DatagramKey, now: Instant, t: Tally)
    requires Inv(s)
    requires Conserved(Close(s, key).(tally := t))
    ensures Inv(Discard(Close(s, key).(tally := t), key, now))
  {
    var r := Discard(Close(s, key).(tally := t), key, now);
    assert r.collecting == Delete(s.collecting, key) && r.discarding == Discard(s, key, now).discarding;
    SlotsInvDelete(s.collecting, key);
    DeleteLookup(s.collecting, key, key);
    DiscardLookup(s, key, now, key);
    forall k: DatagramKey
      ensures Has(r.collecting, k) ==> !Has(r.discarding, k)
    {
      ShelvedStaysDisjoint(s, key, now, k);
    }
  }

  lemma GiveUpInv(s: State, key: DatagramKey, loss: Loss, now: Instant)
    requires Inv(s) && Has(s.collecting, key)
    ensures Inv(GiveUp(s, key, loss, now))
  {
    DeleteLookup(s.collecting, key, key);
    ShelveInv(s, key, now, s.tally.(losses := s.tally.losses + 1));
    var a := Discard(Close(s, key).(tally := s.tally.(losses := s.tally.losses + 1)), key, now);
    var r := GiveUp(s, key, loss, now);
    assert r == a.(lost := r.lost);
    assert Disjoint(r) by {
      forall k: DatagramKey | Has(r.collecting, k) ensures !Has(r.discarding, k) {
        assert Has(a.collecting, k);
      }
    }
  }

  lemma ReleaseInv(s: State, key: DatagramKey, now: Instant)
    requires Inv(s)
    ensures Inv(Release(s, key, now))
  {
    DeleteLookup(s.collecting, key, key);
    ShelveInv(s, key, now, if Has(s.collecting, key) then s.tally.(released := s.tally.released + 1) else s.tally);
  }

  lemma {:induction false} ExpireSlotsInv(s: State, now: Instant)
    requires Inv(s)
    ensures Inv(ExpireSlots(s, now))
    decreases |s.collecting|
  {
    var i := FirstStale(Starts(s.collecting), now);
    if i < |s.collecting| {
      var k := s.collecting[i].0;
      HasIffKey(s.collecting, k);
      GiveUpInv(s, k, Expired, now);
      ExpireSlotsInv(GiveUp(s, k, Expired, now), now);
    }
  }

  function Unstaled(s: State, now: Instant): State {
    s.(discarding := Filter(s.discarding, (p: (DatagramKey, Instant)) => !Stale(now, p.1)))
  }

  lemma ExpireInv(s: State, now: Instant)
    requires Inv(s)
    ensures Inv(Unstaled(s, now)) && Inv(Expire(s, now))
  {
    var u := Unstaled(s, now);
    var keep := (p: (DatagramKey, Instant)) => !Stale(now, p.1);
    FilterLookup(s.discarding, keep, DatagramKey(0, 0, 0, 0));
    forall k: DatagramKey | Has(u.collecting, k)
      ensures !Has(u.discarding, k)
    {
      FilterLookup(s.discarding, keep, k);
    }
    ExpireSlotsInv(u, now);
  }

  lemma MakeRoomInv(s: State, now: Instant)
    requires Inv(s)
    ensures Inv(MakeRoom(s, now)) && |MakeRoom(s, now).collecting| < SLOTS
  {
    if |s.collecting| >= SLOTS {
      var k := s.collecting[FirstOldest(Starts(s.collecting))].0;
      HasIffKey(s.collecting, k);
      GiveUpInv(s, k, Evicted, now);
    }
  }

  lemma OpenInv(s: State, key: DatagramKey, now: Instant)
    requires Inv(s) && |s.collecting| < SLOTS && !Has(s.collecting, key) && !Has(s.discarding, key)
    ensures Inv(Open(s, key, now))
    ensures Lookup(Open(s, key, now).collecting, key) == Some(Slot([], now))
  {
    var r := Open(s, key, now);
    SlotsInvPut(s.collecting, key, Slot([], now));
    PutLookup(s.collecting, key, Slot([], now), key);
    forall k: DatagramKey | Has(r.collecting, k)
      ensures !Has(r.discarding, k)
    {
      PutLookup(s.collecting, key, Slot([], now), k);
    }
  }

  /** Making room for `key` never touches `key`. */
  lemma MakeRoomSpares(s: State, key: DatagramKey, now: Instant)
    requires Inv(s) && !Has(s.collecting, key) && !Has(s.discarding, key)
    ensures var m := MakeRoom(s, now); !Has(m.collecting, key) && !Has(m.discarding, key)
  {
    if |s.collecting| >= SLOTS {
      var k := s.collecting[FirstOldest(Starts(s.collecting))].0;
      HasIffKey(s.collecting, k);
      DeleteLookup(s.collecting, k, key);
      DiscardLookup(s, k, now, key);
      assert GiveUp(s, k, Evicted, now).discarding == Discard(s, k, now).discarding;
    }
  }

  lemma WithSlotInv(s: State, key: DatagramKey, now: Instant)
    requires Inv(s) && !Has(s.discarding, key)
    ensures var w := WithSlot(s, key, now);
            && Inv(w) && !Has(w.discarding, key)
            && Lookup(w.collecting, key) == if Has(s.collecting, key) then Lookup(s.collecting, key) else Some(Slot([], now))
  {
    if !Has(s.collecting, key) {
      MakeRoomInv(s, now);
      MakeRoomSpares(s, key, now);
      OpenInv(MakeRoom(s, now), key, now);
    }
  }

  lemma FeedInv(s: State, key: DatagramKey, f: Fragment, now: Instant)
    requires Inv(s) && Has(s.collecting, key) && KeyOf(key.ingress, f) == key
    ensures Inv(Feed(s, key, f, now).0)
  {
    var slot := Lookup(s.collecting, key).value;
    LookupInv(s.collecting, key);
    var r := Feed(s, key, f, now).0;
    match Accept(slot.pieces, f)
    case Failure(loss) =>
      GiveUpInv(s, key, loss, now);
    case Success(ps) =>
      AcceptKeepsAgreement(slot.pieces, f);
      DeleteLookup(s.collecting, key, key);
      SlotsInvDelete(s.collecting, key);
      SlotsInvPut(s.collecting, key, slot.(pieces := ps));
      PutLookup(s.collecting, key, slot.(pieces := ps), key);
      forall k: DatagramKey | Has(r.collecting, k)
        ensures !Has(r.discarding, k)
      {
        DeleteLookup(s.collecting, key, k);
        PutLookup(s.collecting, key, slot.(pieces := ps), k);
        assert Has(s.collecting, k);
      }
  }

  lemma TakeInv(e: State, key: DatagramKey, f: Fragment, wanted: bool, now: Instant)
    requires Inv(e) && KeyOf(key.ingress, f) == key
    ensures Inv(Take(e, key, f, wanted, now).0)
  {
    if !Has(e.discarding, key) {
      if !wanted {
        ReleaseInv(e, key, now);
      } else {
        WithSlotInv(e, key, now);
        FeedInv(WithSlot(e, key, now), key, f, now);
      }
    }
  }

  lemma OfferInv(s: State, ingress: nat, f: Fragment, wanted: bool, now: Instant)
    requires Inv(s)
    ensures Inv(Offer(s, ingress, f, wanted, now).0)
  {
    ExpireInv(s, now);
    TakeInv(Expire(s, now), KeyOf(ingress, f), f, wanted, now);
  }
}
