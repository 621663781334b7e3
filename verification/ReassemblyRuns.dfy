/** What every run of the reassembler promises. */
module ReassemblyRuns {
  import opened Wrappers
  import opened Primitives
  import opened Clocks
  import opened LinearMaps
  import opened Fragments
  import opened Reassembly

  datatype Event =
    | Offered(ingress: nat, fragment: Fragment, wanted: bool, now: Instant)
    | Recycled
    | Drained

  predicate For(e: Event, key: DatagramKey) {
    e.Offered? && KeyOf(e.ingress, e.fragment) == key
  }

  ghost function Step(s: State, e: Event): (r: (State, Option<Whole>))
    requires Inv(s)
    ensures Inv(r.0)
  {
    match e
    case Offered(ingress, f, wanted, now) =>
      OfferInv(s, ingress, f, wanted, now);
      Offer(s, ingress, f, wanted, now)
    case Recycled =>
      if s.tally.loaned == 0 then (s, None)
      else (s.(spare := s.spare + 1, tally := s.tally.(loaned := s.tally.loaned - 1)), None)
    case Drained => (s.(lost := []), None)
  }

  ghost function Run(s: State, events: seq<Event>): (r: State)
    requires Inv(s)
    ensures Inv(r)
    decreases |events|
  {
    if events == [] then s else Run(Step(s, events[0]).0, events[1..])
  }

  lemma {:induction false} RunSnoc(s: State, events: seq<Event>, e: Event)
    requires Inv(s)
    ensures Run(s, events + [e]) == Step(Run(s, events), e).0
    decreases |events|
  {
    if events == [] {
      assert [e][1..] == [];
      assert Run(s, [e]) == Run(Step(s, e).0, []);
      assert events + [e] == [e];
    } else {
      assert (events + [e])[0] == events[0] && (events + [e])[1..] == events[1..] + [e];
      RunSnoc(Step(s, events[0]).0, events[1..], e);
    }
  }

  // ----- Bounds, conservation and expiry

  /** The event opens a slot: a wanted fragment of a key neither discarded nor collecting. */
  predicate Begins(s: State, e: Event) {
    e.Offered? && e.wanted &&
    var x, key := Expire(s, e.now), KeyOf(e.ingress, e.fragment);
    !Has(x.discarding, key) && !Has(x.collecting, key)
  }

  /** The event releases a slot whose datagram turns out to be unwanted. */
  predicate Releases(s: State, e: Event) {
    e.Offered? && !e.wanted &&
    var x, key := Expire(s, e.now), KeyOf(e.ingress, e.fragment);
    !Has(x.discarding, key) && Has(x.collecting, key)
  }

  /** What a run did, as its caller sees it: slots opened and released, datagrams returned, losses drained. */
  datatype History = History(begun: nat, released: nat, returned: nat, drained: seq<Lost>)

  ghost function HistoryOf(s: State, events: seq<Event>): History
    requires Inv(s)
    decreases |events|
  {
    if events == [] then History(0, 0, 0, [])
    else
      var e := events[0];
      var (r, out) := Step(s, e);
      var later := HistoryOf(r, events[1..]);
      History(
        later.begun + (if Begins(s, e) then 1 else 0),
        later.released + (if Releases(s, e) then 1 else 0),
        later.returned + (if out.Some? then 1 else 0),
        (if e.Drained? then s.lost else []) + later.drained)
  }

  /** The tally keeps up: each count grows with its event, and every loss counted is queued. */
  ghost predicate Recorded(s: State, r: State, begun: bool, released: bool, returned: bool) {
    && r.tally.begun == s.tally.begun + (if begun then 1 else 0)
    && r.tally.released == s.tally.released + (if released then 1 else 0)
    && r.tally.completed == s.tally.completed + (if returned then 1 else 0)
    && r.tally.losses + |s.lost| == s.tally.losses + |r.lost|
  }

  lemma {:induction false} ExpireRecords(s: State, now: Instant)
    ensures Recorded(s, ExpireSlots(s, now), false, false, false)
    decreases |s.collecting|
  {
    var i := FirstStale(Starts(s.collecting), now);
    if i < |s.collecting| {
      HasIffKey(s.collecting, s.collecting[i].0);
      ExpireRecords(GiveUp(s, s.collecting[i].0, Expired, now), now);
    }
  }

  lemma TakeRecords(x: State, key: DatagramKey, f: Fragment, wanted: bool, now: Instant)
    requires Inv(x)
    ensures var (r, out) := Take(x, key, f, wanted, now);
            var open := !Has(x.discarding, key);
            Recorded(x, r, open && wanted && !Has(x.collecting, key), open && !wanted && Has(x.collecting, key), out.Some?)
  {
    if !Has(x.discarding, key) && wanted {
      WithSlotHas(x, key, now);
      var w := WithSlot(x, key, now);
      assert Recorded(x, w, !Has(x.collecting, key), false, false);
      FeedRecords(w, key, f, now);
    }
  }

  lemma FeedRecords(w: State, key: DatagramKey, f: Fragment, now: Instant)
    requires Has(w.collecting, key)
    ensures Recorded(w, Feed(w, key, f, now).0, false, false, Feed(w, key, f, now).1.Some?)
  {
  }

  lemma StepRecords(s: State, e: Event)
    requires Inv(s)
    ensures var (r, out) := Step(s, e);
            if e.Drained? then r.tally == s.tally && r.lost == [] && out == None
            else Recorded(s, r, Begins(s, e), Releases(s, e), out.Some?)
  {
    if e.Offered? {
      ExpireInv(s, e.now);
      ExpireRecords(Unstaled(s, e.now), e.now);
      TakeRecords(Expire(s, e.now), KeyOf(e.ingress, e.fragment), e.fragment, e.wanted, e.now);
      hide Take, ExpireSlots;
    }
  }

  lemma {:induction false} RunRecords(s: State, events: seq<Event>)
    requires Inv(s)
    ensures var r, h := Run(s, events), HistoryOf(s, events);
            && r.tally.begun == s.tally.begun + h.begun
            && r.tally.released == s.tally.released + h.released
            && r.tally.completed == s.tally.completed + h.returned
            && r.tally.losses + |s.lost| == s.tally.losses + |r.lost| + |h.drained|
    decreases |events|
  {
    if events != [] {
      StepRecords(s, events[0]);
      RunRecords(Step(s, events[0]).0, events[1..]);
      hide Step, Inv, Begins, Releases;
    }
  }

  /**
   Over every run from the start: the bounds, disjoint keys, and conservation. Every slot opened was
   returned as a datagram, is a loss drained or still queued, was released, or is still open.
   */
  lemma RunBounds(events: seq<Event>)
    ensures var s, h := Run(EMPTY, events), HistoryOf(EMPTY, events);
            && |s.collecting| <= 16 && |s.discarding| <= 64
            && Keys(s.collecting) !! Keys(s.discarding)
            && h.begun == h.returned + |h.drained| + |s.lost| + h.released + |s.collecting|
            && s.tally.buffers == s.spare + |s.collecting| + s.tally.loaned
  {
    var s := Run(EMPTY, events);
    RunRecords(EMPTY, events);
    forall k | k in Keys(s.collecting)
      ensures k !in Keys(s.discarding)
    {
      HasIffKey(s.collecting, k);
      HasIffKey(s.discarding, k);
    }
  }

  ghost predicate Fresh(s: State, now: Instant) {
    && (forall i :: 0 <= i < |s.collecting| ==> !Stale(now, s.collecting[i].1.started))
    && (forall i :: 0 <= i < |s.discarding| ==> !Stale(now, s.discarding[i].1))
  }

  lemma FreshDiscard(s: State, key: DatagramKey, now: Instant)
    requires Fresh(s, now)
    ensures Fresh(Discard(s, key, now), now)
  {
    ShelvedFrom(s.discarding, key, now);
    hide Shelved;
    var d := Shelved(s.discarding, key, now);
    forall i | 0 <= i < |d|
      ensures !Stale(now, d[i].1)
    {
      if d[i] != (key, now) {
        var j :| 0 <= j < |s.discarding| && s.discarding[j] == d[i];
      }
    }
  }

  /** Shelving adds the key and nothing else. */
  lemma ShelvedFrom(d: seq<(DatagramKey, Instant)>, key: DatagramKey, now: Instant)
    ensures forall i :: 0 <= i < |Shelved(d, key, now)| ==> Shelved(d, key, now)[i] == (key, now) || Shelved(d, key, now)[i] in d
  {
    var kept := if |d| >= DISCARDS then Delete(d, d[FirstOldest(Sinces(d))].0) else d;
    assert forall i :: 0 <= i < |kept| ==> kept[i] in d;
  }

  lemma FreshGiveUp(s: State, key: DatagramKey, loss: Loss, now: Instant)
    requires Fresh(s, now)
    ensures Fresh(GiveUp(s, key, loss, now), now)
  {
    hide Shelved;
    FreshClose(s, key, now);
    FreshDiscard(Close(s, key), key, now);
    assert GiveUp(s, key, loss, now).discarding == Discard(Close(s, key), key, now).discarding;
  }

  lemma FreshClose(s: State, key: DatagramKey, now: Instant)
    requires Fresh(s, now)
    ensures Fresh(Close(s, key), now)
  {
  }

  lemma {:induction false} FreshExpireSlots(s: State, now: Instant)
    requires forall i :: 0 <= i < |s.discarding| ==> !Stale(now, s.discarding[i].1)
    ensures Fresh(ExpireSlots(s, now), now)
    decreases |s.collecting|
  {
    var i := FirstStale(Starts(s.collecting), now);
    if i < |s.collecting| {
      var k := s.collecting[i].0;
      HasIffKey(s.collecting, k);
      FreshDiscard(s.(collecting := []), k, now);
      assert GiveUp(s, k, Expired, now).discarding == Discard(s.(collecting := []), k, now).discarding;
      FreshExpireSlots(GiveUp(s, k, Expired, now), now);
    } else {
      assert forall j :: 0 <= j < |s.collecting| ==> Starts(s.collecting)[j] == s.collecting[j].1.started;
    }
  }

  lemma FreshWithSlot(s: State, key: DatagramKey, now: Instant)
    requires Fresh(s, now)
    ensures Fresh(WithSlot(s, key, now), now)
  {
    hide GiveUp, FirstOldest, Starts;
    if !Has(s.collecting, key) {
      if |s.collecting| >= SLOTS {
        FreshGiveUp(s, s.collecting[FirstOldest(Starts(s.collecting))].0, Evicted, now);
      }
      FreshOpen(MakeRoom(s, now), key, now);
    }
  }

  lemma FreshOpen(s: State, key: DatagramKey, now: Instant)
    requires Fresh(s, now)
    ensures Fresh(Open(s, key, now), now)
  {
  }

  lemma FreshFeed(s: State, key: DatagramKey, f: Fragment, now: Instant)
    requires Fresh(s, now) && Has(s.collecting, key)
    ensures Fresh(Feed(s, key, f, now).0, now)
  {
    match Accept(Lookup(s.collecting, key).value.pieces, f)
    case Failure(loss) => FreshGiveUp(s, key, loss, now);
    case Success(_) =>
  }

  lemma FreshRelease(s: State, key: DatagramKey, now: Instant)
    requires Fresh(s, now)
    ensures Fresh(Release(s, key, now), now)
  {
    FreshClose(s, key, now);
    FreshDiscard(Close(s, key), key, now);
  }

  lemma FreshTake(e: State, key: DatagramKey, f: Fragment, wanted: bool, now: Instant)
    requires Distinct(e.collecting) && Fresh(e, now)
    ensures Fresh(Take(e, key, f, wanted, now).0, now)
  {
    if !Has(e.discarding, key) {
      if !wanted {
        FreshRelease(e, key, now);
      } else {
        WithSlotHas(e, key, now);
        FreshWithSlot(e, key, now);
        FreshFeed(WithSlot(e, key, now), key, f, now);
      }
    }
  }

  /** No entry as old as the expiry survives an offer, whatever the clock read before. */
  lemma NothingStaleSurvives(s: State, ingress: nat, f: Fragment, wanted: bool, now: Instant)
    requires Inv(s)
    ensures Fresh(Offer(s, ingress, f, wanted, now).0, now)
  {
    FilterKeepsExactly(s.discarding, (p: (DatagramKey, Instant)) => !Stale(now, p.1));
    FreshExpireSlots(Unstaled(s, now), now);
    ExpireKeepsDistinct(s, now);
    FreshTake(Expire(s, now), KeyOf(ingress, f), f, wanted, now);
  }

  /** Every datagram handed out is handed back before the next offer, as the dispatcher does. */
  ghost predicate Disciplined(s: State, events: seq<Event>)
    requires Inv(s)
    decreases |events|
  {
    events == [] || ((events[0].Offered? ==> s.tally.loaned == 0) && Disciplined(Step(s, events[0]).0, events[1..]))
  }

  lemma {:induction false} ExpireSlotsBuffers(s: State, now: Instant)
    ensures ExpireSlots(s, now).tally.buffers == s.tally.buffers
    ensures ExpireSlots(s, now).tally.loaned == s.tally.loaned
    decreases |s.collecting|
  {
    var i := FirstStale(Starts(s.collecting), now);
    if i < |s.collecting| {
      HasIffKey(s.collecting, s.collecting[i].0);
      ExpireSlotsBuffers(GiveUp(s, s.collecting[i].0, Expired, now), now);
    }
  }

  lemma WithSlotBuffers(s: State, key: DatagramKey, now: Instant)
    requires Inv(s) && s.tally.loaned == 0 && s.tally.buffers <= SLOTS
    ensures WithSlot(s, key, now).tally.buffers <= SLOTS
  {
    if !Has(s.collecting, key) {
      MakeRoomInv(s, now);
      assert MakeRoom(s, now).tally.buffers == s.tally.buffers;
    }
  }

  lemma TakeBuffers(e: State, key: DatagramKey, f: Fragment, wanted: bool, now: Instant)
    requires Inv(e) && e.tally.loaned == 0 && e.tally.buffers <= SLOTS
    ensures Take(e, key, f, wanted, now).0.tally.buffers <= SLOTS
  {
    if !Has(e.discarding, key) && wanted {
      WithSlotHas(e, key, now);
      WithSlotBuffers(e, key, now);
      var w := WithSlot(e, key, now);
      assert Feed(w, key, f, now).0.tally.buffers == w.tally.buffers;
    }
  }

  lemma OfferBuffers(s: State, ingress: nat, f: Fragment, wanted: bool, now: Instant)
    requires Inv(s) && s.tally.loaned == 0 && s.tally.buffers <= SLOTS
    ensures Offer(s, ingress, f, wanted, now).0.tally.buffers <= SLOTS
  {
    ExpireInv(s, now);
    ExpireSlotsBuffers(Unstaled(s, now), now);
    TakeBuffers(Expire(s, now), KeyOf(ingress, f), f, wanted, now);
  }

  lemma {:induction false} AtMostSlotsBuffers(s: State, events: seq<Event>)
    requires Inv(s) && s.tally.buffers <= 16 && Disciplined(s, events)
    ensures Run(s, events).tally.buffers <= 16
    decreases |events|
  {
    if events != [] {
      var e := events[0];
      if e.Offered? {
        OfferBuffers(s, e.ingress, e.fragment, e.wanted, e.now);
      }
      AtMostSlotsBuffers(Step(s, e).0, events[1..]);
    }
  }

  // ----- What a step does to another key

  /** The list is full of others, each shelved no earlier than `at` or just now. */
  predicate Crowded(d: seq<(DatagramKey, Instant)>, at: Instant, now: Instant) {
    |d| == DISCARDS && forall i :: 0 <= i < |d| ==> d[i].1 >= at || d[i].1 == now
  }

  /** `key` stands on the list since `at`, unless as the oldest of 64 it made room for another. */
  predicate Remembers(d: seq<(DatagramKey, Instant)>, key: DatagramKey, at: Option<Instant>, now: Instant) {
    || Lookup(d, key) == at
    || (at.Some? && Lookup(d, key) == None && Crowded(d, at.value, now))
  }

  function StillFresh(at: Option<Instant>, now: Instant): Option<Instant> {
    if at.Some? && !Stale(now, at.value) then at else None
  }

  function LossOf(key: DatagramKey, loss: Loss): Lost {
    Lost(key.ingress, key.source, key.dest, loss)
  }

  /** From `s` to `r` losses are only ever added. */
  predicate Adds(s: State, r: State) {
    s.lost <= r.lost
  }

  /** `key`'s slot is closed for `loss`: shelved now, and the loss among those added. */
  predicate Loses(s: State, r: State, key: DatagramKey, loss: Loss, now: Instant) {
    && Adds(s, r)
    && Lookup(r.collecting, key) == None
    && Remembers(r.discarding, key, Some(now), now)
    && LossOf(key, loss) in r.lost[|s.lost|..]
  }

  /** `key` is left alone: its slot as it was, its place on the list up to being dropped. */
  predicate Leaves(s: State, r: State, key: DatagramKey, at: Option<Instant>, now: Instant) {
    && Adds(s, r)
    && Lookup(r.collecting, key) == Lookup(s.collecting, key)
    && Remembers(r.discarding, key, at, now)
  }

  lemma LeavesThenLoses(s: State, m: State, r: State, key: DatagramKey, at: Option<Instant>, loss: Loss, now: Instant)
    requires Adds(s, m) && Loses(m, r, key, loss, now)
    ensures Loses(s, r, key, loss, now)
  {
    assert r.lost[|s.lost|..] == m.lost[|s.lost|..] + r.lost[|m.lost|..];
  }

  lemma LosesThenLeaves(s: State, m: State, r: State, key: DatagramKey, loss: Loss, now: Instant)
    requires Loses(s, m, key, loss, now) && Leaves(m, r, key, Some(now), now)
    ensures Loses(s, r, key, loss, now)
  {
    assert r.lost[|s.lost|..] == m.lost[|s.lost|..] + r.lost[|m.lost|..];
  }

  lemma ShelvedRemembers(
      d: seq<(DatagramKey, Instant)>, other: DatagramKey, now: Instant, key: DatagramKey, at: Option<Instant>)
    requires Distinct(d) && |d| <= DISCARDS && !Has(d, other)
    requires key != other && Remembers(d, key, at, now)
    ensures Remembers(Shelved(d, other, now), key, at, now)
  {
    var r := Shelved(d, other, now);
    if |d| < DISCARDS {
      PutLookup(d, other, now, key);
    } else {
      var i := FirstOldest(Sinces(d));
      HasIffKey(d, d[i].0);
      DeleteLookup(d, d[i].0, key);
      DeleteLookup(d, d[i].0, other);
      PutLookup(Delete(d, d[i].0), other, now, key);
      if Lookup(r, key) != at {
        ShelvedFrom(d, other, now);
        forall j | 0 <= j < |r|
          ensures r[j].1 >= at.value || r[j].1 == now
        {
          if r[j] != (other, now) {
            var l :| 0 <= l < |d| && d[l] == r[j];
            assert Sinces(d)[i] <= Sinces(d)[l];
          }
        }
      }
    }
  }

  lemma GiveUpOther(s: State, other: DatagramKey, loss: Loss, now: Instant, key: DatagramKey, at: Option<Instant>)
    requires Inv(s) && Has(s.collecting, other) && key != other && Remembers(s.discarding, key, at, now)
    ensures Leaves(s, GiveUp(s, other, loss, now), key, at, now)
  {
    hide Crowded, Shelved;
    DeleteLookup(s.collecting, other, key);
    ShelvedRemembers(s.discarding, other, now, key, at);
    assert GiveUp(s, other, loss, now).discarding == Shelved(s.discarding, other, now);
  }

  /** What is given up is shelved now, and its loss queued. */
  lemma GiveUpOwn(s: State, key: DatagramKey, loss: Loss, now: Instant)
    requires Inv(s) && Has(s.collecting, key)
    ensures var r := GiveUp(s, key, loss, now);
            && Loses(s, r, key, loss, now)
            && Lookup(r.discarding, key) == Some(now) && r.lost == s.lost + [LossOf(key, loss)]
  {
    DeleteLookup(s.collecting, key, key);
    DiscardLookup(s, key, now, key);
    assert GiveUp(s, key, loss, now).discarding == Discard(s, key, now).discarding;
  }

  lemma PositionAt<V>(s: seq<(DatagramKey, V)>, i: nat)
    requires Distinct(s) && i < |s|
    ensures Position(s, s[i].0) == i
  {
  }

  /** What expiry does to `key`, whose place on the list is `at`. */
  predicate Expires(s: State, r: State, key: DatagramKey, at: Option<Instant>, now: Instant) {
    match Lookup(s.collecting, key)
    case None => Leaves(s, r, key, at, now)
    case Some(slot) =>
      if Stale(now, slot.started) then Loses(s, r, key, Expired, now) else Leaves(s, r, key, at, now)
  }

  lemma {:induction false} ExpireSlotsOther(s: State, now: Instant, key: DatagramKey, at: Option<Instant>)
    requires Inv(s) && Remembers(s.discarding, key, at, now)
    ensures Expires(s, ExpireSlots(s, now), key, at, now)
    decreases |s.collecting|
  {
    hide Crowded, GiveUp, Inv;
    var i := FirstStale(Starts(s.collecting), now);
    if i == |s.collecting| {
      if Has(s.collecting, key) {
        assert !Stale(now, Starts(s.collecting)[Position(s.collecting, key)]);
      }
    } else {
      var k := s.collecting[i].0;
      HasIffKey(s.collecting, k);
      GiveUpInv(s, k, Expired, now);
      var g := GiveUp(s, k, Expired, now);
      if k != key {
        GiveUpOther(s, k, Expired, now, key, at);
        ExpireSlotsOther(g, now, key, at);
        ThenExpires(s, g, ExpireSlots(s, now), key, at, now);
      } else {
        GiveUpOwn(s, key, Expired, now);
        ExpireSlotsOther(g, now, key, Some(now));
        CollectingIsDistinct(s);
        PositionAt(s.collecting, i);
        LosesThenLeaves(s, g, ExpireSlots(s, now), key, Expired, now);
      }
    }
  }

  lemma CollectingIsDistinct(s: State)
    requires Inv(s)
    ensures Distinct(s.collecting)
  {
  }

  lemma ThenExpires(s: State, g: State, r: State, key: DatagramKey, at: Option<Instant>, now: Instant)
    requires Leaves(s, g, key, at, now) && Expires(g, r, key, at, now)
    ensures Expires(s, r, key, at, now)
  {
    if Has(s.collecting, key) && Stale(now, Lookup(s.collecting, key).value.started) {
      LeavesThenLoses(s, g, r, key, at, Expired, now);
    }
  }

  /** Expiry takes exactly the slots and the discards that are stale, and shelves and reports the slots. */
  lemma ExpireOther(s: State, now: Instant, key: DatagramKey)
    requires Inv(s)
    ensures Expires(s, Expire(s, now), key, StillFresh(Lookup(s.discarding, key), now), now)
  {
    ExpireInv(s, now);
    FilterLookup(s.discarding, (p: (DatagramKey, Instant)) => !Stale(now, p.1), key);
    ExpireSlotsOther(Unstaled(s, now), now, key, StillFresh(Lookup(s.discarding, key), now));
  }

  /** `other`'s slot is opened while all are taken and `key`'s is the first oldest. */
  predicate Displaces(x: State, other: DatagramKey, key: DatagramKey) {
    && !Has(x.collecting, other) && |x.collecting| >= SLOTS
    && x.collecting[FirstOldest(Starts(x.collecting))].0 == key
  }

  lemma WithSlotOther(s: State, other: DatagramKey, now: Instant, key: DatagramKey, at: Option<Instant>)
    requires Inv(s) && key != other && !Has(s.discarding, other) && Remembers(s.discarding, key, at, now)
    ensures var w := WithSlot(s, other, now);
            if Displaces(s, other, key) then Loses(s, w, key, Evicted, now) else Leaves(s, w, key, at, now)
  {
    hide GiveUp, Crowded, Put, Starts, FirstOldest;
    if !Has(s.collecting, other) {
      MakeRoomInv(s, now);
      var m := MakeRoom(s, now);
      PutLookup(m.collecting, other, Slot([], now), key);
      if |s.collecting| >= SLOTS {
        var k := s.collecting[FirstOldest(Starts(s.collecting))].0;
        HasIffKey(s.collecting, k);
        if k == key {
          GiveUpOwn(s, key, Evicted, now);
        } else {
          GiveUpOther(s, k, Evicted, now, key, at);
        }
      }
    }
  }

  lemma FeedOther(s: State, other: DatagramKey, f: Fragment, now: Instant, key: DatagramKey, at: Option<Instant>)
    requires Inv(s) && key != other && Has(s.collecting, other) && Remembers(s.discarding, key, at, now)
    ensures Leaves(s, Feed(s, other, f, now).0, key, at, now)
  {
    hide GiveUp, Crowded;
    var slot := Lookup(s.collecting, other).value;
    match Accept(slot.pieces, f)
    case Failure(loss) => GiveUpOther(s, other, loss, now, key, at);
    case Success(ps) =>
      DeleteLookup(s.collecting, other, key);
      PutLookup(s.collecting, other, slot.(pieces := ps), key);
  }

  lemma ReleaseOther(s: State, other: DatagramKey, now: Instant, key: DatagramKey, at: Option<Instant>)
    requires Inv(s) && key != other && !Has(s.discarding, other) && Remembers(s.discarding, key, at, now)
    ensures Leaves(s, Release(s, other, now), key, at, now)
  {
    hide Crowded, Shelved;
    DeleteLookup(s.collecting, other, key);
    ShelvedRemembers(s.discarding, other, now, key, at);
    assert Release(s, other, now).discarding == Shelved(s.discarding, other, now);
  }

  /** An offer for another key, once expiry has run. */
  lemma TakeOther(x: State, other: DatagramKey, f: Fragment, wanted: bool, now: Instant, key: DatagramKey, at: Option<Instant>)
    requires Inv(x) && key != other && Remembers(x.discarding, key, at, now)
    ensures var r := Take(x, other, f, wanted, now).0;
            if wanted && !Has(x.discarding, other) && Displaces(x, other, key) then Loses(x, r, key, Evicted, now)
            else Leaves(x, r, key, at, now)
  {
    hide Crowded, Feed, WithSlot, Release, Displaces, Inv;
    CollectingIsDistinct(x);
    if !Has(x.discarding, other) {
      if !wanted {
        ReleaseOther(x, other, now, key, at);
      } else {
        WithSlotInv(x, other, now);
        WithSlotOther(x, other, now, key, at);
        var w := WithSlot(x, other, now);
        if Displaces(x, other, key) {
          FeedOther(w, other, f, now, key, Some(now));
          LosesThenLeaves(x, w, Feed(w, other, f, now).0, key, Evicted, now);
        } else {
          FeedOther(w, other, f, now, key, at);
        }
      }
    }
  }

  /** Some other key's offer evicts `key`'s slot. */
  predicate Evicts(s: State, e: Event, key: DatagramKey) {
    e.Offered? && e.wanted &&
    var x, other := Expire(s, e.now), KeyOf(e.ingress, e.fragment);
    !Has(x.discarding, other) && Displaces(x, other, key)
  }

  /** What an event does to a key it is not for, exactly. */
  predicate Spares(s: State, e: Event, r: State, key: DatagramKey) {
    match e
    case Recycled => r.collecting == s.collecting && r.discarding == s.discarding && r.lost == s.lost
    case Drained => r.collecting == s.collecting && r.discarding == s.discarding
    case Offered(_, _, _, now) =>
      if Has(s.collecting, key) && Stale(now, Lookup(s.collecting, key).value.started) then Loses(s, r, key, Expired, now)
      else if Has(s.collecting, key) && Evicts(s, e, key) then Loses(s, r, key, Evicted, now)
      else Leaves(s, r, key, StillFresh(Lookup(s.discarding, key), now), now)
  }

  lemma DisplacedWasThere(x: State, other: DatagramKey, key: DatagramKey)
    requires Displaces(x, other, key)
    ensures Has(x.collecting, key)
  {
    HasIffKey(x.collecting, key);
  }

  /**
   Another key's offer leaves `key` alone, expires its slot or evicts it, and says exactly when. A
   slot it closes is reported and the key shelved.
   */
  lemma ForeignStep(s: State, e: Event, key: DatagramKey)
    requires Inv(s) && !For(e, key)
    ensures Spares(s, e, Step(s, e).0, key)
  {
    hide Take, Expire, Remembers, Displaces, Inv;
    if e.Offered? {
      var other, x, now := KeyOf(e.ingress, e.fragment), Expire(s, e.now), e.now;
      var at := StillFresh(Lookup(s.discarding, key), now);
      ExpireInv(s, now);
      CollectingIsDistinct(x);
      ExpireOther(s, now, key);
      var r := Take(x, other, e.fragment, e.wanted, now).0;
      assert r == Step(s, e).0;
      if e.wanted && !Has(x.discarding, other) && Displaces(x, other, key) {
        DisplacedWasThere(x, other, key);
      }
      if Has(s.collecting, key) && Stale(now, Lookup(s.collecting, key).value.started) {
        TakeOther(x, other, e.fragment, e.wanted, now, key, Some(now));
        LosesThenLeaves(s, x, r, key, Expired, now);
      } else {
        TakeOther(x, other, e.fragment, e.wanted, now, key, at);
        if Has(s.collecting, key) && Evicts(s, e, key) {
          LeavesThenLoses(s, x, r, key, at, Evicted, now);
        }
      }
    }
  }

  // ----- A finished datagram is its fragments

  /** The fragments the events offer for `key`, in order. */
  function OfferedFor(events: seq<Event>, key: DatagramKey): seq<Fragment> {
    if events == [] then []
    else (if For(events[0], key) then [events[0].fragment] else []) + OfferedFor(events[1..], key)
  }

  lemma {:induction false} OfferedForSnoc(events: seq<Event>, e: Event, key: DatagramKey)
    ensures OfferedFor(events + [e], key) == OfferedFor(events, key) + if For(e, key) then [e.fragment] else []
  {
    if events == [] {
      assert events + [e] == [e];
      assert OfferedFor([e][1..], key) == [];
    } else {
      assert (events + [e])[0] == events[0] && (events + [e])[1..] == events[1..] + [e];
      OfferedForSnoc(events[1..], e, key);
    }
  }

  /** What an offer for `key` does to it, once expiry left `x`. */
  ghost predicate Answers(x: State, key: DatagramKey, f: Fragment, wanted: bool, now: Instant, r: State, out: Option<Whole>) {
    if Has(x.discarding, key) then r == x && !Has(r.collecting, key) && out == None
    else if !wanted then
      !Has(r.collecting, key) && Lookup(r.discarding, key) == Some(now) && r.lost == x.lost && out == None
    else match Accept(PiecesIn(x, key), f)
      case Failure(loss) => Loses(x, r, key, loss, now) && Lookup(r.discarding, key) == Some(now) && out == None
      case Success(qs) =>
        && Adds(x, r) && !Has(r.discarding, key)
        && if Complete(qs) then !Has(r.collecting, key) && out == Some(Assemble(qs))
           else
             && out == None
             && Lookup(r.collecting, key) ==
                Some(Slot(qs, if Has(x.collecting, key) then Lookup(x.collecting, key).value.started else now))
  }

  lemma UnwantedIsShelved(x: State, key: DatagramKey, now: Instant)
    requires Inv(x) && !Has(x.discarding, key)
    ensures var r := Release(x, key, now);
            !Has(r.collecting, key) && Lookup(r.discarding, key) == Some(now) && r.lost == x.lost
  {
    DeleteLookup(x.collecting, key, key);
    DiscardLookup(x, key, now, key);
    assert Release(x, key, now).discarding == Discard(x, key, now).discarding;
  }

  lemma WithSlotAdds(s: State, key: DatagramKey, now: Instant)
    requires Inv(s)
    ensures Adds(s, WithSlot(s, key, now))
  {
  }

  lemma SlotIsNotShelved(s: State, key: DatagramKey)
    requires Inv(s) && Has(s.collecting, key)
    ensures !Has(s.discarding, key)
  {
  }

  lemma FeedOwn(x: State, w: State, key: DatagramKey, f: Fragment, now: Instant)
    requires Inv(w) && Has(w.collecting, key) && !Has(x.discarding, key) && Adds(x, w)
    requires Lookup(w.collecting, key) == if Has(x.collecting, key) then Lookup(x.collecting, key) else Some(Slot([], now))
    ensures Answers(x, key, f, true, now, Feed(w, key, f, now).0, Feed(w, key, f, now).1)
  {
    hide GiveUp, Crowded, Accept, Complete, Assemble, Inv;
    CollectingIsDistinct(w);
    var slot := Lookup(w.collecting, key).value;
    DeleteLookup(w.collecting, key, key);
    assert !Has(w.discarding, key) by { SlotIsNotShelved(w, key); }
    match Accept(slot.pieces, f)
    case Failure(loss) =>
      GiveUpOwn(w, key, loss, now);
      LeavesThenLoses(x, w, GiveUp(w, key, loss, now), key, None, loss, now);
    case Success(ps) =>
      PutLookup(w.collecting, key, slot.(pieces := ps), key);
  }

  /** An own fragment: what the offer does to `key` alone. */
  lemma OwnStep(s: State, e: Event, key: DatagramKey)
    requires Inv(s) && For(e, key)
    ensures Answers(Expire(s, e.now), key, e.fragment, e.wanted, e.now, Step(s, e).0, Step(s, e).1)
  {
    hide Expire, Release, Feed, WithSlot, Crowded, Accept, Complete;
    var x := Expire(s, e.now);
    ExpireInv(s, e.now);
    if !Has(x.discarding, key) {
      if !e.wanted {
        UnwantedIsShelved(x, key, e.now);
      } else {
        WithSlotInv(x, key, e.now);
        WithSlotAdds(x, key, e.now);
        FeedOwn(x, WithSlot(x, key, e.now), key, e.fragment, e.now);
      }
    } else {
      assert !Has(x.collecting, key);
    }
  }

  lemma SlotAfter(s: State, e: Event, key: DatagramKey)
    requires Inv(s) && Has(Step(s, e).0.collecting, key)
    ensures var ps := Lookup(Step(s, e).0.collecting, key).value.pieces;
            if !For(e, key) then Has(s.collecting, key) && ps == Lookup(s.collecting, key).value.pieces
            else ps == [e.fragment] || (Has(s.collecting, key) && ps == Lookup(s.collecting, key).value.pieces + [e.fragment])
  {
    hide Step, Expire, Inv, Complete, Crowded, Remembers, Evicts, Stale;
    if For(e, key) {
      OwnStep(s, e, key);
      ExpireOther(s, e.now, key);
    } else {
      ForeignStep(s, e, key);
    }
  }

  /** An open slot holds exactly the fragments offered for its key since some point of the run. */
  lemma {:induction false} SlotIsItsHistory(events: seq<Event>, key: DatagramKey) returns (a: nat)
    requires Has(Run(EMPTY, events).collecting, key)
    ensures a <= |events|
    ensures Lookup(Run(EMPTY, events).collecting, key).value.pieces == OfferedFor(events[a..], key)
    decreases |events|
  {
    hide Step, Inv, OfferedFor;
    NothingAtFirst(key);
    var n := |events| - 1;
    var front, e := events[..n], events[n];
    assert events == front + [e];
    RunSnoc(EMPTY, front, e);
    SlotAfter(Run(EMPTY, front), e, key);
    var ps := Lookup(Run(EMPTY, events).collecting, key).value.pieces;
    if For(e, key) && ps == [e.fragment] {
      a := n;
    } else {
      a := SlotIsItsHistory(front, key);
    }
    assert events[a..] == front[a..] + [e];
    OfferedForSnoc(front[a..], e, key);
    if a == n {
      NothingOffered(front[a..], key);
    }
  }

  lemma NothingAtFirst(key: DatagramKey)
    ensures !Has(Run(EMPTY, []).collecting, key)
  {
  }

  lemma NothingOffered(events: seq<Event>, key: DatagramKey)
    requires events == []
    ensures OfferedFor(events, key) == []
  {
  }

  /** Fragments of one datagram agree in source, destination and identification. */
  predicate SameDatagram(a: FragmentHeader, b: FragmentHeader) {
    a.source == b.source && a.dest == b.dest && a.id == b.id
  }

  /** Two fragments are kept together exactly when they came in on one interface and are of one datagram. */
  lemma KeptTogetherExactly(i: nat, f: Fragment, j: nat, g: Fragment)
    ensures KeyOf(i, f) == KeyOf(j, g) <==> i == j && SameDatagram(f.header, g.header)
  {
  }

  lemma {:induction false} OfferedForIsOfIt(events: seq<Event>, ingress: nat, f: Fragment, j: nat)
    requires j < |OfferedFor(events, KeyOf(ingress, f))|
    ensures SameDatagram(OfferedFor(events, KeyOf(ingress, f))[j].header, f.header)
    decreases |events|
  {
    var key := KeyOf(ingress, f);
    if For(events[0], key) {
      KeptTogetherExactly(events[0].ingress, events[0].fragment, ingress, f);
      if j > 0 {
        OfferedForIsOfIt(events[1..], ingress, f, j - 1);
      }
    } else {
      OfferedForIsOfIt(events[1..], ingress, f, j);
    }
  }

  /**
   Over every run: a datagram an offer returns is tiled by exactly the fragments the run offered
   for its key since some point, its own last one included. Nothing of any other datagram, and
   nothing a buffer kept, is in it.
   */
  lemma CompletedIsItsFragments(events: seq<Event>, e: Event) returns (a: nat)
    requires e.Offered? && Step(Run(EMPTY, events), e).1.Some?
    ensures a <= |events|
    ensures var ps := OfferedFor(events[a..] + [e], KeyOf(e.ingress, e.fragment));
            var d := Step(Run(EMPTY, events), e).1.value;
            && ps != [] && ps[|ps| - 1] == e.fragment
            && Tiles(ps, d.bytes)
            && (exists j :: 0 <= j < |ps| && ps[j].header == d.first && ps[j].header.offset == 0)
            && (forall j :: 0 <= j < |ps| ==> SameDatagram(ps[j].header, e.fragment.header))
            && UDP_HEADER_SIZE <= |d.bytes| <= MAX_DATAGRAM_LEN
  {
    hide Step, Expire, Accept, Complete, Assemble, OfferedFor, Agree, Tiles;
    var key, s := KeyOf(e.ingress, e.fragment), Run(EMPTY, events);
    OwnStep(s, e, key);
    a := PiecesBefore(events, e.now, key);
    var before := PiecesIn(Expire(s, e.now), key);
    OfferedForSnoc(events[a..], e, key);
    var ps := OfferedFor(events[a..] + [e], key);
    AcceptAppends(before, e.fragment);
    AcceptKeepsAgreement(before, e.fragment);
    AssembledIsTiled(ps);
    forall j | 0 <= j < |ps|
      ensures SameDatagram(ps[j].header, e.fragment.header)
    {
      OfferedForIsOfIt(events[a..] + [e], e.ingress, e.fragment, j);
    }
  }

  function PiecesIn(s: State, key: DatagramKey): seq<Fragment> {
    match Lookup(s.collecting, key) case None => [] case Some(slot) => slot.pieces
  }

  lemma AcceptAppends(ps: seq<Fragment>, f: Fragment)
    ensures Accept(ps, f).Success? ==> Accept(ps, f).value == ps + [f]
  {
  }

  /** What expiry leaves of a key's slot is what was offered for it since some moment. */
  lemma PiecesBefore(events: seq<Event>, now: Instant, key: DatagramKey) returns (a: nat)
    ensures a <= |events|
    ensures var ps := PiecesIn(Expire(Run(EMPTY, events), now), key);
            ps == OfferedFor(events[a..], key) && Agree(ps)
  {
    hide Expire, OfferedFor, Step;
    var s := Run(EMPTY, events);
    var x := Expire(s, now);
    ExpireOther(s, now, key);
    ExpireInv(s, now);
    if Has(x.collecting, key) {
      a := SlotIsItsHistory(events, key);
      LookupInv(x.collecting, key);
    } else {
      a := |events|;
      NothingOffered(events[a..], key);
    }
  }

  // ----- Given up is not collected again

  /** The event closes or refuses `key`: its fragment is unwanted or not accepted, its slot stale or evicted. */
  ghost predicate GivesUp(s: State, e: Event, key: DatagramKey)
    requires Inv(s) && e.Offered?
  {
    var x := Expire(s, e.now);
    if For(e, key) then
      !Has(x.discarding, key) && (!e.wanted || Accept(PiecesIn(x, key), e.fragment).Failure?)
    else
      Has(s.collecting, key) && (Stale(e.now, Lookup(s.collecting, key).value.started) || Evicts(s, e, key))
  }

  lemma GivenUpIsShelved(s: State, e: Event, key: DatagramKey)
    requires Inv(s) && e.Offered? && GivesUp(s, e, key)
    ensures !Has(Step(s, e).0.collecting, key)
    ensures Remembers(Step(s, e).0.discarding, key, Some(e.now), e.now)
    ensures For(e, key) ==> Step(s, e).1 == None
  {
    hide Step, Expire, Inv, Accept, Evicts, Crowded;
    if For(e, key) {
      OwnStep(s, e, key);
    } else {
      ForeignStep(s, e, key);
    }
  }

  /** No offer comes before `since` or two seconds after it, or leaves the list full of keys shelved since. */
  ghost predicate Within(s: State, events: seq<Event>, since: Instant)
    requires Inv(s)
    decreases |events|
  {
    events == [] ||
    var e, r := events[0], Step(s, events[0]).0;
    && (e.Offered? ==> since <= e.now < since + 2 * SECOND && !Crowded(r.discarding, since, since))
    && Within(r, events[1..], since)
  }

  lemma CrowdedShelves(d: seq<(DatagramKey, Instant)>, key: DatagramKey, at: Instant, now: Instant)
    requires Distinct(d) && !Has(d, key) && Crowded(d, at, now)
    ensures Crowded(Shelved(d, key, now), at, now)
  {
    var k := d[FirstOldest(Sinces(d))].0;
    HasIffKey(d, k);
    DeleteLookup(d, k, key);
    PutLookup(Delete(d, k), key, now, key);
    ShelvedFrom(d, key, now);
  }

  lemma CrowdedTakes(x: State, key: DatagramKey, f: Fragment, wanted: bool, now: Instant, at: Instant)
    requires Inv(x) && Crowded(x.discarding, at, now)
    ensures Crowded(Take(x, key, f, wanted, now).0.discarding, at, now)
  {
    hide Crowded, Shelved, Starts, FirstOldest, Accept, Complete, Assemble;
    CollectingIsDistinct(x);
    if !Has(x.discarding, key) {
      if !wanted {
        CrowdedShelves(x.discarding, key, at, now);
      } else {
        WithSlotInv(x, key, now);
        var w := WithSlot(x, key, now);
        if !Has(x.collecting, key) && |x.collecting| >= SLOTS {
          var k := x.collecting[FirstOldest(Starts(x.collecting))].0;
          HasIffKey(x.collecting, k);
          CrowdedShelves(x.discarding, k, at, now);
        }
        assert Crowded(w.discarding, at, now);
        CrowdedShelves(w.discarding, key, at, now);
      }
    }
  }

  lemma ShelvedStaysShelved(s: State, e: Event, key: DatagramKey, since: Instant)
    requires Inv(s) && Lookup(s.discarding, key) == Some(since)
    requires e.Offered? ==> since <= e.now < since + 2 * SECOND && !Crowded(Step(s, e).0.discarding, since, since)
    ensures Lookup(Step(s, e).0.discarding, key) == Some(since)
    ensures For(e, key) ==> Step(s, e).1 == None
  {
    hide Step, Expire, Inv, Accept, Evicts;
    ShelvedHasNoSlot(s, key);
    if For(e, key) {
      OwnStep(s, e, key);
      ExpireOther(s, e.now, key);
      ExpireInv(s, e.now);
      if Crowded(Expire(s, e.now).discarding, since, e.now) {
        CrowdedTakes(Expire(s, e.now), key, e.fragment, e.wanted, e.now, since);
        StepTakes(s, e);
      }
    } else {
      ForeignStep(s, e, key);
    }
  }

  lemma StepTakes(s: State, e: Event)
    requires Inv(s) && e.Offered? && Inv(Expire(s, e.now))
    ensures Step(s, e) == Take(Expire(s, e.now), KeyOf(e.ingress, e.fragment), e.fragment, e.wanted, e.now)
  {
  }

  lemma ShelvedHasNoSlot(s: State, key: DatagramKey)
    requires Inv(s) && Has(s.discarding, key)
    ensures !Has(s.collecting, key)
  {
  }

  /** While a shelved key is remembered, none of its fragments opens a slot or returns a datagram. */
  lemma {:induction false} ShelvedIsDropped(s: State, events: seq<Event>, key: DatagramKey, since: Instant)
    requires Inv(s) && Lookup(s.discarding, key) == Some(since) && Within(s, events, since)
    ensures Lookup(Run(s, events).discarding, key) == Some(since) && !Has(Run(s, events).collecting, key)
    ensures forall i :: 0 <= i < |OutputsFor(s, events, key)| ==> OutputsFor(s, events, key)[i] == None
    decreases |events|
  {
    hide Step, Inv, Crowded, Lookup;
    if events == [] {
      ShelvedHasNoSlot(s, key) by { ShelvedIsThere(s, key, since); }
    } else {
      ShelvedStaysShelved(s, events[0], key, since);
      ShelvedIsDropped(Step(s, events[0]).0, events[1..], key, since);
    }
  }

  lemma ShelvedIsThere(s: State, key: DatagramKey, since: Instant)
    requires Lookup(s.discarding, key) == Some(since)
    ensures Has(s.discarding, key)
  {
  }

  /**
   Over every run: a datagram given up, for whatever reason, is not collected again. For two
   seconds, or until as the oldest of 64 it is forgotten, its fragments open no slot and return
   nothing, whatever else is offered in between.
   */
  lemma GivenUpIsNotCollectedAgain(s: State, e: Event, rest: seq<Event>, key: DatagramKey)
    requires Inv(s) && e.Offered? && GivesUp(s, e, key)
    requires Within(s, [e] + rest, e.now)
    ensures !Has(Run(s, [e] + rest).collecting, key)
    ensures var outs := OutputsFor(s, [e] + rest, key);
            forall i :: 0 <= i < |outs| ==> outs[i] == None
  {
    hide Step, Inv, GivesUp;
    assert ([e] + rest)[1..] == rest;
    GivenUpIsShelved(s, e, key);
    ShelvedIsDropped(Step(s, e).0, rest, key, e.now);
    OutputsAfter(s, e, rest, key);
    RunAfter(s, e, rest);
  }

  lemma RunAfter(s: State, e: Event, rest: seq<Event>)
    requires Inv(s)
    ensures Run(s, [e] + rest) == Run(Step(s, e).0, rest)
  {
    assert ([e] + rest)[1..] == rest;
  }

  /** Two seconds on the key is free: the same offer that was dropped opens a slot. */
  lemma ForgottenAfterExpiry(s: State, e: Event, key: DatagramKey, since: Instant)
    requires Inv(s) && Lookup(s.discarding, key) == Some(since) && For(e, key) && e.wanted
    requires Accept([], e.fragment).Success? && !Complete([e.fragment])
    ensures e.now < since + 2 * SECOND ==> Step(s, e).0 == Expire(s, e.now) || Crowded(Expire(s, e.now).discarding, since, e.now)
    ensures e.now >= since + 2 * SECOND ==> Lookup(Step(s, e).0.collecting, key) == Some(Slot([e.fragment], e.now))
  {
    hide Step, Expire, Inv, Complete, Crowded;
    ShelvedHasNoSlot(s, key);
    OwnStep(s, e, key);
    ExpireOther(s, e.now, key);
    assert [] + [e.fragment] == [e.fragment];
  }

  // ----- Any order, any interleaving

  /** What the offers for `key` return, in order. */
  ghost function OutputsFor(s: State, events: seq<Event>, key: DatagramKey): seq<Option<Whole>>
    requires Inv(s)
    decreases |events|
  {
    if events == [] then []
    else
      var (r, out) := Step(s, events[0]);
      (if For(events[0], key) then [out] else []) + OutputsFor(r, events[1..], key)
  }

  /** While `key` holds a slot, no event finds it stale or evicts it; its own are all wanted. */
  ghost predicate Undisturbed(s: State, events: seq<Event>, key: DatagramKey)
    requires Inv(s)
    decreases |events|
  {
    events == [] ||
    (&& (For(events[0], key) ==> events[0].wanted)
     && (events[0].Offered? && Has(s.collecting, key) ==>
           && !Stale(events[0].now, Lookup(s.collecting, key).value.started)
           && (!For(events[0], key) ==> !Evicts(s, events[0], key)))
     && Undisturbed(Step(s, events[0]).0, events[1..], key))
  }

  /** `key`'s first `n` pieces are in: no trace of it before any, else a slot holding just those. */
  ghost predicate Progress(s: State, key: DatagramKey, ps: seq<Fragment>, n: nat)
    requires n <= |ps|
  {
    && !Has(s.discarding, key)
    && if n == 0 then !Has(s.collecting, key)
       else Has(s.collecting, key) && Lookup(s.collecting, key).value.pieces == ps[..n]
  }

  lemma ExpiredStaysApart(s: State, now: Instant, key: DatagramKey)
    requires Inv(s)
    ensures Inv(Expire(s, now)) && (Has(Expire(s, now).collecting, key) ==> !Has(Expire(s, now).discarding, key))
  {
    ExpireInv(s, now);
  }

  lemma NextPiece(s: State, e: Event, key: DatagramKey, ps: seq<Fragment>, d: seq<Byte>, n: nat)
    requires Inv(s) && Cut(ps, d) && n < |ps| && Progress(s, key, ps, n)
    requires For(e, key) && e.wanted && e.fragment == ps[n]
    requires n > 0 ==> !Stale(e.now, Lookup(s.collecting, key).value.started)
    ensures var (r, out) := Step(s, e);
            if n + 1 < |ps| then out == None && Progress(r, key, ps, n + 1)
            else out.Some? && out.value.bytes == d
  {
    hide Step, Inv, Expire, Cut, Accept, Complete, Assemble;
    OwnStep(s, e, key);
    ExpireOther(s, e.now, key);
    ExpiredStaysApart(s, e.now, key);
    NextPieceIsAccepted(ps, d, n);
    assert ps[..0] == [];
    if n + 1 < |ps| {
      IncompleteBeforeTheLast(ps, d, n + 1);
      SlotIsNotShelved(Step(s, e).0, key);
    } else {
      assert ps[..n + 1] == ps;
      CompleteOnTheLast(ps, d);
    }
  }

  /** `k` results, of which only the last is a datagram: `d`. */
  predicate OnlyTheLastIs(outs: seq<Option<Whole>>, k: nat, d: seq<Byte>) {
    && |outs| == k > 0
    && (forall i :: 0 <= i < k - 1 ==> outs[i] == None)
    && outs[k - 1].Some? && outs[k - 1].value.bytes == d
  }

  lemma OutputsAfter(s: State, e: Event, rest: seq<Event>, key: DatagramKey)
    requires Inv(s)
    ensures OutputsFor(s, [e] + rest, key) ==
            (if For(e, key) then [Step(s, e).1] else []) + OutputsFor(Step(s, e).0, rest, key)
    ensures OfferedFor([e] + rest, key) == (if For(e, key) then [e.fragment] else []) + OfferedFor(rest, key)
  {
    assert ([e] + rest)[1..] == rest;
  }

  /**
   Any arrangement of any cut of a datagram, interleaved with any events of other keys, recycles
   and drains: undisturbed, every piece but the last returns nothing and the last returns the
   datagram.
   */
  lemma {:induction false} AnyOrderCompletes(
      s: State, events: seq<Event>, key: DatagramKey, ps: seq<Fragment>, d: seq<Byte>, n: nat)
    requires Inv(s) && Cut(ps, d) && n < |ps| && Progress(s, key, ps, n)
    requires OfferedFor(events, key) == ps[n..]
    requires Undisturbed(s, events, key)
    ensures OnlyTheLastIs(OutputsFor(s, events, key), |ps| - n, d)
    decreases |events|, 1
  {
    assert events != [];
    var e, rest := events[0], events[1..];
    assert events == [e] + rest;
    OutputsAfter(s, e, rest, key);
    if For(e, key) {
      assert e.fragment == ps[n..][0];
      assert OfferedFor(rest, key) == ps[n..][1..] == ps[n + 1..];
      CompletesFromOwn(s, e, rest, key, ps, d, n);
    } else {
      ForeignKeepsProgress(s, e, key, ps, n);
      AnyOrderCompletes(Step(s, e).0, rest, key, ps, d, n);
    }
  }

  lemma {:induction false} CompletesFromOwn(
      s: State, e: Event, rest: seq<Event>, key: DatagramKey, ps: seq<Fragment>, d: seq<Byte>, n: nat)
    requires Inv(s) && Cut(ps, d) && n < |ps| && Progress(s, key, ps, n)
    requires For(e, key) && e.wanted && e.fragment == ps[n]
    requires n > 0 ==> !Stale(e.now, Lookup(s.collecting, key).value.started)
    requires OfferedFor(rest, key) == ps[n + 1..]
    requires Undisturbed(Step(s, e).0, rest, key)
    ensures OnlyTheLastIs([Step(s, e).1] + OutputsFor(Step(s, e).0, rest, key), |ps| - n, d)
    decreases |rest| + 1, 0
  {
    hide Step, Inv, Cut, Progress, Stale;
    NextPiece(s, e, key, ps, d, n);
    if n + 1 < |ps| {
      AnyOrderCompletes(Step(s, e).0, rest, key, ps, d, n + 1);
    } else {
      NoMoreOutputs(Step(s, e).0, rest, key);
    }
  }

  lemma ForeignKeepsProgress(s: State, e: Event, key: DatagramKey, ps: seq<Fragment>, n: nat)
    requires Inv(s) && n < |ps| && Progress(s, key, ps, n) && !For(e, key)
    requires e.Offered? && Has(s.collecting, key) ==>
               !Stale(e.now, Lookup(s.collecting, key).value.started) && !Evicts(s, e, key)
    ensures Progress(Step(s, e).0, key, ps, n)
  {
    ForeignStep(s, e, key);
  }

  lemma {:induction false} NoMoreOutputs(s: State, events: seq<Event>, key: DatagramKey)
    requires Inv(s) && OfferedFor(events, key) == []
    ensures OutputsFor(s, events, key) == []
    decreases |events|
  {
    if events != [] {
      NoMoreOutputs(Step(s, events[0]).0, events[1..], key);
    }
  }
}
