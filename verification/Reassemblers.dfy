/**
 The reassembler itself: slots over reused buffers on the heap, proved step for step against the
 machine of module Reassembly. Buffers move between slots, the spare list and the caller, and are
 never shared.
 */
module Reassemblers {
  import opened Wrappers
  import opened Clocks
  import opened LinearMaps
  import opened Fragments
  import opened Slots
  import opened Reassembly
  import opened ReassemblyRuns

  type Entries = seq<(DatagramKey, Collecting)>

  // ----- Ownership: no two of the slots' and the spare buffers share an array

  ghost predicate Separate(a: Buffer, b: Buffer) {
    && a.bytes != b.bytes && a.received != b.received
    && a.bytes as object != b.received as object && a.received as object != b.bytes as object
  }

  ghost predicate Apart(es: Entries, spare: seq<Buffer>) {
    && (forall i, j :: 0 <= i < j < |es| ==> Separate(es[i].1.buf, es[j].1.buf))
    && (forall i, j :: 0 <= i < j < |spare| ==> Separate(spare[i], spare[j]))
    && (forall i, j :: 0 <= i < |es| && 0 <= j < |spare| ==> Separate(es[i].1.buf, spare[j]))
  }

  ghost predicate OwnsBuffer(repr: set<object>, b: Buffer) {
    b.Sized() && b.bytes in repr && b.received in repr
  }

  ghost predicate Owns(repr: set<object>, es: Entries, spare: seq<Buffer>) {
    && (forall i :: 0 <= i < |spare| ==> OwnsBuffer(repr, spare[i]))
    && (forall i :: 0 <= i < |es| ==> es[i].1 in repr && OwnsBuffer(repr, es[i].1.buf))
  }

  lemma AfterClose(repr: set<object>, es: Entries, spare: seq<Buffer>, i: nat)
    requires Apart(es, spare) && Owns(repr, es, spare) && i < |es|
    ensures Apart(SwapRemove(es, i), spare + [es[i].1.buf])
    ensures Owns(repr, SwapRemove(es, i), spare + [es[i].1.buf])
  {
    var r, q := SwapRemove(es, i), spare + [es[i].1.buf];
    forall k, j | 0 <= k < |r| && 0 <= j < |q|
      ensures Separate(r[k].1.buf, q[j])
    {
      var o := if k == i then |es| - 1 else k;
      assert r[k] == es[o] && o != i;
      if j == |spare| {
        assert o < i ==> Separate(es[o].1.buf, es[i].1.buf);
        assert i < o ==> Separate(es[i].1.buf, es[o].1.buf);
      } else {
        assert Separate(es[o].1.buf, spare[j]);
      }
    }
  }

  lemma SeparateFromAll(es: Entries, spare: seq<Buffer>, buf: Buffer)
    requires Apart(es, spare + [buf])
    ensures forall i :: 0 <= i < |es| ==> es[i].1.buf.received != buf.received
    ensures forall i :: 0 <= i < |es| ==> es[i].1.buf.bytes as object != buf.received as object
    ensures forall i :: 0 <= i < |es| ==> es[i].1 as object != buf.received as object
  {
    forall i | 0 <= i < |es|
      ensures es[i].1.buf.received != buf.received && es[i].1.buf.bytes as object != buf.received as object
    {
      assert Separate(es[i].1.buf, (spare + [buf])[|spare|]);
      assert (spare + [buf])[|spare|] == buf;
    }
  }

  lemma AfterOpen(repr: set<object>, es: Entries, spare: seq<Buffer>, key: DatagramKey, slot: Collecting)
    requires Apart(es, spare + [slot.buf]) && Owns(repr, es, spare) && OwnsBuffer(repr, slot.buf)
    ensures Apart(es + [(key, slot)], spare)
    ensures Owns(repr + {slot}, es + [(key, slot)], spare)
  {
    var all := spare + [slot.buf];
    assert all[|spare|] == slot.buf && forall j :: 0 <= j < |spare| ==> all[j] == spare[j];
    forall j | 0 <= j < |spare|
      ensures Separate(slot.buf, spare[j])
    {
      assert Separate(all[j], all[|spare|]);
    }
    forall i | 0 <= i < |es|
      ensures Separate(es[i].1.buf, slot.buf)
    {
      assert Separate(es[i].1.buf, all[|spare|]);
    }
    forall i, j | 0 <= i < |es| && 0 <= j < |spare|
      ensures Separate(es[i].1.buf, spare[j])
    {
      assert Separate(es[i].1.buf, all[j]);
    }
    forall i, j | 0 <= i < j < |spare|
      ensures Separate(spare[i], spare[j])
    {
      assert Separate(all[i], all[j]);
    }
  }

  lemma OthersSeparate(es: Entries, spare: seq<Buffer>, i: nat)
    requires Apart(es, spare) && i < |es|
    ensures forall j :: 0 <= j < |es| && j != i ==> Separate(es[j].1.buf, es[i].1.buf) && es[j].1 != es[i].1
  {
    forall j | 0 <= j < |es| && j != i
      ensures Separate(es[j].1.buf, es[i].1.buf)
    {
      assert j < i ==> Separate(es[j].1.buf, es[i].1.buf);
      assert i < j ==> Separate(es[i].1.buf, es[j].1.buf);
    }
  }

  lemma AfterHandOut(repr: set<object>, es: Entries, spare: seq<Buffer>, i: nat)
    requires Apart(es, spare) && Owns(repr, es, spare) && i < |es|
    ensures Apart(SwapRemove(es, i), spare)
    ensures Owns(repr - {es[i].1, es[i].1.buf.bytes, es[i].1.buf.received}, SwapRemove(es, i), spare)
  {
    AfterClose(repr, es, spare, i);
    OthersSeparate(es, spare, i);
    var r, all := SwapRemove(es, i), spare + [es[i].1.buf];
    assert forall j :: 0 <= j < |spare| ==> all[j] == spare[j];
    forall j | 0 <= j < |r|
      ensures r[j].1 != es[i].1 && Separate(r[j].1.buf, es[i].1.buf)
    {
      assert r[j] == es[if j == i then |es| - 1 else j];
    }
    forall j | 0 <= j < |spare|
      ensures Separate(es[i].1.buf, spare[j])
    {
    }
    assert forall k, j :: 0 <= k < |r| && 0 <= j < |spare| ==> Separate(r[k].1.buf, all[j]);
  }

  lemma ForeignIsSeparate(repr: set<object>, es: Entries, spare: seq<Buffer>, buf: Buffer)
    requires Apart(es, spare) && Owns(repr, es, spare)
    requires buf.Sized() && buf.bytes !in repr && buf.received !in repr
    ensures Apart(es, spare + [buf])
    ensures Owns(repr + {buf.bytes, buf.received}, es, spare + [buf])
  {
    var all := spare + [buf];
    forall i | 0 <= i < |es|
      ensures Separate(es[i].1.buf, buf)
    {
      OwnedAt(repr, es, spare, i);
    }
    forall j | 0 <= j < |spare|
      ensures Separate(spare[j], buf)
    {
      assert OwnsBuffer(repr, spare[j]);
    }
  }

  lemma SameKeysSamePosition<V, W>(a: seq<(DatagramKey, V)>, b: seq<(DatagramKey, W)>, k: DatagramKey)
    requires |a| == |b| && forall i :: 0 <= i < |a| ==> a[i].0 == b[i].0
    ensures Position(a, k) == Position(b, k)
  {
  }

  lemma UpdateThenDelete(s: seq<(DatagramKey, Slot)>, key: DatagramKey, slot: Slot)
    requires Has(s, key) && Distinct(s)
    ensures Distinct(s[Position(s, key) := (key, slot)])
    ensures Delete(s[Position(s, key) := (key, slot)], key) == Delete(s, key)
  {
    var i := Position(s, key);
    var p := s[i := (key, slot)];
    assert forall j :: 0 <= j < |s| ==> p[j].0 == s[j].0;
    SameKeysSamePosition(p, s, key);
    assert SwapRemove(p, i) == SwapRemove(s, i);
  }

  lemma OwnedAt(repr: set<object>, es: Entries, spare: seq<Buffer>, i: nat)
    requires Owns(repr, es, spare) && i < |es|
    ensures es[i].1 in repr && OwnsBuffer(repr, es[i].1.buf)
  {
  }

  // ----- Slots on the heap and the abstract slots

  /** The abstract slots these stand for, if every one of them is sound. */
  ghost function Contents(es: Entries): Option<seq<(DatagramKey, Slot)>>
    reads set i | 0 <= i < |es| :: es[i].1
    reads set i | 0 <= i < |es| :: es[i].1.buf.bytes
    reads set i | 0 <= i < |es| :: es[i].1.buf.received
  {
    if es == [] then Some([])
    else
      var n := |es| - 1;
      var front := Contents(es[..n]);
      if front.Some? && es[n].1.Valid()
      then Some(front.value + [(es[n].0, Slot(es[n].1.pieces, es[n].1.started))])
      else None
  }

  lemma {:induction false} ContentsAt(es: Entries, i: nat)
    requires Contents(es).Some? && i < |es|
    ensures |Contents(es).value| == |es|
    ensures es[i].1.Valid() && Contents(es).value[i] == (es[i].0, Slot(es[i].1.pieces, es[i].1.started))
  {
    var n := |es| - 1;
    if i < n {
      ContentsAt(es[..n], i);
    } else if n > 0 {
      ContentsAt(es[..n], 0);
    }
  }

  lemma {:induction false} ContentsAre(es: Entries, a: seq<(DatagramKey, Slot)>)
    requires |es| == |a|
    requires forall i :: 0 <= i < |es| ==>
               es[i].1.Valid() && a[i] == (es[i].0, Slot(es[i].1.pieces, es[i].1.started))
    ensures Contents(es) == Some(a)
  {
    if es != [] {
      var n := |es| - 1;
      forall i | 0 <= i < n
        ensures es[..n][i].1.Valid() && a[..n][i] == (es[..n][i].0, Slot(es[..n][i].1.pieces, es[..n][i].1.started))
      {
        assert es[i].1.Valid();
      }
      ContentsAre(es[..n], a[..n]);
      assert a == a[..n] + [a[n]];
    }
  }

  lemma ContentsKeys(es: Entries, a: seq<(DatagramKey, Slot)>)
    requires Contents(es) == Some(a)
    ensures |es| == |a|
    ensures forall i :: 0 <= i < |es| ==> es[i].0 == a[i].0 && es[i].1.started == a[i].1.started
  {
    forall i | 0 <= i < |es|
      ensures |es| == |a| && es[i].0 == a[i].0 && es[i].1.started == a[i].1.started
    {
      ContentsAt(es, i);
    }
  }

  lemma AllSound(es: Entries, a: seq<(DatagramKey, Slot)>)
    requires Contents(es) == Some(a)
    ensures |es| == |a|
    ensures forall i :: 0 <= i < |es| ==> es[i].1.Valid() && a[i] == (es[i].0, Slot(es[i].1.pieces, es[i].1.started))
  {
    forall i | 0 <= i < |es|
      ensures |es| == |a| && es[i].1.Valid() && a[i] == (es[i].0, Slot(es[i].1.pieces, es[i].1.started))
    {
      ContentsAt(es, i);
    }
  }

  lemma ContentsAfterRemove(es: Entries, a: seq<(DatagramKey, Slot)>, i: nat)
    requires Contents(es) == Some(a) && i < |es| == |a|
    ensures Contents(SwapRemove(es, i)) == Some(SwapRemove(a, i))
  {
    var r, b := SwapRemove(es, i), SwapRemove(a, i);
    forall j | 0 <= j < |r|
      ensures r[j].1.Valid() && b[j] == (r[j].0, Slot(r[j].1.pieces, r[j].1.started))
    {
      ContentsAt(es, if j == i then |es| - 1 else j);
    }
    ContentsAre(r, b);
  }

  lemma ContentsAfterPush(es: Entries, a: seq<(DatagramKey, Slot)>, key: DatagramKey, slot: Collecting)
    requires Contents(es) == Some(a) && slot.Valid()
    ensures Contents(es + [(key, slot)]) == Some(a + [(key, Slot(slot.pieces, slot.started))])
  {
    assert (es + [(key, slot)])[..|es|] == es;
  }

  /** One round of the expiry loop, or its end. */
  lemma ExpireStep(s: State, now: Instant)
    ensures var i := FirstStale(Starts(s.collecting), now);
            if i < |s.collecting| then
              var r := GiveUp(s, s.collecting[i].0, Expired, now);
              ExpireSlots(s, now) == ExpireSlots(r, now) && |r.collecting| < |s.collecting|
            else ExpireSlots(s, now) == s
  {
    var i := FirstStale(Starts(s.collecting), now);
    if i < |s.collecting| {
      HasIffKey(s.collecting, s.collecting[i].0);
    }
  }

  lemma InvIsDistinct(s: State, now: Instant)
    requires Inv(s)
    ensures Distinct(s.collecting) && Distinct(Expire(s, now).collecting)
  {
    ExpireKeepsDistinct(s, now);
  }

  lemma OldestIsFirst(times: seq<Instant>, i: nat)
    requires i < |times| && (forall j :: 0 <= j < |times| ==> times[i] <= times[j])
    requires forall j :: 0 <= j < i ==> times[i] < times[j]
    ensures i == FirstOldest(times)
  {
    assert FirstOldest(times) < |times|;
  }

  lemma DeleteAt<V>(s: seq<(DatagramKey, V)>, i: nat)
    requires Distinct(s) && i < |s|
    ensures Position(s, s[i].0) == i && Delete(s, s[i].0) == SwapRemove(s, i)
  {
  }

  lemma SameKeysSameDelete(es: Entries, a: seq<(DatagramKey, Slot)>, i: nat)
    requires |es| == |a| && (forall j :: 0 <= j < |es| ==> es[j].0 == a[j].0)
    requires Distinct(a) && i < |a|
    ensures Delete(es, es[i].0) == SwapRemove(es, i)
  {
    SameKeysSamePosition(es, a, es[i].0);
    DeleteAt(a, i);
  }

  lemma SlotIsSized(slot: Collecting)
    requires slot.Valid()
    ensures slot.buf.Sized() && slot.buf.bytes as object != slot.buf.received as object
  {
  }

  lemma PutAt(s: seq<(DatagramKey, Slot)>, key: DatagramKey, slot: Slot)
    requires Has(s, key)
    ensures Position(s, key) < |s| && s[Position(s, key)].0 == key
    ensures Put(s, key, slot) == s[Position(s, key) := (key, slot)] && Lookup(s, key) == Some(s[Position(s, key)].1)
  {
  }

  class Reassembler {
    const collecting: LinearMap<DatagramKey, Collecting>
    const discarding: LinearMap<DatagramKey, Instant>
    var spare: seq<Buffer>
    var lost: seq<Lost>
    ghost var slots: seq<(DatagramKey, Slot)>
    ghost var tally: Tally
    ghost var Repr: set<object>

    /** What the heap stands for. */
    ghost function View(): State
      reads this, discarding
    {
      State(slots, discarding.entries, |spare|, lost, tally)
    }

    /** The slots are what `slots` says, and every buffer belongs to this object alone. */
    ghost predicate Linked()
      reads this, Repr
    {
      && {this, collecting, discarding} <= Repr
      && collecting as object != discarding as object
      && Owns(Repr, collecting.entries, spare)
      && Apart(collecting.entries, spare)
      && Contents(collecting.entries) == Some(slots)
    }

    ghost predicate Valid()
      reads this, Repr
    {
      Linked() && Inv(View())
    }

    constructor ()
      ensures Valid() && View() == EMPTY && fresh(Repr)
    {
      collecting := new LinearMap();
      discarding := new LinearMap();
      spare, lost, slots, tally := [], [], [], EMPTY.tally;
      new;
      Repr := {this, collecting, discarding};
    }

    method FirstExpired(now: Instant) returns (i: nat)
      requires Linked()
      ensures i == FirstStale(Starts(slots), now)
    {
      ContentsKeys(collecting.entries, slots);
      i := 0;
      while i < |collecting.entries| && !Stale(now, collecting.entries[i].1.started)
        invariant i <= |collecting.entries|
        invariant forall j :: 0 <= j < i ==> !Stale(now, collecting.entries[j].1.started)
      {
        i := i + 1;
      }
      assert i < |collecting.entries| ==> Starts(slots)[i] == collecting.entries[i].1.started;
    }

    method OldestSlot() returns (oldest: nat)
      requires Linked() && collecting.entries != []
      ensures slots != [] && oldest == FirstOldest(Starts(slots))
    {
      hide Linked, Starts, FirstOldest;
      SlotTimes();
      ghost var times := Starts(slots);
      oldest := 0;
      var i := 1;
      while i < |collecting.entries|
        invariant 0 <= oldest < i <= |collecting.entries| == |times|
        invariant forall j :: 0 <= j < i ==> times[oldest] <= times[j]
        invariant forall j :: 0 <= j < oldest ==> times[oldest] < times[j]
      {
        if collecting.entries[i].1.started < collecting.entries[oldest].1.started {
          oldest := i;
        }
        i := i + 1;
      }
      OldestIsFirst(times, oldest);
    }

    lemma SlotTimes()
      requires Linked()
      ensures |Starts(slots)| == |slots| == |collecting.entries|
      ensures forall j :: 0 <= j < |slots| ==> Starts(slots)[j] == collecting.entries[j].1.started
    {
      ContentsKeys(collecting.entries, slots);
    }

    method OldestDiscard() returns (oldest: nat)
      requires discarding.entries != []
      ensures oldest == FirstOldest(Sinces(discarding.entries))
    {
      oldest := 0;
      var i := 1;
      while i < |discarding.entries|
        invariant 0 <= oldest < i <= |discarding.entries|
        invariant forall j :: 0 <= j < i ==> discarding.entries[oldest].1 <= discarding.entries[j].1
        invariant forall j :: 0 <= j < oldest ==> discarding.entries[oldest].1 < discarding.entries[j].1
      {
        if discarding.entries[i].1 < discarding.entries[oldest].1 {
          oldest := i;
        }
        i := i + 1;
      }
    }

    method Shelve(key: DatagramKey, now: Instant)
      modifies discarding
      ensures discarding.entries == Shelved(old(discarding.entries), key, now)
    {
      if |discarding.entries| >= DISCARDS {
        var oldest := OldestDiscard();
        var _ := discarding.Remove(discarding.entries[oldest].0);
      }
      var _ := discarding.Insert(key, now);
    }

    method CloseSlot(key: DatagramKey) returns (had: bool)
      requires Linked()
      modifies this`slots, this`spare, collecting
      ensures Linked() && View() == Close(old(View()), key) && had == Has(old(slots), key)
    {
      hide Contents, Apart, Owns, SwapRemove, Position;
      ContentsKeys(collecting.entries, slots);
      SameKeysSamePosition(collecting.entries, slots, key);
      ghost var i, es := Position(collecting.entries, key), collecting.entries;
      var slot := collecting.Remove(key);
      assert Contents(es) == Some(slots);
      had := slot.Some?;
      if had {
        AfterClose(Repr, es, spare, i);
        ContentsAfterRemove(es, slots, i);
        spare := spare + [slot.value.buf];
        slots := SwapRemove(slots, i);
      }
    }

    method GiveUpOn(key: DatagramKey, loss: Loss, now: Instant)
      requires Linked()
      modifies this`slots, this`tally, this`spare, this`lost, collecting, discarding
      ensures Linked() && View() == GiveUp(old(View()), key, loss, now)
    {
      hide Contents, Apart, Owns;
      var had := CloseSlot(key);
      ghost var es := collecting.entries;
      ContentsKeys(es, slots);
      if had {
        lost := lost + [Lost(key.ingress, key.source, key.dest, loss)];
        tally := tally.(losses := tally.losses + 1);
      }
      Shelve(key, now);
      assert Contents(es) == Some(slots);
    }

    method ExpireOld(now: Instant)
      requires Linked()
      modifies this`slots, this`tally, this`spare, this`lost, collecting, discarding
      ensures Linked() && View() == Expire(old(View()), now)
    {
      hide Contents, Apart, Owns, ExpireSlots, GiveUp, Starts, FirstStale;
      ghost var es := collecting.entries;
      ContentsKeys(es, slots);
      discarding.Retain((p: (DatagramKey, Instant)) => !Stale(now, p.1));
      assert Contents(es) == Some(slots);
      ghost var target := ExpireSlots(View(), now);
      SlotTimes();
      var i := FirstExpired(now);
      while i < |collecting.entries|
        invariant Linked() && |slots| == |collecting.entries|
        invariant i == FirstStale(Starts(slots), now)
        invariant ExpireSlots(View(), now) == target
        decreases |collecting.entries|
      {
        ContentsKeys(collecting.entries, slots);
        ExpireStep(View(), now);
        GiveUpOn(collecting.entries[i].0, Expired, now);
        SlotTimes();
        i := FirstExpired(now);
      }
      ExpireStep(View(), now);
    }

    method Room(now: Instant)
      requires Linked()
      modifies this`slots, this`tally, this`spare, this`lost, collecting, discarding
      ensures Linked() && View() == MakeRoom(old(View()), now)
    {
      hide Contents, Apart, Owns;
      ContentsKeys(collecting.entries, slots);
      if |collecting.entries| >= SLOTS {
        var oldest := OldestSlot();
        GiveUpOn(collecting.entries[oldest].0, Evicted, now);
      }
    }

    /** Pop a spare buffer, or allocate one. */
    method TakeBuffer() returns (buf: Buffer)
      requires Linked()
      modifies this`spare, this`tally, this`Repr
      ensures Linked() && old(Repr) <= Repr && fresh(Repr - old(Repr))
      ensures OwnsBuffer(Repr, buf)
      ensures Apart(collecting.entries, spare + [buf])
      ensures old(spare) != [] ==> spare == old(spare)[..|old(spare)| - 1] && tally == old(tally)
      ensures old(spare) == [] ==> spare == [] && tally == old(tally).(buffers := old(tally).buffers + 1)
    {
      hide Contents;
      ghost var es := collecting.entries;
      ContentsKeys(es, slots);
      if |spare| > 0 {
        buf := spare[|spare| - 1];
        spare := spare[..|spare| - 1];
      } else {
        buf := new Buffer();
        Repr := Repr + {buf.bytes, buf.received};
        tally := tally.(buffers := tally.buffers + 1);
      }
      assert Contents(es) == Some(slots);
    }

    /** Put a new, empty slot under `key`. */
    method Seat(key: DatagramKey, slot: Collecting)
      requires {this, collecting, discarding} <= Repr && collecting as object != discarding as object
      requires Owns(Repr, collecting.entries, spare) && OwnsBuffer(Repr, slot.buf)
      requires Apart(collecting.entries, spare + [slot.buf])
      requires Contents(collecting.entries) == Some(slots)
      requires slot.Valid() && slot.pieces == [] && !Has(slots, key)
      modifies this`slots, this`Repr, collecting
      ensures Linked() && Repr == old(Repr) + {slot}
      ensures slots == Put(old(slots), key, Slot([], slot.started))
    {
      hide Contents, Apart, Owns, Collecting.Valid;
      ghost var es := collecting.entries;
      ContentsKeys(es, slots);
      SameKeysSamePosition(es, slots, key);
      ContentsAfterPush(es, slots, key, slot);
      AfterOpen(Repr, es, spare, key, slot);
      Repr := Repr + {slot};
      slots := slots + [(key, Slot([], slot.started))];
      ghost var es' := es + [(key, slot)];
      var _ := collecting.Insert(key, slot);
      assert collecting.entries == es';
      assert Contents(es') == Some(slots);
    }

    method OpenSlot(key: DatagramKey, now: Instant)
      requires Linked() && !Has(slots, key)
      modifies Repr
      ensures Linked() && old(Repr) <= Repr && fresh(Repr - old(Repr))
      ensures View() == Open(old(View()), key, now)
    {
      hide Contents, Apart, Owns, Collecting.Valid;
      var buf := TakeBuffer();
      ghost var es := collecting.entries;
      ContentsKeys(es, slots);
      SeparateFromAll(es, spare, buf);
      var slot := new Collecting(buf, now);
      assert Contents(es) == Some(slots);
      tally := tally.(begun := tally.begun + 1);
      assert Contents(es) == Some(slots);
      Seat(key, slot);
    }

    /** Slot `i` takes `f`; no other slot's bytes change. */
    method AddAt(i: nat, f: Fragment) returns (r: Result<(), Loss>)
      requires Linked() && i < |collecting.entries| == |slots|
      modifies this`slots, collecting.entries[i].1, collecting.entries[i].1.buf.bytes, collecting.entries[i].1.buf.received
      ensures Linked()
      ensures match Accept(old(slots)[i].1.pieces, f)
              case Failure(loss) => r == Failure(loss) && slots == old(slots)
              case Success(ps) => r == Success(()) && slots == old(slots)[i := (old(slots)[i].0, old(slots)[i].1.(pieces := ps))]
    {
      hide Contents, Apart, Owns, Collecting.Valid;
      ghost var es := collecting.entries;
      AllSound(es, slots);
      OthersSeparate(es, spare, i);
      var slot := collecting.entries[i].1;
      r := slot.Add(f);
      slots := slots[i := (slots[i].0, Slot(slot.pieces, slot.started))];
      forall j | 0 <= j < |es|
        ensures es[j].1.Valid() && slots[j] == (es[j].0, Slot(es[j].1.pieces, es[j].1.started))
      {
      }
      ContentsAre(es, slots);
    }

    /** A complete slot leaves the table, its buffer with the caller. */
    method HandOut(i: nat) returns (done: Reassembled)
      requires Linked() && i < |collecting.entries| == |slots|
      requires Complete(slots[i].1.pieces) && Distinct(slots)
      modifies this`slots, this`tally, this`Repr, collecting
      ensures Linked() && Repr <= old(Repr)
      ensures View() == old(View()).(collecting := Delete(old(slots), old(slots)[i].0),
                                     tally := old(tally).(completed := old(tally).completed + 1, loaned := old(tally).loaned + 1))
      ensures OnLoan(done)
      ensures Whole(done.first, done.buf.bytes[..done.len]) == Assemble(old(slots)[i].1.pieces)
      ensures {done.buf.bytes, done.buf.received} <= old(Repr)
    {
      hide Linked, Collecting.Valid, Complete, Assemble, Tiles, Delete;
      var slot := Unseat(i);
      SlotIsSized(slot);
      var finished := slot.Finish();
      done := finished.value;
    }

    /** Slot `i` leaves the table and this object; its bytes stay as they are. */
    method Unseat(i: nat) returns (slot: Collecting)
      requires Linked() && i < |collecting.entries| == |slots| && Distinct(slots)
      modifies this`slots, this`tally, this`Repr, collecting
      ensures Linked() && Repr <= old(Repr) && slot.Valid() && slot.pieces == old(slots)[i].1.pieces
      ensures slot.buf.bytes !in Repr && slot.buf.received !in Repr
      ensures View() == old(View()).(collecting := Delete(old(slots), old(slots)[i].0),
                                     tally := old(tally).(completed := old(tally).completed + 1, loaned := old(tally).loaned + 1))
      ensures {slot.buf.bytes, slot.buf.received} <= old(Repr)
    {
      hide Contents, Apart, Owns, Collecting.Valid, Distinct, Position, Delete, SwapRemove;
      ghost var es, es', was := collecting.entries, SwapRemove(collecting.entries, i), slots;
      ContentsKeys(es, slots);
      ContentsAt(es, i);
      slot := collecting.entries[i].1;
      OwnedAt(Repr, es, spare, i);
      DeleteAt(slots, i);
      SameKeysSameDelete(es, slots, i);
      ContentsAfterRemove(es, slots, i);
      AfterHandOut(Repr, es, spare, i);
      var _ := collecting.Remove(collecting.entries[i].0);
      Repr := Repr - {slot, slot.buf.bytes, slot.buf.received};
      tally := tally.(completed := tally.completed + 1, loaned := tally.loaned + 1);
      slots := SwapRemove(slots, i);
      assert collecting.entries == es' && Contents(es') == Some(slots);
    }

    /** The buffer is whole and no longer this object's. */
    ghost predicate OnLoan(done: Reassembled)
      reads this
    {
      && done.buf.Sized() && done.len <= MAX_DATAGRAM_LEN
      && done.buf.bytes !in Repr && done.buf.received !in Repr
      && done.buf.bytes as object != done.buf.received as object
    }

    method ReleaseUnwanted(key: DatagramKey, now: Instant)
      requires Linked()
      modifies this`slots, this`tally, this`spare, collecting, discarding
      ensures Linked() && View() == Release(old(View()), key, now)
    {
      hide Contents, Apart, Owns;
      var had := CloseSlot(key);
      ghost var es := collecting.entries;
      ContentsKeys(es, slots);
      if had {
        tally := tally.(released := tally.released + 1);
      }
      Shelve(key, now);
      assert Contents(es) == Some(slots);
    }

    method EnsureSlot(key: DatagramKey, now: Instant)
      requires Linked() && Inv(View()) && !Has(discarding.entries, key)
      modifies Repr
      ensures Linked() && old(Repr) <= Repr && fresh(Repr - old(Repr))
      ensures View() == WithSlot(old(View()), key, now)
    {
      hide Contents, Apart, Owns, Inv;
      ContentsKeys(collecting.entries, slots);
      SameKeysSamePosition(collecting.entries, slots, key);
      var at := collecting.Find(key);
      if at == |collecting.entries| {
        MakeRoomSpares(View(), key, now);
        Room(now);
        OpenSlot(key, now);
      }
    }

    /** `key`'s slot takes `f`: given up, kept, or handed out complete. */
    method FeedSlot(key: DatagramKey, f: Fragment, now: Instant) returns (r: Option<Reassembled>)
      requires Linked() && Has(slots, key) && Distinct(slots)
      modifies Repr
      ensures Linked() && Repr <= old(Repr)
      ensures View() == Feed(old(View()), key, f, now).0
      ensures Delivers(r, Feed(old(View()), key, f, now).1)
      ensures r.Some? ==> {r.value.buf.bytes, r.value.buf.received} <= old(Repr)
    {
      hide Contents, Apart, Owns, Collecting.Valid, Complete, Assemble, Distinct, Accept, GiveUp, Position, Put, Delete, Lookup;
      ContentsKeys(collecting.entries, slots);
      SameKeysSamePosition(collecting.entries, slots, key);
      PutAt(slots, key, Slot([], now));
      var i := collecting.Find(key);
      ghost var before := slots;
      OwnedAt(Repr, collecting.entries, spare, i);
      var added := AddAt(i, f);
      if added.Failure? {
        GiveUpOn(key, added.error, now);
        return None;
      }
      PutAt(before, key, slots[i].1);
      ContentsAt(collecting.entries, i);
      var complete := collecting.entries[i].1.IsComplete();
      if !complete {
        return None;
      }
      UpdateThenDelete(before, key, slots[i].1);
      var done := HandOut(i);
      return Some(done);
    }

    /** What a method returned is the datagram the abstract machine did. */
    ghost predicate Delivers(r: Option<Reassembled>, d: Option<Whole>)
      reads this
      reads if r.Some? then {r.value.buf.bytes} else {}
    {
      match d
      case None => r == None
      case Some(d) => r.Some? && OnLoan(r.value) && Whole(r.value.first, r.value.buf.bytes[..r.value.len]) == d
    }

    method Offer(ingress: nat, f: Fragment, wanted: bool, now: Instant) returns (r: Option<Reassembled>)
      requires Valid()
      modifies Repr
      ensures Valid() && fresh(Repr - old(Repr))
      ensures View() == Reassembly.Offer(old(View()), ingress, f, wanted, now).0
      ensures Delivers(r, Reassembly.Offer(old(View()), ingress, f, wanted, now).1)
      ensures r.Some? ==> fresh({r.value.buf.bytes, r.value.buf.received} - old(Repr))
    {
      hide Contents, Apart, Owns, Inv, Expire, Feed, WithSlot, Release;
      InvIsDistinct(View(), now);
      OfferInv(View(), ingress, f, wanted, now);
      ExpireInv(View(), now);
      ExpireOld(now);
      ghost var e := View();
      var key := KeyOf(ingress, f);
      var at := discarding.Find(key);
      if at < |discarding.entries| {
        return None;
      }
      if !wanted {
        ReleaseUnwanted(key, now);
        return None;
      }
      WithSlotInv(e, key, now);
      EnsureSlot(key, now);
      InvIsDistinct(View(), now);
      r := FeedSlot(key, f, now);
    }

    /** The buffer comes back with whatever bytes it holds; nothing clears them. */
    method Recycle(done: Reassembled)
      requires Valid() && OnLoan(done) && tally.loaned > 0
      modifies this`spare, this`tally, this`Repr
      ensures Valid() && Repr == old(Repr) + {done.buf.bytes, done.buf.received}
      ensures View() == Step(old(View()), Recycled).0
    {
      hide Contents, Apart, Owns;
      ghost var es := collecting.entries;
      ContentsKeys(es, slots);
      ForeignIsSeparate(Repr, es, spare, done.buf);
      spare := spare + [done.buf];
      tally := tally.(loaned := tally.loaned - 1);
      Repr := Repr + {done.buf.bytes, done.buf.received};
      assert Contents(es) == Some(slots);
    }

    method DrainLost() returns (drained: seq<Lost>)
      requires Valid()
      modifies this`lost
      ensures Valid() && drained == old(lost)
      ensures View() == Step(old(View()), Drained).0
    {
      hide Contents, Apart, Owns;
      ghost var es := collecting.entries;
      ContentsKeys(es, slots);
      drained, lost := lost, [];
      assert Contents(es) == Some(slots);
    }
  }
}
