/**
 What the sender splits (src/net/frame.rs) the reassembler joins: the frames of one datagram, taken
 back off the wire in any order, give the datagram again.
 */
module Fragmentation {
  import opened Wrappers
  import opened Primitives
  import opened LinearMaps
  import opened Fragments
  import opened Interfaces
  import opened Reassembly
  import opened ReassemblyRuns
  import Datagrams

  /** The 16-bit field that places a fragment: 13 bits of offset in units, and More Fragments. */
  function PlaceV4(offset: nat, more: bool): nat {
    offset / FRAGMENT_UNIT + if more then 0x2000 else 0
  }

  function PlaceV6(offset: nat, more: bool): nat {
    offset / FRAGMENT_UNIT * 8 + if more then 1 else 0
  }

  /** How a received field is read. */
  function ReadV4(field: nat): (r: (nat, bool))
    ensures r.0 % FRAGMENT_UNIT == 0
  {
    (field % 0x2000 * FRAGMENT_UNIT, field % 0x4000 >= 0x2000)
  }

  function ReadV6(field: nat): (r: (nat, bool))
    ensures r.0 % FRAGMENT_UNIT == 0
  {
    (field / 8 * FRAGMENT_UNIT, field % 2 == 1)
  }

  /**
   An aligned offset inside a datagram fits the field and comes back. The field is the one on the
   wire: for IPv4 thirteen bits of units under the More Fragments bit, with Don't Fragment clear
   (section 3.1 of RFC 791); for IPv6 the units above two zero bits and the M flag (section 4.5 of
   RFC 8200).
   */
  lemma PlacementRoundTrip(offset: nat, more: bool)
    requires offset % FRAGMENT_UNIT == 0 && offset <= 0xffff
    ensures PlaceV4(offset, more) % 0x2000 == offset / 8 && PlaceV4(offset, more) / 0x2000 == if more then 1 else 0
    ensures PlaceV6(offset, more) / 8 == offset / 8 && PlaceV6(offset, more) % 8 == if more then 1 else 0
    ensures PlaceV4(offset, more) <= 0xffff && ReadV4(PlaceV4(offset, more)) == (offset, more)
    ensures PlaceV6(offset, more) <= 0xffff && ReadV6(PlaceV6(offset, more)) == (offset, more)
  {
    var u := offset / FRAGMENT_UNIT;
    assert offset == 8 * u && u < 0x2000;
    UnitsRoundTrip(u, more);
  }

  lemma UnitsRoundTrip(u: nat, more: bool)
    requires u < 0x2000
    ensures var v4 := u + if more then 0x2000 else 0; v4 % 0x2000 == u && (v4 % 0x4000 >= 0x2000 <==> more)
    ensures var v6 := u * 8 + if more then 1 else 0; v6 / 8 == u && (v6 % 2 == 1 <==> more)
  {
  }

  /** The datagram bytes of frame `index`: the UDP header is kept apart from the payload. */
  function Body(f: Datagrams.Frames, udp: seq<Byte>, payload: seq<Byte>, index: nat): seq<Byte>
    requires f.Valid() && |udp| == UDP_HEADER_SIZE && f.datagram == UDP_HEADER_SIZE + |payload|
    requires index < f.Count()
  {
    StartsInside(f, index);
    var start, end := f.Start(index), f.End(index);
    if start == 0 then udp + payload[..end - UDP_HEADER_SIZE]
    else payload[start - UDP_HEADER_SIZE..end - UDP_HEADER_SIZE]
  }

  lemma StartsInside(f: Datagrams.Frames, index: nat)
    requires f.Valid() && index < f.Count()
    ensures f.Start(index) < f.End(index) <= f.datagram && UDP_HEADER_SIZE <= f.End(index) <= f.Start(index) + f.chunk
    ensures f.Start(index) == 0 || f.Start(index) >= UDP_HEADER_SIZE
    ensures f.fragmented ==> f.Start(index) % FRAGMENT_UNIT == 0
    ensures f.Start(index) == 0 <==> index == 0
  {
    QuotientBelow(f.datagram + f.chunk - 1, f.chunk, index + 1);
    NextMultiple(index, f.chunk);
    if f.fragmented {
      MultiplesStayAligned(index, f.chunk);
    }
    if index > 0 {
      assert index * f.chunk >= f.chunk by { MultiplesGrow(1, index, f.chunk); }
    }
  }

  lemma MultiplesGrow(a: nat, b: nat, chunk: nat)
    requires a <= b
    ensures a * chunk <= b * chunk
  {
  }

  lemma MultiplesStayAligned(index: nat, chunk: nat)
    requires chunk % FRAGMENT_UNIT == 0
    ensures (index * chunk) % FRAGMENT_UNIT == 0
  {
    var u := chunk / 8;
    assert index * chunk == index * (8 * u) == 8 * (index * u);
    var n := index * u;
    assert 8 * n % 8 == 0;
  }

  /** A quotient of at least `k` says that `k` divisors fit. */
  lemma QuotientBelow(a: nat, b: nat, k: nat)
    requires b > 0
    ensures k <= a / b <==> k * b <= a
  {
    var q := a / b;
    assert a == q * b + a % b;
    if k <= q {
      MultiplesGrow(k, q, b);
    } else {
      MultiplesGrow(q + 1, k, b);
      assert (q + 1) * b == q * b + b;
    }
  }

  /** Frame `index` as it is read back: a fragment of the datagram. */
  function Received(f: Datagrams.Frames, h: FragmentHeader, udp: seq<Byte>, payload: seq<Byte>, index: nat): Fragment
    requires f.Valid() && f.fragmented && |udp| == UDP_HEADER_SIZE && f.datagram == UDP_HEADER_SIZE + |payload| <= 0xffff
    requires index < f.Count()
  {
    StartsInside(f, index);
    var start, more := f.Start(index), f.End(index) < f.datagram;
    var place := if f.v6 then ReadV6(PlaceV6(start, more)) else ReadV4(PlaceV4(start, more));
    RawFragment(h.(offset := place.0, more := place.1), Body(f, udp, payload, index))
  }

  /** A fragmented datagram takes two frames or more: no frame claims to be the only fragment. */
  lemma NeverASingleFragment(link: LinkType, v6: bool, len: nat, mtu: nat)
    requires Datagrams.LayOut(link, v6, len, mtu).Success? && Datagrams.LayOut(link, v6, len, mtu).value.fragmented
    ensures Datagrams.LayOut(link, v6, len, mtu).value.Count() >= 2
  {
    var f := Datagrams.LayOut(link, v6, len, mtu).value;
    assert f.chunk < f.datagram;
    assert (f.datagram + f.chunk - 1) >= 2 * f.chunk;
    QuotientBelow(f.datagram + f.chunk - 1, f.chunk, 2);
  }

  lemma BodyIsASlice(f: Datagrams.Frames, udp: seq<Byte>, payload: seq<Byte>, index: nat)
    requires f.Valid() && |udp| == UDP_HEADER_SIZE && f.datagram == UDP_HEADER_SIZE + |payload|
    requires index < f.Count()
    ensures f.Start(index) < f.End(index) <= f.datagram
    ensures Body(f, udp, payload, index) == (udp + payload)[f.Start(index)..f.End(index)]
  {
    StartsInside(f, index);
    hide Datagrams.Frames.Start, Datagrams.Frames.End, Datagrams.Frames.Count;
  }

  lemma ReceivedIsAPiece(f: Datagrams.Frames, h: FragmentHeader, udp: seq<Byte>, payload: seq<Byte>, index: nat)
    requires f.Valid() && f.fragmented && |udp| == UDP_HEADER_SIZE && f.datagram == UDP_HEADER_SIZE + |payload| <= 0xffff
    requires index < f.Count()
    ensures var p := Received(f, h, udp, payload, index);
            && PieceOf(p, udp + payload) && p.header.offset == f.Start(index) && p.End() == f.End(index)
            && (p.header.offset == 0 ==> |p.data| >= UDP_HEADER_SIZE)
  {
    StartsInside(f, index);
    PlacementRoundTrip(f.Start(index), f.End(index) < f.datagram);
    BodyIsASlice(f, udp, payload, index);
    hide Datagrams.Frames.Start, Datagrams.Frames.End, Datagrams.Frames.Count, Body, PlaceV4, PlaceV6, ReadV4, ReadV6;
  }

  /** Every frame's index, each once, in the order the frames arrive. */
  ghost predicate Arrival(order: seq<nat>, count: nat) {
    && (forall j :: 0 <= j < |order| ==> order[j] < count)
    && (forall j, l :: 0 <= j < l < |order| ==> order[j] != order[l])
    && (forall i :: 0 <= i < count ==> i in order)
  }

  ghost function Arrived(f: Datagrams.Frames, h: FragmentHeader, udp: seq<Byte>, payload: seq<Byte>, order: seq<nat>): (r: seq<Fragment>)
    requires f.Valid() && f.fragmented && |udp| == UDP_HEADER_SIZE && f.datagram == UDP_HEADER_SIZE + |payload| <= 0xffff
    requires Arrival(order, f.Count())
    ensures |r| == |order| && forall j :: 0 <= j < |r| ==> r[j] == Received(f, h, udp, payload, order[j])
  {
    seq(|order|, j requires 0 <= j < |order| => Received(f, h, udp, payload, order[j]))
  }

  lemma ArrivedIsACut(f: Datagrams.Frames, h: FragmentHeader, udp: seq<Byte>, payload: seq<Byte>, order: seq<nat>)
    requires f.Valid() && f.fragmented && |udp| == UDP_HEADER_SIZE
    requires f.datagram == UDP_HEADER_SIZE + |payload| <= MAX_DATAGRAM_LEN
    requires Arrival(order, f.Count())
    ensures Cut(Arrived(f, h, udp, payload, order), udp + payload)
  {
    hide Datagrams.Frames.Start, Datagrams.Frames.End, Datagrams.Frames.Count, Received;
    var ps, d := Arrived(f, h, udp, payload, order), udp + payload;
    forall j | 0 <= j < |ps|
      ensures PieceOf(ps[j], d)
      ensures ps[j].header.offset == f.Start(order[j]) && ps[j].End() == f.End(order[j])
      ensures ps[j].header.offset == 0 ==> |ps[j].data| >= UDP_HEADER_SIZE
    {
      ReceivedIsAPiece(f, h, udp, payload, order[j]);
    }
    forall i | 0 <= i < |d|
      ensures Covered(ps, i)
    {
      var index := IndexOf(f, i);
      assert index in order;
      var j :| 0 <= j < |order| && order[j] == index;
      assert ps[j].Covers(i);
    }
    forall j, l, i | 0 <= j < l < |ps| && ps[j].Covers(i)
      ensures !ps[l].Covers(i)
    {
      FramesApart(f, order[j], order[l]);
    }
  }

  /** Each byte is in some frame, and no byte in two. */
  lemma IndexOf(f: Datagrams.Frames, i: nat) returns (index: nat)
    requires f.Valid() && i < f.datagram
    ensures index < f.Count() && f.Start(index) <= i < f.End(index)
  {
    index := i / f.chunk;
    InItsChunk(i, f.chunk);
    NextMultiple(index, f.chunk);
    QuotientBelow(f.datagram + f.chunk - 1, f.chunk, index + 1);
    LinearIndex(f, i, index);
  }

  /** What remains once the products are named: sums and comparisons. */
  lemma LinearIndex(f: Datagrams.Frames, i: nat, index: nat)
    requires f.Valid() && i < f.datagram && f.Start(index) <= i < f.Start(index) + f.chunk
    requires index + 1 <= f.Count() <==> f.Start(index) + f.chunk <= f.datagram + f.chunk - 1
    ensures index < f.Count() && f.Start(index) <= i < f.End(index)
  {
    hide Datagrams.Frames.Start, Datagrams.Frames.Count;
  }

  lemma InItsChunk(i: nat, chunk: nat)
    requires chunk > 0
    ensures i / chunk * chunk <= i < i / chunk * chunk + chunk
  {
    assert i == i / chunk * chunk + i % chunk;
  }

  lemma NextMultiple(index: nat, chunk: nat)
    ensures (index + 1) * chunk == index * chunk + chunk
  {
  }

  lemma FramesApart(f: Datagrams.Frames, a: nat, b: nat)
    requires a != b
    ensures f.End(a) <= f.Start(b) || f.End(b) <= f.Start(a)
  {
    NextMultiple(a, f.chunk);
    NextMultiple(b, f.chunk);
    if a < b {
      MultiplesGrow(a + 1, b, f.chunk);
    } else {
      MultiplesGrow(b + 1, a, f.chunk);
    }
  }

  /**
   The round trip. The frames one planned datagram is split into, arriving in any order among any
   other traffic, leave the reassembler undisturbed as the datagram that was sent.
   */
  lemma SplitThenJoined(
      s: State, events: seq<Event>, key: DatagramKey,
      link: LinkType, v6: bool, mtu: nat, h: FragmentHeader, udp: seq<Byte>, payload: seq<Byte>, order: seq<nat>)
    requires |udp| == UDP_HEADER_SIZE && UDP_HEADER_SIZE + |payload| <= MAX_DATAGRAM_LEN
    requires Datagrams.LayOut(link, v6, |payload|, mtu).Success? && Datagrams.LayOut(link, v6, |payload|, mtu).value.fragmented
    requires Arrival(order, Datagrams.LayOut(link, v6, |payload|, mtu).value.Count())
    requires Inv(s) && !Has(s.collecting, key) && !Has(s.discarding, key)
    requires OfferedFor(events, key) == Arrived(Datagrams.LayOut(link, v6, |payload|, mtu).value, h, udp, payload, order)
    requires Undisturbed(s, events, key)
    ensures OnlyTheLastIs(OutputsFor(s, events, key), |order|, udp + payload)
  {
    hide *;
    var f := Datagrams.LayOut(link, v6, |payload|, mtu).value;
    LaidOutFor(link, v6, |payload|, mtu);
    NeverASingleFragment(link, v6, |payload|, mtu);
    JoinedFrom(s, events, key, f, h, udp, payload, order);
  }

  lemma LaidOutFor(link: LinkType, v6: bool, len: nat, mtu: nat)
    requires Datagrams.LayOut(link, v6, len, mtu).Success?
    ensures Datagrams.LayOut(link, v6, len, mtu).value.Valid()
    ensures Datagrams.LayOut(link, v6, len, mtu).value.datagram == UDP_HEADER_SIZE + len
  {
  }

  lemma JoinedFrom(
      s: State, events: seq<Event>, key: DatagramKey,
      f: Datagrams.Frames, h: FragmentHeader, udp: seq<Byte>, payload: seq<Byte>, order: seq<nat>)
    requires |udp| == UDP_HEADER_SIZE && f.datagram == UDP_HEADER_SIZE + |payload| <= MAX_DATAGRAM_LEN
    requires f.Valid() && f.fragmented && f.Count() >= 2 && Arrival(order, f.Count())
    requires Inv(s) && !Has(s.collecting, key) && !Has(s.discarding, key)
    requires OfferedFor(events, key) == Arrived(f, h, udp, payload, order)
    requires Undisturbed(s, events, key)
    ensures OnlyTheLastIs(OutputsFor(s, events, key), |order|, udp + payload)
  {
    hide Datagrams.Frames.Count, Received, Cut, Inv, Undisturbed, OutputsFor, OfferedFor, OnlyTheLastIs;
    var ps := Arrived(f, h, udp, payload, order);
    ArrivedIsACut(f, h, udp, payload, order);
    assert 0 in order;
    assert ps[0..] == ps;
    AnyOrderCompletes(s, events, key, ps, udp + payload, 0);
  }
}
