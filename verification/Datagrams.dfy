/** Laying a UDP datagram out for an egress (src/dispatch/datagram.rs, src/net/frame.rs). */
module Datagrams {
  import opened Wrappers
  import opened Primitives
  import opened Ip
  import opened Addresses
  import opened Interfaces

  const MAX_FRAME_LEN: nat := 14 + 60 + 9000
  const MAX_MTU: nat := MAX_FRAME_LEN - 14
  const FALLBACK_MTU: nat := 1280

  datatype SockAddr = SockAddr(ip: IpAddr, port: nat)

  datatype DatagramSource = FromEgress(port: nat) | Exact(addr: SockAddr)

  datatype Datagram = Datagram(dst: SockAddr, source: DatagramSource, ttl: nat, payload: seq<Byte>)

  datatype DatagramError = NoSourceAddress | NoSourceMac | SourceFamilyMismatch | PayloadTooLarge | MtuTooSmall

  /** One frame, or one IP fragment of `chunk` datagram bytes per frame. */
  datatype Frames = Frames(link: LinkType, v6: bool, datagram: nat, chunk: nat, fragmented: bool) {
    predicate Valid() {
      && datagram >= 8 && chunk > 0
      && (if fragmented then chunk % 8 == 0 else chunk == datagram)
    }

    function Count(): nat
      requires Valid()
    {
      (datagram + chunk - 1) / chunk
    }

    /** Where frame `index` starts in the datagram, and where it ends. */
    function Start(index: nat): nat { index * chunk }

    function End(index: nat): nat {
      if Start(index) + chunk < datagram then Start(index) + chunk else datagram
    }

    /** The length of frame `index`, headers included. */
    function FrameLen(index: nat): nat
      requires Valid() && Start(index) <= datagram
    {
      LinkHeaderSize(link) + IpHeaderSize(v6, fragmented) + (End(index) - Start(index))
    }
  }

  function IpHeaderSize(v6: bool, fragmented: bool): nat {
    if !v6 then 20 else if fragmented then 48 else 40
  }

  function LinkHeaderSize(link: LinkType): nat {
    match link
    case Ethernet => 14
    case DltNull => 4
    case RawIp => 0
  }

  function FrameMtu(mtu: Option<nat>): nat {
    var m := if mtu.Some? then mtu.value else FALLBACK_MTU;
    if m < MAX_MTU then m else MAX_MTU
  }

  function LayOut(link: LinkType, v6: bool, len: nat, mtu: nat): (r: Result<Frames, DatagramError>)
    ensures r.Success? ==> r.value.Valid()
  {
    var datagram := 8 + len;
    if datagram + (if v6 then 0 else 20) > 0xffff then Failure(PayloadTooLarge)
    else if IpHeaderSize(v6, false) + datagram <= mtu then Success(Frames(link, v6, datagram, datagram, false))
    else
      var room := if mtu > IpHeaderSize(v6, true) then mtu - IpHeaderSize(v6, true) else 0;
      var chunk := room - room % 8;
      if chunk == 0 then Failure(MtuTooSmall) else Success(Frames(link, v6, datagram, chunk, true))
  }

  /** Every frame of a plan fits the frame buffer, so writing one never fails. */
  lemma FramesFit(link: LinkType, v6: bool, len: nat, mtu: Option<nat>, index: nat)
    requires LayOut(link, v6, len, FrameMtu(mtu)).Success?
    requires LayOut(link, v6, len, FrameMtu(mtu)).value.Start(index) <= 8 + len
    ensures LayOut(link, v6, len, FrameMtu(mtu)).value.FrameLen(index) <= MAX_FRAME_LEN
  {
    var f := LayOut(link, v6, len, FrameMtu(mtu)).value;
    assert f.chunk + IpHeaderSize(v6, f.fragmented) <= FrameMtu(mtu) <= MAX_MTU;
  }

  /** The egress's own address that a datagram to `dst` is sent from. */
  function OwnAddress(addrs: InterfaceAddresses, dst: IpAddr): Option<IpAddr> {
    match dst
    case V4(_) => if addrs.v4.Some? then Some(V4(addrs.v4.value)) else None
    case V6(a) =>
      var own := addrs.V6Source(ScopeOf(a));
      if own.Some? then Some(V6(own.value)) else None
  }

  function SourceFor(addrs: InterfaceAddresses, dst: IpAddr, source: DatagramSource): Result<SockAddr, DatagramError> {
    match source
    case FromEgress(port) =>
      var own := OwnAddress(addrs, dst);
      if own.None? then Failure(NoSourceAddress) else Success(SockAddr(own.value, port))
    case Exact(addr) => if addr.ip.V4? == dst.V4? then Success(addr) else Failure(SourceFamilyMismatch)
  }

  function BuildUdp(addrs: InterfaceAddresses, link: LinkType, d: Datagram, mtu: nat): (r: Result<Frames, DatagramError>)
    ensures r.Success? ==> r.value.Valid()
  {
    var source := SourceFor(addrs, d.dst.ip, d.source);
    if source.Failure? then Failure(source.error)
    else if link.Ethernet? && addrs.mac.None? then Failure(NoSourceMac)
    else LayOut(link, d.dst.ip.V6?, |d.payload|, mtu)
  }

  // ----- What can be built, and what it is

  /** Beyond the link: neither a link-local address nor a link-local group. */
  predicate BeyondTheLink(a: V6Addr) {
    !(0xfe80_0000_0000_0000_0000_0000_0000_0000 <= a <= 0xfebf_ffff_ffff_ffff_ffff_ffff_ffff_ffff)
    && !((a >> 120) == 0xff && (a >> 112) & 0xf == 2)
  }

  /** An address of the destination's family to send from. */
  predicate HasSource(addrs: InterfaceAddresses, d: Datagram) {
    match d.source
    case Exact(addr) => addr.ip.V4? <==> d.dst.ip.V4?
    case FromEgress(_) =>
      if d.dst.ip.V4? then addrs.v4.Some? else addrs.v6.Some? || (BeyondTheLink(d.dst.ip.v6) && addrs.v6Routable.Some?)
  }

  /** The length fields hold the datagram, and the MTU the whole of it or a fragment of eight bytes. */
  predicate HasRoom(v6: bool, len: nat, mtu: nat) {
    if v6 then 48 + len <= mtu || 56 <= mtu else 28 <= mtu
  }

  predicate FitsLengthField(v6: bool, len: nat) {
    if v6 then 8 + len <= 0xffff else 28 + len <= 0xffff
  }

  predicate Buildable(addrs: InterfaceAddresses, link: LinkType, d: Datagram, mtu: nat) {
    && HasSource(addrs, d) && (link.Ethernet? ==> addrs.mac.Some?)
    && FitsLengthField(d.dst.ip.V6?, |d.payload|) && HasRoom(d.dst.ip.V6?, |d.payload|, mtu)
  }

  /** The first thing missing. */
  predicate Lacks(addrs: InterfaceAddresses, link: LinkType, d: Datagram, mtu: nat, e: DatagramError) {
    if !HasSource(addrs, d) then e == if d.source.Exact? then SourceFamilyMismatch else NoSourceAddress
    else if link.Ethernet? && addrs.mac.None? then e == NoSourceMac
    else if !FitsLengthField(d.dst.ip.V6?, |d.payload|) then e == PayloadTooLarge
    else e == MtuTooSmall && !HasRoom(d.dst.ip.V6?, |d.payload|, mtu)
  }

  lemma LinkLocalRange(a: V6Addr)
    ensures V6LinkLocal(a) <==> 0xfe80_0000_0000_0000_0000_0000_0000_0000 <= a <= 0xfebf_ffff_ffff_ffff_ffff_ffff_ffff_ffff
  {
  }

  lemma ScopeIsBeyond(a: V6Addr)
    ensures ScopeOf(a) == RoutableScope <==> BeyondTheLink(a)
  {
    LinkLocalRange(a);
    hide V6LinkLocal;
  }

  /**
   The frames a datagram of `len` bytes goes out as: whole if it fits the MTU, else in fragments of
   the most whole units that fit.
   */
  predicate Lays(f: Frames, link: LinkType, v6: bool, len: nat, mtu: nat) {
    && f.Valid() && f.link == link && f.v6 == v6 && f.datagram == 8 + len
    && (f.fragmented <==> (if v6 then 48 else 28) + len > mtu)
    && (f.fragmented ==> (if v6 then 48 else 20) + f.chunk <= mtu < (if v6 then 48 else 20) + f.chunk + 8)
  }

  /** A datagram is built exactly when it has a source, a MAC where one is needed, and room; else the first lack is told. */
  lemma BuiltExactly(addrs: InterfaceAddresses, link: LinkType, d: Datagram, mtu: nat)
    ensures match BuildUdp(addrs, link, d, mtu)
            case Success(f) => Buildable(addrs, link, d, mtu) && Lays(f, link, d.dst.ip.V6?, |d.payload|, mtu)
            case Failure(e) => !Buildable(addrs, link, d, mtu) && Lacks(addrs, link, d, mtu, e)
  {
    if d.dst.ip.V6? {
      ScopeIsBeyond(d.dst.ip.v6);
    }
    hide ScopeOf, BeyondTheLink;
  }

  lemma LaidOnce(f: Frames, g: Frames, link: LinkType, v6: bool, len: nat, mtu: nat)
    requires Lays(f, link, v6, len, mtu) && Lays(g, link, v6, len, mtu)
    ensures f == g
  {
  }

  /** A sender of one's own is an address of the egress: beyond the link the routable one, if there is one. */
  lemma OwnSource(addrs: InterfaceAddresses, d: Datagram)
    requires SourceFor(addrs, d.dst.ip, d.source).Success?
    ensures var s := SourceFor(addrs, d.dst.ip, d.source).value;
            match d.source
            case Exact(addr) => s == addr
            case FromEgress(port) =>
              && s.port == port && (s.ip.V4? <==> d.dst.ip.V4?)
              && (s.ip.V4? ==> Some(s.ip.v4) == addrs.v4)
              && (s.ip.V6? ==>
                    Some(s.ip.v6) == if BeyondTheLink(d.dst.ip.v6) && addrs.v6Routable.Some? then addrs.v6Routable else addrs.v6)
  {
    if d.dst.ip.V6? {
      ScopeIsBeyond(d.dst.ip.v6);
    }
    hide ScopeOf, BeyondTheLink;
  }

  /** Every frame's IP packet is within the MTU, and a datagram that fits it goes out in one frame. */
  lemma FramesKeepToTheMtu(f: Frames, link: LinkType, v6: bool, len: nat, mtu: nat, index: nat)
    requires Lays(f, link, v6, len, mtu) && f.Start(index) <= 8 + len
    ensures f.FrameLen(index) - LinkHeaderSize(link) <= mtu
    ensures (if v6 then 48 else 28) + len <= mtu <==> f.Count() == 1 && f.Start(0) == 0 && f.End(0) == 8 + len
  {
    if !f.fragmented {
      OneWhole(f.datagram);
    }
  }

  lemma OneWhole(n: nat)
    requires n > 0
    ensures (n + n - 1) / n == 1
  {
    assert n + n - 1 == 1 * n + (n - 1);
  }

  /** The MTU planned for: the interface's, or IPv6's least if it is unknown, up to what a frame holds. */
  lemma PlannedMtu(mtu: Option<nat>)
    ensures mtu == None ==> FrameMtu(mtu) == 1280
    ensures mtu.Some? ==> FrameMtu(mtu) <= mtu.value && (FrameMtu(mtu) < mtu.value ==> FrameMtu(mtu) == 60 + 9000)
  {
  }

  /** Two copies of one datagram to peers of one family can be built together or not at all. */
  lemma CopiesBuildTogether(addrs: InterfaceAddresses, link: LinkType, d: Datagram, a: SockAddr, b: SockAddr, mtu: nat)
    requires addrs.Coherent() && a.ip.V4? == b.ip.V4?
    ensures BuildUdp(addrs, link, d.(dst := a), mtu) == BuildUdp(addrs, link, d.(dst := b), mtu)
  {
    if a.ip.V6? {
      ScopesAgree(addrs, ScopeOf(a.ip.v6), ScopeOf(b.ip.v6));
    }
  }

  /** Without it they cannot: a routable peer has a source while a link-local one has none. */
  lemma IncoherentCopiesDiffer() returns (addrs: InterfaceAddresses, d: Datagram, a: SockAddr, b: SockAddr)
    ensures !addrs.Coherent() && a.ip.V6? && b.ip.V6?
    ensures BuildUdp(addrs, RawIp, d.(dst := a), 1500).Success? && BuildUdp(addrs, RawIp, d.(dst := b), 1500).Failure?
  {
    addrs := NO_ADDRESSES.(v6Routable := Some(0x2001_0db8_0000_0000_0000_0000_0000_0001));
    a := SockAddr(V6(0x2001_0db8_0000_0000_0000_0000_0000_0002), 9);
    b := SockAddr(V6(0xfe80_0000_0000_0000_0000_0000_0000_0002), 9);
    d := Datagram(a, FromEgress(9), 64, []);
    assert ScopeOf(a.ip.v6) == RoutableScope && ScopeOf(b.ip.v6) == LinkLocalScope;
  }
}
