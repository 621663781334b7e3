/**
 The cross-reflector rule (src/config/conflict.rs): each entry stands for classes of datagrams,
 its flows, and two entries conflict when they would reflect one packet twice. The verdict is
 computed on flows; here it is tied to the datagrams themselves.
 */
module Conflicts {
  import opened Wrappers
  import opened Primitives
  import opened Ip

  type Port = p: nat | 0 < p < 0x1_0000 witness 1

  predicate Unique<T(==)>(s: seq<T>) {
    forall i, j :: 0 <= i < j < |s| ==> s[i] != s[j]
  }

  predicate Unicast(a: IpAddr) {
    !a.IsMulticast() && a != V4(V4_BROADCAST) && a != V4(0) && a != V6(0)
  }

  /** Non-empty, duplicate-free lists, as the configuration's values parse to. */
  type PortList = s: seq<Port> | s != [] && Unique(s) witness [1]
  type GroupList = s: seq<IpAddr> | s != [] && Unique(s) && (forall i :: 0 <= i < |s| ==> s[i].IsMulticast())
    witness [V4(0xe000_00fb)]
  type PeerList = s: seq<IpAddr> | s != [] && Unique(s) && (forall i :: 0 <= i < |s| ==> Unicast(s[i]))
    witness [V4(0x0a00_0001)]
  type MacSet = s: seq<Mac> | s != [] && Unique(s) witness [0]

  datatype AddressFamily = DefaultFamily | Dual | Ipv4Only | Ipv6Only {
    predicate UsesV4() { !Ipv6Only? }

    predicate UsesV6() { !Ipv4Only? }

    predicate Uses(ip: IpAddr) {
      match ip
      case V4(_) => UsesV4()
      case V6(_) => UsesV6()
    }
  }

  datatype UdpRelay = UdpRelay(ports: PortList, groups: Option<GroupList>, broadcast: bool)
  datatype Mdns = Mdns(services: Option<nat>)
  datatype Ssdp = Ssdp(dial: bool)

  datatype Reflector = Reflector(
    name: string, sourceIf: string, targetIf: string,
    sourcePeers: Option<PeerList>, targetPeers: Option<PeerList>,
    macs: Option<MacSet>, family: AddressFamily,
    wol: Option<PortList>, mdns: Option<Mdns>, ssdp: Option<Ssdp>, wsd: bool,
    bidirectional: bool, udp: Option<UdpRelay>)

  datatype Protocol = WolP | MdnsP | SsdpP | WsdP | UdpP

  datatype Reach = Any(family: AddressFamily) | ToGroup(group: IpAddr) | Broadcast {
    predicate Overlaps(other: Reach) {
      match (this, other)
      case (Any(a), Any(b)) => FamiliesOverlap(a, b)
      case (Any(a), ToGroup(g)) => a.Uses(g)
      case (ToGroup(g), Any(a)) => a.Uses(g)
      case (Any(a), Broadcast) => a.UsesV4()
      case (Broadcast, Any(a)) => a.UsesV4()
      case (ToGroup(a), ToGroup(b)) => a == b
      case (Broadcast, Broadcast) => true
      case (ToGroup(_), Broadcast) => false
      case (Broadcast, ToGroup(_)) => false
    }
  }

  predicate FamiliesOverlap(a: AddressFamily, b: AddressFamily) {
    (a.UsesV4() && b.UsesV4()) || (a.UsesV6() && b.UsesV6())
  }

  predicate MacsOverlap(a: Option<MacSet>, b: Option<MacSet>) {
    a.Some? && b.Some? ==> exists i :: 0 <= i < |a.value| && a.value[i] in b.value
  }

  datatype Leg = Leg(ingress: string, egress: string)

  datatype Flow = Flow(protocol: Protocol, leg: Leg, port: Port, reach: Reach) {
    predicate Overlaps(other: Flow) {
      leg == other.leg && port == other.port && reach.Overlaps(other.reach)
    }
  }

  // ----- What flows mean

  /** A datagram on its way from one interface to the other, as far as flows tell them apart. */
  datatype Passage = Passage(leg: Leg, port: nat, dest: IpAddr)

  /** The IPv4 address and prefix of each interface that has them. */
  type Segments = map<string, (V4Addr, nat)>

  /** No interface has a group as its own address. */
  predicate HostAddressed(segs: Segments) {
    forall i :: i in segs ==> !V4(segs[i].0).IsMulticast()
  }

  predicate Reaches(reach: Reach, dest: IpAddr, ingress: string, segs: Segments) {
    match reach
    case Any(family) => family.Uses(dest)
    case ToGroup(group) => dest == group
    case Broadcast =>
      || dest == V4(V4_BROADCAST)
      || (ingress in segs && dest.V4? && DirectedBroadcast(segs[ingress].0, segs[ingress].1) == Some(dest.v4))
  }

  predicate Admits(f: Flow, d: Passage, segs: Segments) {
    f.leg == d.leg && f.port == d.port && Reaches(f.reach, d.dest, d.leg.ingress, segs)
  }

  predicate GroupIsMulticast(reach: Reach) {
    reach.ToGroup? ==> reach.group.IsMulticast()
  }

  lemma BroadcastIsNoGroup(dest: IpAddr, ingress: string, segs: Segments)
    requires HostAddressed(segs) && Reaches(Broadcast, dest, ingress, segs)
    ensures dest.V4? && !dest.IsMulticast()
  {
    if dest != V4(V4_BROADCAST) {
      DirectedBroadcastIsNoGroup(segs[ingress].0, segs[ingress].1);
    }
  }

  /** A destination both reaches take, if they overlap. */
  function SharedDest(a: Reach, b: Reach): IpAddr
    requires a.Overlaps(b)
  {
    match (a, b)
    case (ToGroup(g), _) => g
    case (_, ToGroup(g)) => g
    case (Broadcast, _) => V4(V4_BROADCAST)
    case (_, Broadcast) => V4(V4_BROADCAST)
    case (Any(f), Any(g)) => if f.UsesV4() && g.UsesV4() then V4(0x0a00_0001) else V6(1)
  }

  /** Two flows overlap exactly when some datagram belongs to both. */
  lemma OverlapsExactly(a: Flow, b: Flow, segs: Segments)
    requires HostAddressed(segs) && GroupIsMulticast(a.reach) && GroupIsMulticast(b.reach)
    ensures a.Overlaps(b) <==> exists d :: Admits(a, d, segs) && Admits(b, d, segs)
  {
    if a.Overlaps(b) {
      var d := Passage(a.leg, a.port, SharedDest(a.reach, b.reach));
      assert Admits(a, d, segs) && Admits(b, d, segs);
    }
    if d :| Admits(a, d, segs) && Admits(b, d, segs) {
      SharedOverlaps(a, b, d, segs);
    }
  }

  lemma SharedOverlaps(a: Flow, b: Flow, d: Passage, segs: Segments)
    requires HostAddressed(segs) && GroupIsMulticast(a.reach) && GroupIsMulticast(b.reach)
    requires Admits(a, d, segs) && Admits(b, d, segs)
    ensures a.Overlaps(b)
  {
    if a.reach.Broadcast? || b.reach.Broadcast? {
      BroadcastIsNoGroup(d.dest, d.leg.ingress, segs);
    }
  }

  // ----- The flows of an entry

  const MDNS_PORT: Port := 5353
  const SSDP_PORT: Port := 1900
  const WSD_PORT: Port := 3702
  const MDNS_GROUPS := [V4(0xe000_00fb), V6(0xff02_0000_0000_0000_0000_0000_0000_00fb)]
  const SSDP_GROUPS := [V4(0xefff_fffa), V6(0xff02_0000_0000_0000_0000_0000_0000_000c), V6(0xff05_0000_0000_0000_0000_0000_0000_000c)]
  const WSD_GROUPS := [V4(0xefff_fffa), V6(0xff02_0000_0000_0000_0000_0000_0000_000c)]

  function Forward(r: Reflector): Leg { Leg(r.sourceIf, r.targetIf) }

  function Backward(r: Reflector): Leg { Leg(r.targetIf, r.sourceIf) }

  function Directions(r: Reflector): seq<Leg> {
    [Forward(r)] + if r.bidirectional then [Backward(r)] else []
  }

  /** Both legs of each group the family uses, whatever the entry's direction. */
  function Discovery(r: Reflector, protocol: Protocol, port: Port, groups: seq<IpAddr>): seq<Flow> {
    if groups == [] then []
    else
      (if r.family.Uses(groups[0])
       then [Flow(protocol, Forward(r), port, ToGroup(groups[0])), Flow(protocol, Backward(r), port, ToGroup(groups[0]))]
       else [])
      + Discovery(r, protocol, port, groups[1..])
  }

  function WolFlows(leg: Leg, ports: seq<Port>, family: AddressFamily): seq<Flow> {
    if ports == [] then [] else [Flow(WolP, leg, ports[0], Any(family))] + WolFlows(leg, ports[1..], family)
  }

  function GroupFlows(leg: Leg, port: Port, groups: seq<IpAddr>): seq<Flow> {
    if groups == [] then [] else [Flow(UdpP, leg, port, ToGroup(groups[0]))] + GroupFlows(leg, port, groups[1..])
  }

  function GroupsOf(udp: UdpRelay): seq<IpAddr> {
    if udp.groups.Some? then udp.groups.value else []
  }

  /** Every port to every group, and to the broadcasts. */
  function RelayFlows(leg: Leg, ports: seq<Port>, groups: seq<IpAddr>, broadcast: bool): seq<Flow> {
    if ports == [] then []
    else
      GroupFlows(leg, ports[0], groups)
      + (if broadcast then [Flow(UdpP, leg, ports[0], Broadcast)] else [])
      + RelayFlows(leg, ports[1..], groups, broadcast)
  }

  function LegFlows(r: Reflector, leg: Leg): seq<Flow> {
    (if r.wol.Some? then WolFlows(leg, r.wol.value, r.family) else [])
    + if r.udp.Some? then RelayFlows(leg, r.udp.value.ports, GroupsOf(r.udp.value), r.udp.value.broadcast) else []
  }

  function DiscoveryFlows(r: Reflector): seq<Flow> {
    (if r.mdns.Some? then Discovery(r, MdnsP, MDNS_PORT, MDNS_GROUPS) else [])
    + (if r.ssdp.Some? then Discovery(r, SsdpP, SSDP_PORT, SSDP_GROUPS) else [])
    + (if r.wsd then Discovery(r, WsdP, WSD_PORT, WSD_GROUPS) else [])
  }

  function Flows(r: Reflector): seq<Flow> {
    DiscoveryFlows(r)
    + LegFlows(r, Forward(r))
    + if r.bidirectional then LegFlows(r, Backward(r)) else []
  }

  /** Which flows an entry has, said without building the list. */
  predicate HasFlow(r: Reflector, f: Flow) {
    match f.protocol
    case MdnsP => r.mdns.Some? && IsDiscovery(r, f, MDNS_PORT, MDNS_GROUPS)
    case SsdpP => r.ssdp.Some? && IsDiscovery(r, f, SSDP_PORT, SSDP_GROUPS)
    case WsdP => r.wsd && IsDiscovery(r, f, WSD_PORT, WSD_GROUPS)
    case WolP => r.wol.Some? && f.leg in Directions(r) && f.port in r.wol.value && f.reach == Any(r.family)
    case UdpP => r.udp.Some? && f.leg in Directions(r) && IsRelay(r.udp.value, f)
  }

  predicate IsDiscovery(r: Reflector, f: Flow, port: Port, groups: seq<IpAddr>) {
    && (f.leg == Forward(r) || f.leg == Backward(r))
    && f.port == port
    && f.reach.ToGroup? && f.reach.group in groups && r.family.Uses(f.reach.group)
  }

  predicate IsRelay(udp: UdpRelay, f: Flow) {
    && f.port in udp.ports
    && match f.reach
       case ToGroup(g) => g in GroupsOf(udp)
       case Broadcast => udp.broadcast
       case Any(_) => false
  }

  lemma {:induction false} DiscoveryHas(r: Reflector, protocol: Protocol, port: Port, groups: seq<IpAddr>, f: Flow)
    ensures f in Discovery(r, protocol, port, groups) <==> f.protocol == protocol && IsDiscovery(r, f, port, groups)
  {
    if groups != [] {
      DiscoveryHas(r, protocol, port, groups[1..], f);
      assert groups == [groups[0]] + groups[1..];
    }
  }

  lemma {:induction false} WolHas(leg: Leg, ports: seq<Port>, family: AddressFamily, f: Flow)
    ensures f in WolFlows(leg, ports, family) <==> f.protocol == WolP && f.leg == leg && f.port in ports && f.reach == Any(family)
  {
    if ports != [] {
      WolHas(leg, ports[1..], family, f);
      assert ports == [ports[0]] + ports[1..];
    }
  }

  lemma {:induction false} GroupHas(leg: Leg, port: Port, groups: seq<IpAddr>, f: Flow)
    ensures f in GroupFlows(leg, port, groups) <==>
              f.protocol == UdpP && f.leg == leg && f.port == port && f.reach.ToGroup? && f.reach.group in groups
  {
    if groups != [] {
      GroupHas(leg, port, groups[1..], f);
      assert groups == [groups[0]] + groups[1..];
    }
  }

  lemma {:induction false} RelayHas(leg: Leg, ports: seq<Port>, groups: seq<IpAddr>, broadcast: bool, f: Flow)
    ensures f in RelayFlows(leg, ports, groups, broadcast) <==>
              && f.protocol == UdpP && f.leg == leg && f.port in ports
              && (if f.reach.ToGroup? then f.reach.group in groups else f.reach.Broadcast? && broadcast)
  {
    if ports != [] {
      GroupHas(leg, ports[0], groups, f);
      RelayHas(leg, ports[1..], groups, broadcast, f);
      assert ports == [ports[0]] + ports[1..];
    }
  }

  lemma LegHas(r: Reflector, leg: Leg, f: Flow)
    ensures f in LegFlows(r, leg) <==>
              f.leg == leg &&
              ((f.protocol == WolP && r.wol.Some? && f.port in r.wol.value && f.reach == Any(r.family))
               || (f.protocol == UdpP && r.udp.Some? && IsRelay(r.udp.value, f)))
  {
    if r.wol.Some? {
      WolHas(leg, r.wol.value, r.family, f);
    }
    if r.udp.Some? {
      RelayHas(leg, r.udp.value.ports, GroupsOf(r.udp.value), r.udp.value.broadcast, f);
    }
  }

  lemma DiscoveryFlowsHas(r: Reflector, f: Flow)
    ensures f in DiscoveryFlows(r) <==> (f.protocol.MdnsP? || f.protocol.SsdpP? || f.protocol.WsdP?) && HasFlow(r, f)
  {
    DiscoveryHas(r, MdnsP, MDNS_PORT, MDNS_GROUPS, f);
    DiscoveryHas(r, SsdpP, SSDP_PORT, SSDP_GROUPS, f);
    DiscoveryHas(r, WsdP, WSD_PORT, WSD_GROUPS, f);
  }

  lemma FlowsExactly(r: Reflector, f: Flow)
    ensures f in Flows(r) <==> HasFlow(r, f)
  {
    DiscoveryFlowsHas(r, f);
    LegHas(r, Forward(r), f);
    LegHas(r, Backward(r), f);
  }

  /**
   The discovery services on the wire: mDNS on port 5353 to 224.0.0.251 and ff02::fb, SSDP on 1900 to
   239.255.255.250, ff02::c and ff05::c, WS-Discovery on 3702 to 239.255.255.250 and ff02::c, each on
   both legs and for the families in use.
   */
  lemma RegisteredServices(r: Reflector, f: Flow)
    requires f.protocol != WolP && f.protocol != UdpP
    ensures f in Flows(r) <==>
              && (f.leg == Leg(r.sourceIf, r.targetIf) || f.leg == Leg(r.targetIf, r.sourceIf))
              && f.reach.ToGroup? && (if f.reach.group.V4? then r.family != Ipv6Only else r.family != Ipv4Only)
              && match f.protocol
                 case MdnsP =>
                   r.mdns.Some? && f.port == 5353 &&
                   f.reach.group in {V4(0xe000_00fb), V6(0xff02_0000_0000_0000_0000_0000_0000_00fb)}
                 case SsdpP =>
                   r.ssdp.Some? && f.port == 1900 &&
                   f.reach.group in {V4(0xefff_fffa), V6(0xff02_0000_0000_0000_0000_0000_0000_000c), V6(0xff05_0000_0000_0000_0000_0000_0000_000c)}
                 case WsdP =>
                   r.wsd && f.port == 3702 &&
                   f.reach.group in {V4(0xefff_fffa), V6(0xff02_0000_0000_0000_0000_0000_0000_000c)}
                 case WolP => false
                 case UdpP => false
  {
    FlowsExactly(r, f);
    hide Flows;
  }

  /**
   Wake-on-LAN and the relay go the entry's way, and both ways if it is bidirectional: every port to
   any destination of the families in use, and every relay port to each group and, if asked, to the
   broadcasts.
   */
  lemma DirectedFlows(r: Reflector, f: Flow)
    requires f.protocol == WolP || f.protocol == UdpP
    ensures f in Flows(r) <==>
              && (f.leg == Leg(r.sourceIf, r.targetIf) || (r.bidirectional && f.leg == Leg(r.targetIf, r.sourceIf)))
              && if f.protocol == WolP then r.wol.Some? && f.port in r.wol.value && f.reach == Any(r.family)
                 else
                   && r.udp.Some? && f.port in r.udp.value.ports
                   && (|| (f.reach == Broadcast && r.udp.value.broadcast)
                       || (f.reach.ToGroup? && r.udp.value.groups.Some? && f.reach.group in r.udp.value.groups.value))
  {
    FlowsExactly(r, f);
    hide Flows;
  }

  /** The entry as seen from the other side. */
  function Reversed(r: Reflector): Reflector {
    r.(sourceIf := r.targetIf, targetIf := r.sourceIf, sourcePeers := r.targetPeers, targetPeers := r.sourcePeers)
  }

  /** A bidirectional entry has the flows of its two one-way legs, and no more. */
  lemma BothLegsMakeTheEntry(r: Reflector, f: Flow)
    requires r.bidirectional
    ensures Reversed(Reversed(r)) == r
    ensures f in Flows(r) <==>
              f in Flows(r.(bidirectional := false)) || f in Flows(Reversed(r).(bidirectional := false))
  {
    FlowsExactly(r, f);
    FlowsExactly(r.(bidirectional := false), f);
    FlowsExactly(Reversed(r).(bidirectional := false), f);
    hide Flows;
  }

  // ----- The list as the daemon builds it

  method AddDiscovery(flows: seq<Flow>, r: Reflector, protocol: Protocol, port: Port, groups: seq<IpAddr>)
      returns (all: seq<Flow>)
    ensures all == flows + Discovery(r, protocol, port, groups)
  {
    all := flows;
    var i := 0;
    while i < |groups|
      invariant i <= |groups|
      invariant all + Discovery(r, protocol, port, groups[i..]) == flows + Discovery(r, protocol, port, groups)
    {
      assert groups[i..][1..] == groups[i + 1..];
      if r.family.Uses(groups[i]) {
        all := all + [Flow(protocol, Forward(r), port, ToGroup(groups[i])), Flow(protocol, Backward(r), port, ToGroup(groups[i]))];
      }
      i := i + 1;
    }
  }

  method AddWol(flows: seq<Flow>, leg: Leg, ports: seq<Port>, family: AddressFamily) returns (all: seq<Flow>)
    ensures all == flows + WolFlows(leg, ports, family)
  {
    all := flows;
    for i := 0 to |ports|
      invariant all + WolFlows(leg, ports[i..], family) == flows + WolFlows(leg, ports, family)
    {
      assert ports[i..][1..] == ports[i + 1..];
      all := all + [Flow(WolP, leg, ports[i], Any(family))];
    }
  }

  method AddGroups(flows: seq<Flow>, leg: Leg, port: Port, groups: seq<IpAddr>) returns (all: seq<Flow>)
    ensures all == flows + GroupFlows(leg, port, groups)
  {
    all := flows;
    for i := 0 to |groups|
      invariant all + GroupFlows(leg, port, groups[i..]) == flows + GroupFlows(leg, port, groups)
    {
      assert groups[i..][1..] == groups[i + 1..];
      all := all + [Flow(UdpP, leg, port, ToGroup(groups[i]))];
    }
  }

  method AddRelay(flows: seq<Flow>, leg: Leg, ports: seq<Port>, groups: seq<IpAddr>, broadcast: bool) returns (all: seq<Flow>)
    ensures all == flows + RelayFlows(leg, ports, groups, broadcast)
  {
    hide GroupFlows;
    all := flows;
    for i := 0 to |ports|
      invariant all + RelayFlows(leg, ports[i..], groups, broadcast) == flows + RelayFlows(leg, ports, groups, broadcast)
    {
      assert ports[i..][1..] == ports[i + 1..];
      all := AddGroups(all, leg, ports[i], groups);
      if broadcast {
        all := all + [Flow(UdpP, leg, ports[i], Broadcast)];
      }
    }
  }

  method AddLeg(flows: seq<Flow>, r: Reflector, leg: Leg) returns (all: seq<Flow>)
    ensures all == flows + LegFlows(r, leg)
  {
    hide WolFlows, RelayFlows;
    all := flows;
    if r.wol.Some? {
      all := AddWol(all, leg, r.wol.value, r.family);
    }
    if r.udp.Some? {
      all := AddRelay(all, leg, r.udp.value.ports, GroupsOf(r.udp.value), r.udp.value.broadcast);
    }
  }

  method BuildFlows(r: Reflector) returns (flows: seq<Flow>)
    ensures flows == Flows(r)
    ensures forall f :: f in flows <==> HasFlow(r, f)
  {
    hide Discovery, LegFlows, HasFlow;
    flows := [];
    if r.mdns.Some? {
      flows := AddDiscovery(flows, r, MdnsP, MDNS_PORT, MDNS_GROUPS);
    }
    if r.ssdp.Some? {
      flows := AddDiscovery(flows, r, SsdpP, SSDP_PORT, SSDP_GROUPS);
    }
    if r.wsd {
      flows := AddDiscovery(flows, r, WsdP, WSD_PORT, WSD_GROUPS);
    }
    assert flows == DiscoveryFlows(r);
    var legs, i := Directions(r), 0;
    while i < |legs|
      invariant i <= |legs|
      invariant flows == DiscoveryFlows(r) + (if i > 0 then LegFlows(r, legs[0]) else []) + if i > 1 then LegFlows(r, legs[1]) else []
    {
      flows := AddLeg(flows, r, legs[i]);
      i := i + 1;
    }
    forall f
      ensures f in flows <==> HasFlow(r, f)
    {
      FlowsExactly(r, f);
    }
  }
}
