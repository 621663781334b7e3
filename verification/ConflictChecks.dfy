/** The conflict verdict between entries and over a configuration, and what acceptance promises. */
module ConflictChecks {
  import opened Wrappers
  import opened Primitives
  import opened Ip
  import opened Conflicts

  /** Some relay flow among `mine` overlaps `f`. */
  predicate RelayHits(mine: seq<Flow>, f: Flow) {
    exists i :: 0 <= i < |mine| && mine[i].protocol == UdpP && mine[i].Overlaps(f)
  }

  function FirstHit(mine: seq<Flow>, others: seq<Flow>): (r: Option<Flow>)
    ensures r.Some? ==> r.value in others && RelayHits(mine, r.value) && NoneHitBefore(mine, others, r.value)
    ensures r.None? ==> forall f :: f in others ==> !RelayHits(mine, f)
  {
    if others == [] then None
    else if RelayHits(mine, others[0]) then Some(others[0])
    else
      var r := FirstHit(mine, others[1..]);
      assert r.Some? ==> NoneHitBefore(mine, others, r.value) by {
        if r.Some? {
          var k :| 0 <= k < |others[1..]| && others[1..][k] == r.value && forall j :: 0 <= j < k ==> !RelayHits(mine, others[1..][j]);
          assert others[k + 1] == r.value;
          assert forall j :: 0 < j < k + 1 ==> others[j] == others[1..][j - 1];
        }
      }
      r
  }

  ghost predicate NoneHitBefore(mine: seq<Flow>, others: seq<Flow>, f: Flow) {
    exists k :: 0 <= k < |others| && others[k] == f && forall j :: 0 <= j < k ==> !RelayHits(mine, others[j])
  }

  /** The first of `others` that the entry's relay also carries. */
  function RelayOverlap(r: Reflector, others: seq<Flow>): Option<Flow> {
    FirstHit(Flows(r), others)
  }

  function NotRelay(flows: seq<Flow>): (r: seq<Flow>)
    ensures forall f :: f in r <==> f in flows && f.protocol != UdpP
  {
    if flows == [] then []
    else
      assert flows == [flows[0]] + flows[1..];
      (if flows[0].protocol != UdpP then [flows[0]] else []) + NotRelay(flows[1..])
  }

  /** The entry's relay would carry one of its own other protocols a second time. */
  function RelayDuplicates(r: Reflector): Option<(Protocol, Port)> {
    var hit := RelayOverlap(r, NotRelay(Flows(r)));
    if hit.Some? then Some((hit.value.protocol, hit.value.port)) else None
  }

  function FirstShared(mine: seq<Leg>, theirs: seq<Leg>): (r: Option<Leg>)
    ensures r.Some? ==> r.value in mine && r.value in theirs
    ensures r.None? ==> forall l :: l in mine ==> l !in theirs
  {
    if mine == [] then None
    else if mine[0] in theirs then Some(mine[0])
    else FirstShared(mine[1..], theirs)
  }

  predicate SharesPort(a: PortList, b: PortList) {
    exists i :: 0 <= i < |a| && a[i] in b
  }

  function SharedProtocol(a: Reflector, b: Reflector): Option<(Protocol, Leg)> {
    var leg := FirstShared(Directions(a), Directions(b));
    if leg.None? || !MacsOverlap(a.macs, b.macs) || !FamiliesOverlap(a.family, b.family) then None
    else if a.wol.Some? && b.wol.Some? && SharesPort(a.wol.value, b.wol.value) then Some((WolP, leg.value))
    else if a.mdns.Some? && b.mdns.Some? then Some((MdnsP, leg.value))
    else if a.ssdp.Some? && b.ssdp.Some? then Some((SsdpP, leg.value))
    else if a.wsd && b.wsd then Some((WsdP, leg.value))
    else None
  }

  function ConflictsWith(a: Reflector, b: Reflector): Option<(Protocol, Leg)> {
    var shared := SharedProtocol(a, b);
    if shared.Some? then shared
    else
      var theirs := RelayOverlap(a, Flows(b));
      var hit := if theirs.Some? then theirs else RelayOverlap(b, Flows(a));
      if hit.Some? then Some((hit.value.protocol, hit.value.leg)) else None
  }

  // ----- What the verdict means

  /** What one device's packets of one IP version in one direction are reflected as. */
  datatype Service = WolOn(port: Port) | MdnsS | SsdpS | WsdS

  predicate Reflects(r: Reflector, leg: Leg, v6: bool, mac: Mac, service: Service) {
    && leg in Directions(r)
    && (if v6 then r.family.UsesV6() else r.family.UsesV4())
    && (r.macs.Some? ==> mac in r.macs.value)
    && match service
       case WolOn(port) => r.wol.Some? && port in r.wol.value
       case MdnsS => r.mdns.Some?
       case SsdpS => r.ssdp.Some?
       case WsdS => r.wsd
  }

  predicate BothReflect(a: Reflector, b: Reflector, leg: Leg, v6: bool, mac: Mac, service: Service) {
    Reflects(a, leg, v6, mac, service) && Reflects(b, leg, v6, mac, service)
  }

  lemma SharedMac(a: Option<MacSet>, b: Option<MacSet>) returns (mac: Mac)
    requires MacsOverlap(a, b)
    ensures (a.Some? ==> mac in a.value) && (b.Some? ==> mac in b.value)
  {
    if a.Some? && b.Some? {
      var i :| 0 <= i < |a.value| && a.value[i] in b.value;
      mac := a.value[i];
    } else if a.Some? {
      mac := a.value[0];
    } else if b.Some? {
      mac := b.value[0];
    } else {
      mac := 0;
    }
  }

  /** Two entries share a protocol exactly when some device's packet would be reflected by both. */
  lemma SharedProtocolExactly(a: Reflector, b: Reflector)
    ensures SharedProtocol(a, b).Some? <==> exists leg, v6, mac, service :: BothReflect(a, b, leg, v6, mac, service)
  {
    if SharedProtocol(a, b).Some? {
      SharedIsReflectedTwice(a, b);
      var v6, mac, service :| BothReflect(a, b, SharedProtocol(a, b).value.1, v6, mac, service);
    }
    if leg, v6, mac, service :| BothReflect(a, b, leg, v6, mac, service) {
      SharedWhenBothReflect(a, b, leg, v6, mac, service);
    }
  }

  lemma SharedWhenBothReflect(a: Reflector, b: Reflector, leg: Leg, v6: bool, mac: Mac, service: Service)
    requires BothReflect(a, b, leg, v6, mac, service)
    ensures SharedProtocol(a, b).Some?
  {
    assert FirstShared(Directions(a), Directions(b)).Some?;
    if a.macs.Some? && b.macs.Some? {
      var i :| 0 <= i < |a.macs.value| && a.macs.value[i] == mac;
    }
    if service.WolOn? {
      var i :| 0 <= i < |a.wol.value| && a.wol.value[i] == service.port;
    }
  }

  /** A relay flow of one entry and a flow of the other carry a common datagram. */
  predicate RelayClash(a: Reflector, b: Reflector, u: Flow, f: Flow) {
    HasFlow(a, u) && u.protocol == UdpP && HasFlow(b, f) && u.Overlaps(f)
  }

  lemma RelayOverlapExactly(a: Reflector, b: Reflector)
    ensures RelayOverlap(a, Flows(b)).Some? <==> exists u, f :: RelayClash(a, b, u, f)
  {
    var hit := RelayOverlap(a, Flows(b));
    if hit.Some? {
      var i :| 0 <= i < |Flows(a)| && Flows(a)[i].protocol == UdpP && Flows(a)[i].Overlaps(hit.value);
      FlowsExactly(a, Flows(a)[i]);
      FlowsExactly(b, hit.value);
      assert RelayClash(a, b, Flows(a)[i], hit.value);
    }
    if u, f :| RelayClash(a, b, u, f) {
      FlowsExactly(a, u);
      FlowsExactly(b, f);
      var i :| 0 <= i < |Flows(a)| && Flows(a)[i] == u;
      assert RelayHits(Flows(a), f);
    }
  }

  /** Two entries conflict exactly when both reflect some packet, as a protocol or through a relay. */
  lemma ConflictExactly(a: Reflector, b: Reflector)
    ensures ConflictsWith(a, b).Some? <==>
              || (exists leg, v6, mac, service :: BothReflect(a, b, leg, v6, mac, service))
              || (exists u, f :: RelayClash(a, b, u, f))
              || (exists u, f :: RelayClash(b, a, u, f))
  {
    SharedProtocolExactly(a, b);
    RelayOverlapExactly(a, b);
    RelayOverlapExactly(b, a);
  }

  lemma ConflictIsSymmetric(a: Reflector, b: Reflector)
    ensures ConflictsWith(a, b).Some? <==> ConflictsWith(b, a).Some?
  {
    ConflictExactly(a, b);
    ConflictExactly(b, a);
    if leg, v6, mac, service :| BothReflect(a, b, leg, v6, mac, service) {
      assert BothReflect(b, a, leg, v6, mac, service);
    }
    if leg, v6, mac, service :| BothReflect(b, a, leg, v6, mac, service) {
      assert BothReflect(a, b, leg, v6, mac, service);
    }
  }

  /** `r` carries something from the leg's ingress to its egress. */
  predicate RelaysOn(r: Reflector, leg: Leg) {
    leg == Forward(r) || leg == Backward(r)
  }

  /** The leg a conflict names is one both entries relay on. */
  lemma ReportedLegIsShared(a: Reflector, b: Reflector)
    requires ConflictsWith(a, b).Some?
    ensures RelaysOn(a, ConflictsWith(a, b).value.1) && RelaysOn(b, ConflictsWith(a, b).value.1)
  {
    var leg := ConflictsWith(a, b).value.1;
    if SharedProtocol(a, b).None? {
      var theirs := RelayOverlap(a, Flows(b));
      if theirs.Some? {
        HitLegIsShared(a, b, theirs.value);
      } else {
        HitLegIsShared(b, a, RelayOverlap(b, Flows(a)).value);
      }
    }
  }

  lemma HitLegIsShared(a: Reflector, b: Reflector, f: Flow)
    requires f in Flows(b) && RelayHits(Flows(a), f)
    ensures RelaysOn(a, f.leg) && RelaysOn(b, f.leg)
  {
    var i :| 0 <= i < |Flows(a)| && Flows(a)[i].protocol == UdpP && Flows(a)[i].Overlaps(f);
    FlowsExactly(a, Flows(a)[i]);
    FlowsExactly(b, f);
  }

  predicate Within(service: Service, protocol: Protocol) {
    match service
    case WolOn(_) => protocol == WolP
    case MdnsS => protocol == MdnsP
    case SsdpS => protocol == SsdpP
    case WsdS => protocol == WsdP
  }

  /** Both entries reflect some packet of `protocol` in the direction of `leg`. */
  ghost predicate ReflectTwice(a: Reflector, b: Reflector, protocol: Protocol, leg: Leg) {
    exists v6, mac, service :: BothReflect(a, b, leg, v6, mac, service) && Within(service, protocol)
  }

  /** A relay flow of `a` carries what `b` carries as `protocol` on `leg`. */
  ghost predicate RelayTwice(a: Reflector, b: Reflector, protocol: Protocol, leg: Leg) {
    exists u, f :: RelayClash(a, b, u, f) && f.protocol == protocol && f.leg == leg
  }

  /** The protocol and the leg a conflict names are those of a packet both entries carry. */
  lemma ReportedIsCarriedTwice(a: Reflector, b: Reflector)
    requires ConflictsWith(a, b).Some?
    ensures var (protocol, leg) := ConflictsWith(a, b).value;
            ReflectTwice(a, b, protocol, leg) || RelayTwice(a, b, protocol, leg) || RelayTwice(b, a, protocol, leg)
  {
    hide RelayOverlap, SharedProtocol, Flows;
    if SharedProtocol(a, b).Some? {
      SharedIsReflectedTwice(a, b);
    } else if RelayOverlap(a, Flows(b)).Some? {
      HitIsRelayedTwice(a, b);
    } else {
      HitIsRelayedTwice(b, a);
    }
  }

  lemma SharedIsReflectedTwice(a: Reflector, b: Reflector)
    requires SharedProtocol(a, b).Some?
    ensures var (protocol, leg) := SharedProtocol(a, b).value; ReflectTwice(a, b, protocol, leg)
  {
    var (protocol, leg) := SharedProtocol(a, b).value;
    var mac := SharedMac(a.macs, b.macs);
    var v6 := !(a.family.UsesV4() && b.family.UsesV4());
    var service := ServiceOf(a, b, protocol);
    assert BothReflect(a, b, leg, v6, mac, service);
  }

  /** Of several shared protocols the one named is the first of these, on the entry's own way if that is shared. */
  lemma FirstSharedIsNamed(a: Reflector, b: Reflector)
    requires SharedProtocol(a, b).Some?
    ensures var (protocol, leg) := SharedProtocol(a, b).value;
            && protocol == (if a.wol.Some? && b.wol.Some? && SharesPort(a.wol.value, b.wol.value) then WolP
                            else if a.mdns.Some? && b.mdns.Some? then MdnsP
                            else if a.ssdp.Some? && b.ssdp.Some? then SsdpP else WsdP)
            && leg == if Forward(a) in Directions(b) then Forward(a) else Backward(a)
  {
    assert Directions(a)[0] == Forward(a);
    assert FirstShared(Directions(a), Directions(b)).value in Directions(a);
  }

  ghost function ServiceOf(a: Reflector, b: Reflector, protocol: Protocol): (s: Service)
    requires protocol != UdpP && (protocol == WolP ==> a.wol.Some? && b.wol.Some? && SharesPort(a.wol.value, b.wol.value))
    ensures Within(s, protocol)
    ensures protocol == WolP ==> s.WolOn? && s.port in a.wol.value && s.port in b.wol.value
  {
    match protocol
    case WolP => (var i :| 0 <= i < |a.wol.value| && a.wol.value[i] in b.wol.value; WolOn(a.wol.value[i]))
    case MdnsP => MdnsS
    case SsdpP => SsdpS
    case WsdP => WsdS
  }

  lemma HitIsRelayedTwice(a: Reflector, b: Reflector)
    requires RelayOverlap(a, Flows(b)).Some?
    ensures var f := RelayOverlap(a, Flows(b)).value; RelayTwice(a, b, f.protocol, f.leg)
  {
    hide Flows, HasFlow;
    var f := RelayOverlap(a, Flows(b)).value;
    var i :| 0 <= i < |Flows(a)| && Flows(a)[i].protocol == UdpP && Flows(a)[i].Overlaps(f);
    FlowsExactly(a, Flows(a)[i]);
    FlowsExactly(b, f);
    assert RelayClash(a, b, Flows(a)[i], f);
  }

  // ----- A whole configuration

  datatype Verdict =
    | NoConflicts
    | DuplicateName(name: string)
    | Conflicting(protocol: Protocol, first: string, second: string, leg: Leg)

  predicate Compatible(a: Reflector, b: Reflector) {
    a.name != b.name && ConflictsWith(a, b).None?
  }

  predicate Accepted(rs: seq<Reflector>) {
    forall i, j :: 0 <= i < j < |rs| ==> Compatible(rs[i], rs[j])
  }

  /** The pair at `i` and `j` is not compatible, and every pair before it is. */
  predicate FirstBadPair(rs: seq<Reflector>, i: int, j: int) {
    && 0 <= i < j < |rs| && !Compatible(rs[i], rs[j])
    && (forall a, b :: 0 <= a < i && a < b < |rs| ==> Compatible(rs[a], rs[b]))
    && (forall b :: i < b < j ==> Compatible(rs[i], rs[b]))
  }

  method CheckConflicts(rs: seq<Reflector>) returns (v: Verdict)
    ensures v == NoConflicts <==> Accepted(rs)
    ensures v.DuplicateName? ==> exists i, j :: FirstBadPair(rs, i, j) && rs[i].name == rs[j].name == v.name
    ensures v.Conflicting? ==>
              exists i, j :: FirstBadPair(rs, i, j) && rs[i].name == v.first != v.second == rs[j].name
                             && ConflictsWith(rs[i], rs[j]) == Some((v.protocol, v.leg))
  {
    hide ConflictsWith;
    var i := 0;
    while i < |rs|
      invariant i <= |rs|
      invariant forall a, b :: 0 <= a < i && a < b < |rs| ==> Compatible(rs[a], rs[b])
    {
      var j := i + 1;
      while j < |rs|
        invariant i < j <= |rs|
        invariant forall b :: i < b < j ==> Compatible(rs[i], rs[b])
      {
        if rs[i].name == rs[j].name {
          assert FirstBadPair(rs, i, j);
          return DuplicateName(rs[i].name);
        }
        var conflict := ConflictsWith(rs[i], rs[j]);
        if conflict.Some? {
          assert FirstBadPair(rs, i, j);
          return Conflicting(conflict.value.0, rs[i].name, rs[j].name, conflict.value.1);
        }
        j := j + 1;
      }
      i := i + 1;
    }
    return NoConflicts;
  }

  lemma CompatibleIsSymmetric(a: Reflector, b: Reflector)
    ensures Compatible(a, b) <==> Compatible(b, a)
  {
    ConflictIsSymmetric(a, b);
  }

  lemma {:induction false} SecondPlace<T>(s: seq<T>, x: T) returns (p: nat, q: nat)
    requires multiset(s)[x] >= 2
    ensures p < q < |s| && s[p] == x == s[q]
  {
    var n := |s| - 1;
    assert s == s[..n] + [s[n]];
    if s[n] == x {
      assert x in multiset(s[..n]);
      q := n;
      p :| 0 <= p < n && s[..n][p] == x;
    } else {
      p, q := SecondPlace(s[..n], x);
    }
  }

  lemma {:induction false} TwoPlaces<T>(s: seq<T>, i: nat, j: nat)
    requires i < j < |s| && s[i] == s[j]
    ensures multiset(s)[s[i]] >= 2
  {
    assert s == s[..j] + [s[j]] + s[j + 1..];
    assert s[..j][i] == s[i] && s[i] in s[..j];
    assert s[i] in multiset(s[..j]);
  }

  lemma NoRepeats(xs: seq<Reflector>, x: Reflector)
    requires Accepted(xs)
    ensures multiset(xs)[x] <= 1
  {
    if multiset(xs)[x] >= 2 {
      var p, q := SecondPlace(xs, x);
    }
  }

  /** Acceptance does not depend on the order of the entries. */
  lemma OrderDoesNotMatter(xs: seq<Reflector>, ys: seq<Reflector>)
    requires multiset(xs) == multiset(ys) && Accepted(xs)
    ensures Accepted(ys)
  {
    forall i, j | 0 <= i < j < |ys|
      ensures Compatible(ys[i], ys[j])
    {
      NoRepeats(xs, ys[i]);
      assert ys[i] != ys[j] by {
        if ys[i] == ys[j] {
          TwoPlaces(ys, i, j);
        }
      }
      assert ys[i] in multiset(xs) && ys[j] in multiset(xs);
      var p :| 0 <= p < |xs| && xs[p] == ys[i];
      var q :| 0 <= q < |xs| && xs[q] == ys[j];
      CompatibleIsSymmetric(ys[i], ys[j]);
      assert p < q ==> Compatible(xs[p], xs[q]);
      assert q < p ==> Compatible(xs[q], xs[p]);
    }
  }

  // ----- What an accepted configuration promises

  /** At most one entry reflects a given service of a given device in a direction and IP version. */
  lemma OneReflectorPerService(rs: seq<Reflector>, i: nat, j: nat, leg: Leg, v6: bool, mac: Mac, service: Service)
    requires Accepted(rs) && i < |rs| && j < |rs|
    requires BothReflect(rs[i], rs[j], leg, v6, mac, service)
    ensures i == j
  {
    SharedWhenBothReflect(rs[i], rs[j], leg, v6, mac, service);
    assert BothReflect(rs[j], rs[i], leg, v6, mac, service);
    SharedWhenBothReflect(rs[j], rs[i], leg, v6, mac, service);
  }

  lemma {:induction false} DiscoveryHasNoRelay(r: Reflector, u: Flow)
    requires u.protocol == UdpP
    ensures multiset(DiscoveryFlows(r))[u] == 0
  {
    DiscoveryFlowsHas(r, u);
    assert u !in DiscoveryFlows(r);
  }

  lemma {:induction false} GroupOnce(leg: Leg, port: Port, groups: seq<IpAddr>, u: Flow)
    requires Unique(groups)
    ensures multiset(GroupFlows(leg, port, groups))[u] <= 1
  {
    if groups != [] {
      GroupOnce(leg, port, groups[1..], u);
      GroupHas(leg, port, groups[1..], u);
      assert forall i :: 0 <= i < |groups[1..]| ==> groups[1..][i] == groups[i + 1];
      assert groups[0] !in groups[1..];
      assert u in multiset(GroupFlows(leg, port, groups[1..])) <==> u in GroupFlows(leg, port, groups[1..]);
    }
  }

  lemma PortOnce(leg: Leg, port: Port, groups: seq<IpAddr>, broadcast: bool, u: Flow)
    requires Unique(groups)
    ensures multiset(GroupFlows(leg, port, groups) + if broadcast then [Flow(UdpP, leg, port, Broadcast)] else [])[u] <= 1
  {
    GroupOnce(leg, port, groups, u);
    GroupHas(leg, port, groups, u);
    assert u in multiset(GroupFlows(leg, port, groups)) <==> u in GroupFlows(leg, port, groups);
  }

  lemma {:induction false} RelayOnce(leg: Leg, ports: seq<Port>, groups: seq<IpAddr>, broadcast: bool, u: Flow)
    requires Unique(ports) && Unique(groups)
    ensures multiset(RelayFlows(leg, ports, groups, broadcast))[u] <= 1
  {
    if ports != [] {
      var head := GroupFlows(leg, ports[0], groups) + if broadcast then [Flow(UdpP, leg, ports[0], Broadcast)] else [];
      var tail := RelayFlows(leg, ports[1..], groups, broadcast);
      PortOnce(leg, ports[0], groups, broadcast, u);
      assert forall i :: 0 <= i < |ports[1..]| ==> ports[1..][i] == ports[i + 1];
      assert ports[0] !in ports[1..];
      RelayOnce(leg, ports[1..], groups, broadcast, u);
      RelayHas(leg, ports[1..], groups, broadcast, u);
      GroupHas(leg, ports[0], groups, u);
      assert RelayFlows(leg, ports, groups, broadcast) == head + tail;
      assert u in multiset(head) <==> u in head;
      assert u in multiset(tail) <==> u in tail;
    }
  }

  lemma LegOnce(r: Reflector, leg: Leg, u: Flow)
    requires u.protocol == UdpP
    ensures multiset(LegFlows(r, leg))[u] <= if u.leg == leg then 1 else 0
  {
    LegHas(r, leg, u);
    if u.leg != leg {
      assert u !in LegFlows(r, leg);
    } else {
      var wol := if r.wol.Some? then WolFlows(leg, r.wol.value, r.family) else [];
      if r.wol.Some? {
        WolHas(leg, r.wol.value, r.family, u);
      }
      assert u !in wol && multiset(wol)[u] == 0;
      if r.udp.Some? {
        RelayOnce(leg, r.udp.value.ports, GroupsOf(r.udp.value), r.udp.value.broadcast, u);
      }
    }
  }

  /** An entry lists each of its relay flows once. */
  lemma RelayFlowsOnce(r: Reflector, u: Flow)
    requires r.sourceIf != r.targetIf && u in Flows(r) && u.protocol == UdpP
    ensures multiset(Flows(r))[u] == 1
  {
    DiscoveryHasNoRelay(r, u);
    LegOnce(r, Forward(r), u);
    LegOnce(r, Backward(r), u);
    assert u in multiset(Flows(r));
  }

  lemma FlowGroupsAreMulticast(r: Reflector, f: Flow)
    requires HasFlow(r, f)
    ensures GroupIsMulticast(f.reach)
  {
    if f.protocol.UdpP? && f.reach.ToGroup? {
      var i :| 0 <= i < |GroupsOf(r.udp.value)| && GroupsOf(r.udp.value)[i] == f.reach.group;
    }
  }

  /** The per-entry rules this promise rests on. */
  predicate Sound(r: Reflector) {
    r.sourceIf != r.targetIf && RelayDuplicates(r).None?
  }

  lemma OwnFlowsOverlapOnlyThemselves(r: Reflector, u: Flow, f: Flow)
    requires Sound(r) && HasFlow(r, u) && u.protocol == UdpP && HasFlow(r, f) && u.Overlaps(f)
    ensures f == u
  {
    hide Flows;
    FlowsExactly(r, u);
    FlowsExactly(r, f);
    assert RelayHits(Flows(r), f);
    assert f.protocol == UdpP;
  }

  /**
   In every accepted configuration a datagram some relay flow admits is admitted by no other flow
   of any entry, its own included.
   */
  lemma NoDoubleRelay(rs: seq<Reflector>, segs: Segments, d: Passage, i: nat, u: Flow, j: nat, f: Flow)
    requires Accepted(rs) && (forall k :: 0 <= k < |rs| ==> Sound(rs[k])) && HostAddressed(segs)
    requires i < |rs| && u in Flows(rs[i]) && u.protocol == UdpP && Admits(u, d, segs)
    requires j < |rs| && f in Flows(rs[j]) && Admits(f, d, segs)
    ensures i == j && f == u && multiset(Flows(rs[i]))[u] == 1
  {
    FlowsExactly(rs[i], u);
    FlowsExactly(rs[j], f);
    FlowGroupsAreMulticast(rs[i], u);
    FlowGroupsAreMulticast(rs[j], f);
    SharedOverlaps(u, f, d, segs);
    assert RelayClash(rs[i], rs[j], u, f);
    ConflictExactly(rs[i], rs[j]);
    CompatibleIsSymmetric(rs[i], rs[j]);
    OwnFlowsOverlapOnlyThemselves(rs[i], u, f);
    RelayFlowsOnce(rs[i], u);
  }
}
