/**
 Validating entries and falling back to IPv4 (src/config.rs). An entry that passed the rules,
 written back as raw values, passes them again as itself; the fallback keeps that, keeps the
 configuration free of conflicts, and keeps exactly the IPv4 traffic.
 */
module Configs {
  import opened Wrappers
  import opened Ip
  import opened Conflicts
  import opened ConflictChecks

  datatype RawReflector = RawReflector(
    name: Option<string>, sourceIf: string, targetIf: string,
    sourcePeers: Option<PeerList>, targetPeers: Option<PeerList>,
    macs: Option<MacSet>, family: AddressFamily,
    wol: bool, wolPorts: Option<PortList>,
    mdns: bool, mdnsServices: Option<nat>,
    ssdp: bool, dial: bool, wsd: bool, bidirectional: bool,
    udpPorts: Option<PortList>, udpGroups: Option<GroupList>, udpBroadcast: bool)

  datatype ConfigError =
    | EmptyReflectorName(key: string)
    | PeerFamily(name: string, peer: IpAddr)
    | SameInterface(name: string)
    | UdpRelayWithoutPorts(name: string)
    | UdpRelayNoDestination(name: string)
    | UdpBroadcastFamily(name: string)
    | UdpGroupFamily(name: string, group: IpAddr)
    | NoProtocol(name: string)
    | WolPortsWithoutWol(name: string)
    | MdnsServicesWithoutMdns(name: string)
    | MacsUnused(name: string)
    | DialWithoutSsdp(name: string)
    | DialRequiresIpv4(name: string)
    | UdpRelayDuplicates(name: string, port: Port, protocol: Protocol)
    | Ipv6OnlyRelay(name: string)
    | Ipv6OnlyPeers(name: string, source: bool)

  const WOL_DEFAULT_PORTS: PortList := [7, 9]

  /** The first address the family does not use. */
  function FirstForeign(list: seq<IpAddr>, family: AddressFamily): (r: Option<IpAddr>)
    ensures r.None? <==> forall i :: 0 <= i < |list| ==> family.Uses(list[i])
    ensures r.Some? ==> IsFirstForeign(list, family, r.value)
  {
    if list == [] then None
    else if !family.Uses(list[0]) then Some(list[0])
    else
      var r := FirstForeign(list[1..], family);
      assert r.Some? ==> IsFirstForeign(list, family, r.value) by {
        if r.Some? {
          var k :| 0 <= k < |list[1..]| && list[1..][k] == r.value && forall i :: 0 <= i < k ==> family.Uses(list[1..][i]);
          assert list[k + 1] == r.value;
          assert forall i :: 0 < i < k + 1 ==> list[i] == list[1..][i - 1];
        }
      }
      r
  }

  ghost predicate IsFirstForeign(list: seq<IpAddr>, family: AddressFamily, a: IpAddr) {
    !family.Uses(a) && exists k :: 0 <= k < |list| && list[k] == a && forall i :: 0 <= i < k ==> family.Uses(list[i])
  }

  function ListOf<T>(l: Option<seq<T>>): seq<T> {
    if l.Some? then l.value else []
  }

  function RelayOf(raw: RawReflector, name: string): Result<Option<UdpRelay>, ConfigError> {
    if raw.udpPorts.None? then
      if raw.udpGroups.None? && !raw.udpBroadcast then Success(None) else Failure(UdpRelayWithoutPorts(name))
    else if raw.udpGroups.None? && !raw.udpBroadcast then Failure(UdpRelayNoDestination(name))
    else if raw.udpBroadcast && !raw.family.UsesV4() then Failure(UdpBroadcastFamily(name))
    else
      var foreign := FirstForeign(ListOf(raw.udpGroups), raw.family);
      if foreign.Some? then Failure(UdpGroupFamily(name, foreign.value))
      else Success(Some(UdpRelay(raw.udpPorts.value, raw.udpGroups, raw.udpBroadcast)))
  }

  /** The entry `raw` describes, once its relay is known. */
  function Entry(raw: RawReflector, name: string, udp: Option<UdpRelay>): Reflector {
    Reflector(
      name, raw.sourceIf, raw.targetIf, raw.sourcePeers, raw.targetPeers, raw.macs, raw.family,
      if raw.wol then (if raw.wolPorts.Some? then raw.wolPorts else Some(WOL_DEFAULT_PORTS)) else None,
      if raw.mdns then Some(Mdns(raw.mdnsServices)) else None,
      if raw.ssdp then Some(Ssdp(raw.dial)) else None,
      raw.wsd, raw.bidirectional, udp)
  }

  /** The rules in the order they are checked; `parse` reads a table key as a name. */
  function Validate(parse: string -> Option<string>, key: string, raw: RawReflector): Result<Reflector, ConfigError> {
    var named := if raw.name.Some? then raw.name else parse(key);
    if named.None? then Failure(EmptyReflectorName(key))
    else
      var name := named.value;
      var foreign := FirstForeign(ListOf(raw.sourcePeers) + ListOf(raw.targetPeers), raw.family);
      if foreign.Some? then Failure(PeerFamily(name, foreign.value))
      else if raw.sourceIf == raw.targetIf then Failure(SameInterface(name))
      else
        var udp := RelayOf(raw, name);
        if udp.Failure? then Failure(udp.error)
        else if !raw.wol && !raw.mdns && !raw.ssdp && !raw.wsd && udp.value.None? then Failure(NoProtocol(name))
        else if raw.wolPorts.Some? && !raw.wol then Failure(WolPortsWithoutWol(name))
        else if raw.mdnsServices.Some? && !raw.mdns then Failure(MdnsServicesWithoutMdns(name))
        else if raw.macs.Some? && !raw.wol && !raw.mdns && !raw.ssdp && !raw.wsd then Failure(MacsUnused(name))
        else if raw.dial && !raw.ssdp then Failure(DialWithoutSsdp(name))
        else if raw.ssdp && raw.dial && !raw.family.UsesV4() then Failure(DialRequiresIpv4(name))
        else
          var r := Entry(raw, name, udp.value);
          var twice := RelayDuplicates(r);
          if twice.Some? then Failure(UdpRelayDuplicates(name, twice.value.1, twice.value.0)) else Success(r)
  }

  function ToRaw(r: Reflector): RawReflector {
    RawReflector(
      Some(r.name), r.sourceIf, r.targetIf, r.sourcePeers, r.targetPeers, r.macs, r.family,
      r.wol.Some?, r.wol,
      r.mdns.Some?, if r.mdns.Some? then r.mdns.value.services else None,
      r.ssdp.Some?, r.ssdp.Some? && r.ssdp.value.dial, r.wsd, r.bidirectional,
      if r.udp.Some? then Some(r.udp.value.ports) else None,
      if r.udp.Some? then r.udp.value.groups else None,
      r.udp.Some? && r.udp.value.broadcast)
  }

  /** The rules as a property of the entry itself. */
  predicate Rules(r: Reflector) {
    && (forall i :: 0 <= i < |ListOf(r.sourcePeers)| ==> r.family.Uses(r.sourcePeers.value[i]))
    && (forall i :: 0 <= i < |ListOf(r.targetPeers)| ==> r.family.Uses(r.targetPeers.value[i]))
    && r.sourceIf != r.targetIf
    && (r.udp.Some? ==>
          && (r.udp.value.groups.Some? || r.udp.value.broadcast)
          && (r.udp.value.broadcast ==> r.family.UsesV4())
          && (forall i :: 0 <= i < |GroupsOf(r.udp.value)| ==> r.family.Uses(GroupsOf(r.udp.value)[i])))
    && (r.wol.Some? || r.mdns.Some? || r.ssdp.Some? || r.wsd || r.udp.Some?)
    && (r.macs.Some? ==> r.wol.Some? || r.mdns.Some? || r.ssdp.Some? || r.wsd)
    && (r.ssdp.Some? && r.ssdp.value.dial ==> r.family.UsesV4())
    && RelayDuplicates(r).None?
  }

  lemma PeersUsed(a: seq<IpAddr>, b: seq<IpAddr>, family: AddressFamily)
    ensures FirstForeign(a + b, family).None? <==>
              (forall i :: 0 <= i < |a| ==> family.Uses(a[i])) && (forall i :: 0 <= i < |b| ==> family.Uses(b[i]))
  {
    var all := a + b;
    assert forall i :: 0 <= i < |a| ==> all[i] == a[i];
    assert forall i :: 0 <= i < |b| ==> all[|a| + i] == b[i];
  }

  // ----- Which raw entries are refused, and for what

  /** The relay carries, on `port`, what the entry's own `protocol` reflects there. */
  predicate Repeats(raw: RawReflector, protocol: Protocol, port: Port) {
    && raw.udpPorts.Some? && port in raw.udpPorts.value
    && match protocol
       case WolP => raw.wol && port in (if raw.wolPorts.Some? then raw.wolPorts.value else [7, 9])
       case MdnsP =>
         raw.mdns && port == 5353 && RelaysTo(raw, {V4(0xe000_00fb), V6(0xff02_0000_0000_0000_0000_0000_0000_00fb)})
       case SsdpP =>
         raw.ssdp && port == 1900 &&
         RelaysTo(raw, {V4(0xefff_fffa), V6(0xff02_0000_0000_0000_0000_0000_0000_000c), V6(0xff05_0000_0000_0000_0000_0000_0000_000c)})
       case WsdP =>
         raw.wsd && port == 3702 && RelaysTo(raw, {V4(0xefff_fffa), V6(0xff02_0000_0000_0000_0000_0000_0000_000c)})
       case UdpP => false
  }

  predicate RelaysTo(raw: RawReflector, groups: set<IpAddr>) {
    raw.udpGroups.Some? && exists g :: g in groups && g in raw.udpGroups.value
  }

  predicate AllUsed(raw: RawReflector, list: seq<IpAddr>) {
    forall i :: 0 <= i < |list| ==> raw.family.Uses(list[i])
  }

  /** The rule an error reports, in the order the rules are checked. */
  function RuleOf(e: ConfigError): nat {
    match e
    case EmptyReflectorName(_) => 0
    case PeerFamily(_, _) => 1
    case SameInterface(_) => 2
    case UdpRelayWithoutPorts(_) => 3
    case UdpRelayNoDestination(_) => 4
    case UdpBroadcastFamily(_) => 5
    case UdpGroupFamily(_, _) => 6
    case NoProtocol(_) => 7
    case WolPortsWithoutWol(_) => 8
    case MdnsServicesWithoutMdns(_) => 9
    case MacsUnused(_) => 10
    case DialWithoutSsdp(_) => 11
    case DialRequiresIpv4(_) => 12
    case UdpRelayDuplicates(_, _, _) => 13
    case Ipv6OnlyRelay(_) => 14
    case Ipv6OnlyPeers(_, _) => 14
  }

  /** Rule `n` on the raw values themselves. */
  ghost predicate Meets(n: nat, named: Option<string>, raw: RawReflector) {
    match n
    case 0 => named.Some?
    case 1 => AllUsed(raw, ListOf(raw.sourcePeers)) && AllUsed(raw, ListOf(raw.targetPeers))
    case 2 => raw.sourceIf != raw.targetIf
    case 3 => raw.udpGroups.Some? || raw.udpBroadcast ==> raw.udpPorts.Some?
    case 4 => raw.udpPorts.Some? ==> raw.udpGroups.Some? || raw.udpBroadcast
    case 5 => raw.udpBroadcast ==> raw.family.UsesV4()
    case 6 => AllUsed(raw, ListOf(raw.udpGroups))
    case 7 => raw.wol || raw.mdns || raw.ssdp || raw.wsd || raw.udpPorts.Some?
    case 8 => raw.wolPorts.Some? ==> raw.wol
    case 9 => raw.mdnsServices.Some? ==> raw.mdns
    case 10 => raw.macs.Some? ==> raw.wol || raw.mdns || raw.ssdp || raw.wsd
    case 11 => raw.dial ==> raw.ssdp
    case 12 => raw.dial ==> raw.family.UsesV4()
    case 13 => forall protocol, port :: !Repeats(raw, protocol, port)
    case _ => true
  }

  function NameOf(parse: string -> Option<string>, key: string, raw: RawReflector): Option<string> {
    if raw.name.Some? then raw.name else parse(key)
  }

  ghost predicate MeetsBefore(n: nat, named: Option<string>, raw: RawReflector) {
    forall m: nat :: m < n ==> Meets(m, named, raw)
  }

  /** The error names the entry and what breaks the rule. */
  ghost predicate Names(e: ConfigError, key: string, named: Option<string>, raw: RawReflector) {
    match e
    case EmptyReflectorName(k) => k == key
    case PeerFamily(n, peer) => Some(n) == named && IsFirstForeign(ListOf(raw.sourcePeers) + ListOf(raw.targetPeers), raw.family, peer)
    case UdpGroupFamily(n, group) => Some(n) == named && IsFirstForeign(ListOf(raw.udpGroups), raw.family, group)
    case UdpRelayDuplicates(n, port, protocol) => Some(n) == named && Repeats(raw, protocol, port)
    case _ => Some(e.name) == named
  }

  lemma RelayOfExactly(raw: RawReflector, name: string)
    ensures match RelayOf(raw, name)
            case Success(udp) =>
              && (udp.Some? <==> raw.udpPorts.Some?)
              && Meets(3, Some(name), raw) && Meets(4, Some(name), raw) && Meets(5, Some(name), raw) && Meets(6, Some(name), raw)
            case Failure(e) =>
              && 3 <= RuleOf(e) <= 6 && !Meets(RuleOf(e), Some(name), raw)
              && (forall m: nat :: 3 <= m < RuleOf(e) ==> Meets(m, Some(name), raw)) && Names(e, "", Some(name), raw)
  {
  }

  /** A flow of the entry's relay and one of its other protocols on the same port and leg. */
  lemma ClashRepeats(r: Reflector, raw: RawReflector, u: Flow, f: Flow)
    requires RelayOf(raw, r.name).Success? && r == Entry(raw, r.name, RelayOf(raw, r.name).value)
    requires RelayClash(r, r, u, f) && f.protocol != UdpP
    ensures Repeats(raw, f.protocol, f.port)
  {
    assert f.reach.ToGroup? ==> u.reach == f.reach;
  }

  lemma RepeatsClash(r: Reflector, raw: RawReflector, protocol: Protocol, port: Port) returns (u: Flow, f: Flow)
    requires RelayOf(raw, r.name).Success? && r == Entry(raw, r.name, RelayOf(raw, r.name).value)
    requires Repeats(raw, protocol, port)
    ensures RelayClash(r, r, u, f) && f.protocol == protocol != UdpP
  {
    var leg := Forward(r);
    if protocol == WolP {
      f := Flow(WolP, leg, port, Any(r.family));
      u := Flow(UdpP, leg, port, if raw.udpGroups.Some? then ToGroup(raw.udpGroups.value[0]) else Broadcast);
    } else {
      var g :| g in raw.udpGroups.value && g in (match protocol case MdnsP => MDNS_GROUPS case SsdpP => SSDP_GROUPS case _ => WSD_GROUPS);
      f := Flow(protocol, leg, port, ToGroup(g));
      u := Flow(UdpP, leg, port, ToGroup(g));
    }
  }

  lemma RepeatsNowhere(named: Option<string>, raw: RawReflector)
    ensures Meets(13, named, raw) <==> forall protocol, port :: !Repeats(raw, protocol, port)
  {
  }

  lemma RelayRepeatsExactly(raw: RawReflector, name: string)
    requires RelayOf(raw, name).Success?
    ensures var twice := RelayDuplicates(Entry(raw, name, RelayOf(raw, name).value));
            && (twice.None? <==> Meets(13, Some(name), raw))
            && (twice.Some? ==> Repeats(raw, twice.value.0, twice.value.1))
  {
    hide RelayOf, RelayDuplicates, Repeats, RelayClash, Meets;
    var r := Entry(raw, name, RelayOf(raw, name).value);
    var twice := RelayDuplicates(r);
    RepeatsNowhere(Some(name), raw);
    RelayDuplicatesExactly(r);
    if twice.Some? {
      var u, f := DuplicateIsAClash(r);
      ClashRepeats(r, raw, u, f);
    }
    if protocol, port :| Repeats(raw, protocol, port) {
      var u, f := RepeatsClash(r, raw, protocol, port);
    }
  }

  lemma DuplicateIsAClash(r: Reflector) returns (u: Flow, f: Flow)
    requires RelayDuplicates(r).Some?
    ensures RelayClash(r, r, u, f) && f.protocol != UdpP && RelayDuplicates(r).value == (f.protocol, f.port)
  {
    hide Flows, HasFlow;
    f := RelayOverlap(r, NotRelay(Flows(r))).value;
    var i :| 0 <= i < |Flows(r)| && Flows(r)[i].protocol == UdpP && Flows(r)[i].Overlaps(f);
    u := Flows(r)[i];
    FlowsExactly(r, u);
    FlowsExactly(r, f);
  }

  /** The rules on either side of the relay's own. */
  lemma RulesAround(named: Option<string>, raw: RawReflector, n: nat)
    requires n > 0 ==> Meets(0, named, raw)
    requires n > 1 ==> Meets(1, named, raw)
    requires n > 2 ==> Meets(2, named, raw)
    requires forall m: nat :: 3 <= m <= 6 && m < n ==> Meets(m, named, raw)
    requires n > 7 ==> Meets(7, named, raw)
    requires n > 8 ==> Meets(8, named, raw)
    requires n > 9 ==> Meets(9, named, raw)
    requires n > 10 ==> Meets(10, named, raw)
    requires n > 11 ==> Meets(11, named, raw)
    requires n > 12 ==> Meets(12, named, raw)
    requires n > 13 ==> Meets(13, named, raw)
    ensures MeetsBefore(n, named, raw)
  {
    forall m: nat | m < n
      ensures Meets(m, named, raw)
    {
      hide Meets;
      if m > 13 {
        BeyondTheRules(m, named, raw);
      }
    }
  }

  lemma BeyondTheRules(m: nat, named: Option<string>, raw: RawReflector)
    requires m > 13
    ensures Meets(m, named, raw)
  {
  }

  lemma RelayRulesMet(named: Option<string>, raw: RawReflector)
    requires named.Some? && RelayOf(raw, named.value).Success?
    ensures forall m: nat :: 3 <= m <= 6 ==> Meets(m, named, raw)
    ensures RelayOf(raw, named.value).value.Some? <==> raw.udpPorts.Some?
  {
    RelayOfExactly(raw, named.value);
    hide RelayOf, Meets;
  }

  lemma AcceptedMeetsAll(parse: string -> Option<string>, key: string, raw: RawReflector)
    requires Validate(parse, key, raw).Success?
    ensures MeetsBefore(14, NameOf(parse, key, raw), raw)
  {
    hide RelayOf, RelayDuplicates, Repeats, AllUsed, Entry, MeetsBefore;
    var named := NameOf(parse, key, raw);
    PeersAllUsed(raw);
    RelayRulesMet(named, raw);
    RelayRepeatsExactly(raw, named.value);
    RulesAround(named, raw, 14);
  }

  lemma PeersAllUsed(raw: RawReflector)
    ensures FirstForeign(ListOf(raw.sourcePeers) + ListOf(raw.targetPeers), raw.family).None? <==>
              AllUsed(raw, ListOf(raw.sourcePeers)) && AllUsed(raw, ListOf(raw.targetPeers))
  {
    PeersUsed(ListOf(raw.sourcePeers), ListOf(raw.targetPeers), raw.family);
  }

  /** The error is for a rule broken, and names what breaks it. */
  ghost predicate Reported(e: ConfigError, key: string, named: Option<string>, raw: RawReflector) {
    && RuleOf(e) < 14 && Names(e, key, named, raw)
    && !Meets(RuleOf(e), named, raw) && MeetsBefore(RuleOf(e), named, raw)
  }

  lemma RefusedNames(parse: string -> Option<string>, key: string, raw: RawReflector)
    requires Validate(parse, key, raw).Failure?
    ensures Names(Validate(parse, key, raw).error, key, NameOf(parse, key, raw), raw)
  {
    hide RelayOf, RelayDuplicates, Repeats, AllUsed, Entry, Meets, IsFirstForeign;
    var named := NameOf(parse, key, raw);
    if named.Some? {
      RelayOfExactly(raw, named.value);
      if RelayOf(raw, named.value).Success? {
        RelayRepeatsExactly(raw, named.value);
      }
    }
  }

  lemma RefusedForTheFirst(parse: string -> Option<string>, key: string, raw: RawReflector)
    requires Validate(parse, key, raw).Failure?
    ensures var e, named := Validate(parse, key, raw).error, NameOf(parse, key, raw);
            RuleOf(e) < 14 && !Meets(RuleOf(e), named, raw) && MeetsBefore(RuleOf(e), named, raw)
  {
    hide RelayOf, RelayDuplicates, Repeats, AllUsed, Entry, MeetsBefore, Names;
    var e, named := Validate(parse, key, raw).error, NameOf(parse, key, raw);
    PeersAllUsed(raw);
    if named.Some? {
      RelayOfExactly(raw, named.value);
      if RelayOf(raw, named.value).Success? {
        RelayRulesMet(named, raw);
        RelayRepeatsExactly(raw, named.value);
      }
    }
    RulesAround(named, raw, RuleOf(e));
  }

  /**
   Validation on raw values: it accepts exactly what meets every rule, and refuses for the first
   rule broken, naming the entry and what breaks it.
   */
  lemma ValidatedExactly(parse: string -> Option<string>, key: string, raw: RawReflector)
    ensures var v, named := Validate(parse, key, raw), NameOf(parse, key, raw);
            && (v.Success? <==> MeetsBefore(14, named, raw))
            && (v.Failure? ==> Reported(v.error, key, named, raw))
  {
    hide Validate, Meets, Names;
    if Validate(parse, key, raw).Success? {
      AcceptedMeetsAll(parse, key, raw);
    } else {
      RefusedNames(parse, key, raw);
      RefusedForTheFirst(parse, key, raw);
    }
  }

  /** The accepted entry is the raw one: each setting as given, seven and nine for the ports not given. */
  lemma ValidatedAsGiven(parse: string -> Option<string>, key: string, raw: RawReflector)
    requires Validate(parse, key, raw).Success?
    ensures var r := Validate(parse, key, raw).value;
            && Some(r.name) == (if raw.name.Some? then raw.name else parse(key))
            && r.sourceIf == raw.sourceIf && r.targetIf == raw.targetIf
            && r.sourcePeers == raw.sourcePeers && r.targetPeers == raw.targetPeers
            && r.macs == raw.macs && r.family == raw.family && r.wsd == raw.wsd && r.bidirectional == raw.bidirectional
            && (r.wol.Some? <==> raw.wol) && (raw.wol && raw.wolPorts.None? ==> r.wol.value == [7, 9])
            && (raw.wolPorts.Some? ==> r.wol == raw.wolPorts)
            && (r.mdns.Some? <==> raw.mdns) && (raw.mdns ==> r.mdns.value.services == raw.mdnsServices)
            && (r.ssdp.Some? <==> raw.ssdp) && (raw.ssdp ==> (r.ssdp.value.dial <==> raw.dial))
            && (r.udp.Some? <==> raw.udpPorts.Some?)
            && (r.udp.Some? ==> r.udp == Some(UdpRelay(raw.udpPorts.value, raw.udpGroups, raw.udpBroadcast)))
  {
    ValidatedExactly(parse, key, raw);
    assert Meets(8, NameOf(parse, key, raw), raw);
  }

  /** What validation returns meets the rules, whatever raw values it came from. */
  lemma ValidatedMeetsRules(parse: string -> Option<string>, key: string, raw: RawReflector)
    requires Validate(parse, key, raw).Success?
    ensures Rules(Validate(parse, key, raw).value)
  {
    PeersUsed(ListOf(raw.sourcePeers), ListOf(raw.targetPeers), raw.family);
  }

  /** An entry meets the rules exactly when validation takes it back, written out raw, as itself. */
  lemma RulesExactly(parse: string -> Option<string>, key: string, r: Reflector)
    ensures Rules(r) <==> Validate(parse, key, ToRaw(r)) == Success(r)
  {
    var raw := ToRaw(r);
    PeersUsed(ListOf(raw.sourcePeers), ListOf(raw.targetPeers), raw.family);
    if Rules(r) {
      assert RelayOf(raw, r.name) == Success(r.udp);
      assert Entry(raw, r.name, r.udp) == r;
    }
    if Validate(parse, key, raw) == Success(r) {
      ValidatedMeetsRules(parse, key, raw);
    }
  }

  /** The entries a configuration's raw ones validate to. */
  ghost predicate Validated(parse: string -> Option<string>, raws: seq<(string, RawReflector)>, rs: seq<Reflector>) {
    |raws| == |rs| && forall k :: 0 <= k < |rs| ==> Validate(parse, raws[k].0, raws[k].1) == Success(rs[k])
  }

  /** From raw values on: entries that validate and pass the conflict check never relay a datagram twice. */
  lemma ValidatedNeverRelaysTwice(parse: string -> Option<string>, raws: seq<(string, RawReflector)>, rs: seq<Reflector>,
                                  segs: Segments, d: Passage, i: nat, u: Flow, j: nat, f: Flow)
    requires Validated(parse, raws, rs) && Accepted(rs) && HostAddressed(segs)
    requires i < |rs| && u in Flows(rs[i]) && u.protocol == UdpP && Admits(u, d, segs)
    requires j < |rs| && f in Flows(rs[j]) && Admits(f, d, segs)
    ensures i == j && f == u && multiset(Flows(rs[i]))[u] == 1
  {
    forall k | 0 <= k < |rs|
      ensures Rules(rs[k])
    {
      ValidatedMeetsRules(parse, raws[k].0, raws[k].1);
    }
    hide Validate, Flows;
    NoDoubleRelay(rs, segs, d, i, u, j, f);
  }

  // ----- The IPv4 fallback

  function V4Part(list: seq<IpAddr>): (r: seq<IpAddr>)
    ensures forall a :: a in r <==> a in list && a.V4?
    ensures Unique(list) ==> Unique(r)
  {
    if list == [] then []
    else
      var rest := V4Part(list[1..]);
      assert list == [list[0]] + list[1..];
      assert Unique(list) ==> Unique(list[1..]) && list[0] !in list[1..];
      if list[0].V4? then [list[0]] + rest else rest
  }

  function V4Groups(list: GroupList): (r: Option<GroupList>)
    ensures r.None? <==> forall i :: 0 <= i < |list| ==> list[i].V6?
    ensures forall a :: a in ListOf(r) <==> a in list && a.V4?
  {
    var v4 := V4Part(list);
    assert forall i :: 0 <= i < |v4| ==> v4[i] in list;
    assert v4 == [] ==> forall i :: 0 <= i < |list| ==> list[i] !in v4;
    assert v4 != [] ==> v4[0] in v4;
    if v4 == [] then None else Some(v4)
  }

  function V4Peers(list: PeerList): (r: Option<PeerList>)
    ensures r.None? <==> forall i :: 0 <= i < |list| ==> list[i].V6?
    ensures forall a :: a in ListOf(r) <==> a in list && a.V4?
  {
    var v4 := V4Part(list);
    assert forall i :: 0 <= i < |v4| ==> v4[i] in list;
    assert v4 == [] ==> forall i :: 0 <= i < |list| ==> list[i] !in v4;
    assert v4 != [] ==> v4[0] in v4;
    if v4 == [] then None else Some(v4)
  }

  function FallBackRelay(udp: Option<UdpRelay>): Option<UdpRelay> {
    if udp.Some? && udp.value.groups.Some?
    then Some(udp.value.(groups := V4Groups(udp.value.groups.value)))
    else udp
  }

  function FallBackPeers(peers: Option<PeerList>): Option<PeerList> {
    if peers.Some? then V4Peers(peers.value) else None
  }

  predicate RelayStranded(udp: Option<UdpRelay>) {
    udp.Some? && udp.value.groups.Some? && !udp.value.broadcast && V4Groups(udp.value.groups.value).None?
  }

  predicate PeersStranded(peers: Option<PeerList>) {
    peers.Some? && V4Peers(peers.value).None?
  }

  function FallBack(r: Reflector): Result<Reflector, ConfigError> {
    if r.family != DefaultFamily then Success(r)
    else if RelayStranded(r.udp) then Failure(Ipv6OnlyRelay(r.name))
    else if PeersStranded(r.sourcePeers) then Failure(Ipv6OnlyPeers(r.name, true))
    else if PeersStranded(r.targetPeers) then Failure(Ipv6OnlyPeers(r.name, false))
    else Success(r.(family := Ipv4Only, udp := FallBackRelay(r.udp),
                    sourcePeers := FallBackPeers(r.sourcePeers), targetPeers := FallBackPeers(r.targetPeers)))
  }

  ghost predicate AllV6(list: seq<IpAddr>) {
    forall i :: 0 <= i < |list| ==> list[i].V6?
  }

  /** The fallback fails exactly for a default entry left with nowhere to send. */
  lemma FallBackFailsExactly(r: Reflector)
    ensures FallBack(r).Failure? <==>
              && r.family == DefaultFamily
              && (|| (r.udp.Some? && r.udp.value.groups.Some? && AllV6(r.udp.value.groups.value) && !r.udp.value.broadcast)
                  || (r.sourcePeers.Some? && AllV6(r.sourcePeers.value))
                  || (r.targetPeers.Some? && AllV6(r.targetPeers.value)))
  {
  }

  /** What is kept of a list does not depend on what surrounds it: order and multiplicity stay. */
  lemma {:induction false} V4PartAppends(a: seq<IpAddr>, b: seq<IpAddr>, x: IpAddr)
    ensures V4Part(a + b) == V4Part(a) + V4Part(b)
    ensures V4Part([x]) == if x.V4? then [x] else []
  {
    assert [x][1..] == [];
    if a == [] {
      assert a + b == b;
    } else {
      assert (a + b)[0] == a[0] && (a + b)[1..] == a[1..] + b;
      V4PartAppends(a[1..], b, x);
      assert V4Part(a + b) == (if a[0].V4? then [a[0]] else []) + V4Part(a[1..] + b);
    }
  }

  /** What the fallback makes of an entry, field by field. */
  lemma FallBackEdits(r: Reflector)
    requires FallBack(r).Success?
    ensures var r' := FallBack(r).value;
            if r.family != DefaultFamily then r' == r
            else
              && r'.family == Ipv4Only
              && (r'.sourcePeers.Some? <==> r.sourcePeers.Some?) && ListOf(r'.sourcePeers) == V4Part(ListOf(r.sourcePeers))
              && (r'.targetPeers.Some? <==> r.targetPeers.Some?) && ListOf(r'.targetPeers) == V4Part(ListOf(r.targetPeers))
              && (r'.udp.Some? <==> r.udp.Some?)
              && (r.udp.Some? ==>
                    && GroupsOf(r'.udp.value) == V4Part(GroupsOf(r.udp.value))
                    && r'.udp.value.ports == r.udp.value.ports && (r'.udp.value.broadcast <==> r.udp.value.broadcast))
              && r'.(family := r.family, sourcePeers := r.sourcePeers, targetPeers := r.targetPeers, udp := r.udp) == r
  {
    assert V4Part([]) == [];
  }

  /** Each failure is for its own reason, the relay's before the peers', the source's before the target's. */
  lemma FallBackNamesTheFirst(r: Reflector)
    requires FallBack(r).Failure?
    ensures var relay := r.udp.Some? && r.udp.value.groups.Some? && AllV6(r.udp.value.groups.value) && !r.udp.value.broadcast;
            FallBack(r).error ==
            if relay then Ipv6OnlyRelay(r.name)
            else Ipv6OnlyPeers(r.name, r.sourcePeers.Some? && AllV6(r.sourcePeers.value))
  {
    FallBackFailsExactly(r);
  }

  /** `b`'s class is the part of `a`'s, or all of it. */
  predicate Narrows(a: Flow, b: Flow) {
    && a.protocol == b.protocol && a.leg == b.leg && a.port == b.port
    && (a.reach == b.reach || (a.reach == Any(DefaultFamily) && b.reach == Any(Ipv4Only)))
  }

  lemma FallBackNarrows(r: Reflector, r': Reflector, f': Flow) returns (f: Flow)
    requires FallBack(r) == Success(r') && HasFlow(r', f')
    ensures HasFlow(r, f) && Narrows(f, f')
    ensures r.family == DefaultFamily ==> (f'.reach.ToGroup? ==> f'.reach.group.V4?)
  {
    f := if f'.reach.Any? then f'.(reach := Any(r.family)) else f';
  }

  lemma NarrowedOverlap(a: Flow, a': Flow, b: Flow, b': Flow)
    requires Narrows(a, a') && Narrows(b, b') && a'.Overlaps(b')
    ensures a.Overlaps(b)
  {
  }

  ghost predicate Carries(r: Reflector, d: Passage, segs: Segments) {
    exists f :: HasFlow(r, f) && Admits(f, d, segs)
  }

  lemma WidenedFlow(r: Reflector, r': Reflector, f: Flow, d: Passage, segs: Segments) returns (f': Flow)
    requires FallBack(r) == Success(r') && r.family == DefaultFamily
    requires HasFlow(r, f) && Admits(f, d, segs) && d.dest.V4?
    ensures HasFlow(r', f') && Admits(f', d, segs)
  {
    f' := if f.reach.Any? then f.(reach := Any(Ipv4Only)) else f;
    if f.protocol.UdpP? && f.reach.ToGroup? {
      assert f.reach.group in V4Part(r.udp.value.groups.value);
    }
  }

  /** A default entry carries exactly the IPv4 datagrams it carried before. */
  lemma FallBackKeepsIpv4(r: Reflector, r': Reflector, d: Passage, segs: Segments)
    requires FallBack(r) == Success(r') && r.family == DefaultFamily
    ensures Carries(r', d, segs) <==> Carries(r, d, segs) && d.dest.V4?
  {
    if f' :| HasFlow(r', f') && Admits(f', d, segs) {
      var f := FallBackNarrows(r, r', f');
      assert HasFlow(r, f) && Admits(f, d, segs);
    }
    if d.dest.V4? {
      if f :| HasFlow(r, f) && Admits(f, d, segs) {
        var f' := WidenedFlow(r, r', f, d, segs);
      }
    }
  }

  lemma RelayDuplicatesExactly(r: Reflector)
    ensures RelayDuplicates(r).Some? <==> exists u, f :: RelayClash(r, r, u, f) && f.protocol != UdpP
  {
    hide Flows, HasFlow;
    var hit := RelayOverlap(r, NotRelay(Flows(r)));
    if hit.Some? {
      var i :| 0 <= i < |Flows(r)| && Flows(r)[i].protocol == UdpP && Flows(r)[i].Overlaps(hit.value);
      FlowsExactly(r, Flows(r)[i]);
      FlowsExactly(r, hit.value);
      assert RelayClash(r, r, Flows(r)[i], hit.value);
    }
    if u, f :| RelayClash(r, r, u, f) && f.protocol != UdpP {
      FlowsExactly(r, u);
      FlowsExactly(r, f);
      var i :| 0 <= i < |Flows(r)| && Flows(r)[i] == u;
      assert RelayHits(Flows(r), f);
    }
  }

  lemma FallBackKeepsClashFree(a: Reflector, a': Reflector, b: Reflector, b': Reflector, u': Flow, f': Flow) returns (u: Flow, f: Flow)
    requires FallBack(a) == Success(a') && FallBack(b) == Success(b') && RelayClash(a', b', u', f')
    ensures RelayClash(a, b, u, f) && f.protocol == f'.protocol
  {
    u := FallBackNarrows(a, a', u');
    f := FallBackNarrows(b, b', f');
    NarrowedOverlap(u, u', f, f');
  }

  lemma FallBackKeepsRelaySingle(r: Reflector, r': Reflector)
    requires RelayDuplicates(r).None? && FallBack(r) == Success(r')
    ensures RelayDuplicates(r').None?
  {
    hide FallBack, RelayDuplicates;
    RelayDuplicatesExactly(r);
    RelayDuplicatesExactly(r');
    if u', f' :| RelayClash(r', r', u', f') && f'.protocol != UdpP {
      var u, f := FallBackKeepsClashFree(r, r', r, r', u', f');
    }
  }

  lemma V4ListIsUsed(list: seq<IpAddr>)
    requires forall a :: a in list ==> a.V4?
    ensures forall i :: 0 <= i < |list| ==> Ipv4Only.Uses(list[i])
  {
    assert forall i :: 0 <= i < |list| ==> list[i] in list;
  }

  /** An entry that met the rules meets them after the fallback. */
  lemma FallBackKeepsRules(r: Reflector, r': Reflector)
    requires Rules(r) && FallBack(r) == Success(r')
    ensures Rules(r')
  {
    hide RelayDuplicates;
    FallBackKeepsRelaySingle(r, r');
    if r.family == DefaultFamily {
      V4ListIsUsed(ListOf(r'.sourcePeers));
      V4ListIsUsed(ListOf(r'.targetPeers));
      if r'.udp.Some? && r'.udp.value.groups.Some? {
        V4ListIsUsed(ListOf(r'.udp.value.groups));
      }
    }
  }

  lemma FallBackReflectsLess(r: Reflector, r': Reflector)
    requires FallBack(r) == Success(r')
    ensures r.name == r'.name
    ensures forall leg, v6, mac, service :: Reflects(r', leg, v6, mac, service) ==> Reflects(r, leg, v6, mac, service)
  {
  }

  lemma FallBackKeepsCompatible(a: Reflector, a': Reflector, b: Reflector, b': Reflector)
    requires FallBack(a) == Success(a') && FallBack(b) == Success(b') && Compatible(a, b)
    ensures Compatible(a', b')
  {
    FallBackReflectsLess(a, a');
    FallBackReflectsLess(b, b');
    hide FallBack, HasFlow, ConflictsWith, Reflects;
    ConflictExactly(a, b);
    ConflictExactly(a', b');
    assert forall leg, v6, mac, service :: BothReflect(a', b', leg, v6, mac, service) ==> BothReflect(a, b, leg, v6, mac, service);
    if u', f' :| RelayClash(a', b', u', f') {
      var u, f := FallBackKeepsClashFree(a, a', b, b', u', f');
    }
    if u', f' :| RelayClash(b', a', u', f') {
      var u, f := FallBackKeepsClashFree(b, b', a, a', u', f');
    }
  }

  /** A second fallback changes nothing. */
  lemma FallBackIsIdempotent(r: Reflector, r': Reflector)
    requires FallBack(r) == Success(r')
    ensures FallBack(r') == Success(r')
  {
  }

  ghost predicate FellBack(before: seq<Reflector>, after: seq<Reflector>) {
    |before| == |after| && forall i :: 0 <= i < |before| ==> FallBack(before[i]) == Success(after[i])
  }

  /** An accepted configuration stays one: every entry keeps the rules and no pair comes to conflict. */
  lemma FallBackKeepsAccepted(before: seq<Reflector>, after: seq<Reflector>)
    requires FellBack(before, after) && Accepted(before) && (forall i :: 0 <= i < |before| ==> Rules(before[i]))
    ensures Accepted(after) && (forall i :: 0 <= i < |after| ==> Rules(after[i]))
  {
    forall i, j | 0 <= i < j < |after|
      ensures Compatible(after[i], after[j])
    {
      FallBackKeepsCompatible(before[i], after[i], before[j], after[j]);
    }
    forall i | 0 <= i < |after|
      ensures Rules(after[i])
    {
      FallBackKeepsRules(before[i], after[i]);
    }
  }

  class Config {
    var reflectors: seq<Reflector>

    constructor (reflectors: seq<Reflector>)
      ensures this.reflectors == reflectors
    {
      this.reflectors := reflectors;
    }

    /**
     Edits the entries in place. A failure leaves the entries before the failing one converted,
     the ones after it untouched, and the failing one half edited.
     */
    method FallBackToIpv4() returns (r: Result<(), ConfigError>)
      modifies this
      ensures |reflectors| == |old(reflectors)|
      ensures r.Success? <==> forall i :: 0 <= i < |old(reflectors)| ==> FallBack(old(reflectors)[i]).Success?
      ensures r.Success? ==> FellBack(old(reflectors), reflectors)
      ensures r.Failure? ==>
                exists i ::
                  && 0 <= i < |reflectors| && FallBack(old(reflectors)[i]) == Failure(r.error)
                  && FellBack(old(reflectors)[..i], reflectors[..i]) && reflectors[i + 1..] == old(reflectors)[i + 1..]
    {
      var i := 0;
      while i < |reflectors|
        invariant i <= |reflectors| == |old(reflectors)|
        invariant forall j :: 0 <= j < i ==> FallBack(old(reflectors)[j]) == Success(reflectors[j])
        invariant forall j :: i <= j < |reflectors| ==> reflectors[j] == old(reflectors)[j]
      {
        if reflectors[i].family == DefaultFamily {
          var error := FallBackAt(i);
          if error.Some? {
            return Failure(error.value);
          }
        }
        i := i + 1;
      }
      return Success(());
    }

    method FallBackAt(i: nat) returns (error: Option<ConfigError>)
      requires i < |reflectors| && reflectors[i].family == DefaultFamily
      modifies this
      ensures |reflectors| == |old(reflectors)| && reflectors == old(reflectors)[i := reflectors[i]]
      ensures match FallBack(old(reflectors)[i])
              case Success(r) => error == None && reflectors[i] == r
              case Failure(e) => error == Some(e)
    {
      reflectors := reflectors[i := reflectors[i].(family := Ipv4Only)];
      error := NarrowRelay(i);
      if error.None? {
        error := NarrowPeers(i);
      }
    }

    method NarrowRelay(i: nat) returns (error: Option<ConfigError>)
      requires i < |reflectors|
      modifies this
      ensures reflectors == old(reflectors)[i := old(reflectors)[i].(udp := FallBackRelay(old(reflectors)[i].udp))]
      ensures error == if RelayStranded(old(reflectors)[i].udp) then Some(Ipv6OnlyRelay(old(reflectors)[i].name)) else None
    {
      hide V4Groups;
      var e := reflectors[i];
      if e.udp.Some? && e.udp.value.groups.Some? {
        var groups := V4Groups(e.udp.value.groups.value);
        reflectors := reflectors[i := e.(udp := Some(e.udp.value.(groups := groups)))];
        if groups.None? && !e.udp.value.broadcast {
          return Some(Ipv6OnlyRelay(e.name));
        }
      }
      return None;
    }

    method NarrowPeers(i: nat) returns (error: Option<ConfigError>)
      requires i < |reflectors|
      modifies this
      ensures |reflectors| == |old(reflectors)| && reflectors == old(reflectors)[i := reflectors[i]]
      ensures var e := old(reflectors)[i];
              if PeersStranded(e.sourcePeers) then error == Some(Ipv6OnlyPeers(e.name, true))
              else if PeersStranded(e.targetPeers) then error == Some(Ipv6OnlyPeers(e.name, false))
              else error == None
                   && reflectors[i] == e.(sourcePeers := FallBackPeers(e.sourcePeers), targetPeers := FallBackPeers(e.targetPeers))
    {
      hide V4Peers;
      var e := reflectors[i];
      if e.sourcePeers.Some? {
        var peers := V4Peers(e.sourcePeers.value);
        if peers.None? {
          return Some(Ipv6OnlyPeers(e.name, true));
        }
        e := e.(sourcePeers := peers);
        reflectors := reflectors[i := e];
      }
      if e.targetPeers.Some? {
        var peers := V4Peers(e.targetPeers.value);
        if peers.None? {
          return Some(Ipv6OnlyPeers(e.name, false));
        }
        e := e.(targetPeers := peers);
        reflectors := reflectors[i := e];
      }
      return None;
    }
  }
}
