/**
 The three UDP classifiers, what each accepts, and the programs installed on Linux captures
 (src/capture/filter.rs, src/capture/af_packet.rs).
 */
module Classifiers {
  import opened Wrappers
  import opened Primitives
  import opened PacketFilters

  const ETHERNET_UDP_FILTER: seq<Insn> := [
    Insn(0x01, 0, 0, 0),
    Insn(0x28, 0, 0, 12),
    Insn(0x15, 0, 3, 0x8100),
    Insn(0x28, 0, 0, 14),
    Insn(0x45, 12, 0, 0xfff),
    Insn(0x01, 0, 0, 4),
    Insn(0x48, 0, 0, 12),
    Insn(0x15, 6, 0, 0x0800),
    Insn(0x15, 0, 8, 0x86dd),
    Insn(0x50, 0, 0, 20),
    Insn(0x15, 5, 0, 17),
    Insn(0x15, 0, 5, 44),
    Insn(0x50, 0, 0, 54),
    Insn(0x15, 2, 3, 17),
    Insn(0x50, 0, 0, 23),
    Insn(0x15, 0, 1, 17),
    Insn(0x06, 0, 0, U32_MAX),
    Insn(0x06, 0, 0, 0)]

  const RAW_IP_UDP_FILTER: seq<Insn> := [
    Insn(0x30, 0, 0, 0),
    Insn(0x54, 0, 0, 0xf0),
    Insn(0x15, 6, 0, 0x40),
    Insn(0x15, 0, 8, 0x60),
    Insn(0x30, 0, 0, 6),
    Insn(0x15, 5, 0, 17),
    Insn(0x15, 0, 5, 44),
    Insn(0x30, 0, 0, 40),
    Insn(0x15, 2, 3, 17),
    Insn(0x30, 0, 0, 9),
    Insn(0x15, 0, 1, 17),
    Insn(0x06, 0, 0, U32_MAX),
    Insn(0x06, 0, 0, 0)]

  /** Parameterised by the two address families as the machine loads them. */
  function DltNullUdpFilter(inet: nat, inet6: nat): seq<Insn> {
    [Insn(0x20, 0, 0, 0),
     Insn(0x15, 6, 0, inet),
     Insn(0x15, 0, 8, inet6),
     Insn(0x30, 0, 0, 10),
     Insn(0x15, 5, 0, 17),
     Insn(0x15, 0, 5, 44),
     Insn(0x30, 0, 0, 44),
     Insn(0x15, 2, 3, 17),
     Insn(0x30, 0, 0, 13),
     Insn(0x15, 0, 1, 17),
     Insn(0x06, 0, 0, U32_MAX),
     Insn(0x06, 0, 0, 0)]
  }

  // ----- What the classifiers are for

  predicate ByteIs(f: Frame, i: nat, b: nat) {
    i < |f| && f[i] == b
  }

  /** UDP in the packet at `l3`: the protocol field, or for IPv6 a Fragment header straight after the base one. */
  predicate CarriesUdp(f: Frame, l3: nat, v6: bool) {
    if v6 then ByteIs(f, l3 + 6, 17) || (ByteIs(f, l3 + 6, 44) && ByteIs(f, l3 + 40, 17))
    else ByteIs(f, l3 + 9, 17)
  }

  predicate EtherTypeIs(f: Frame, i: nat, high: nat, low: nat) {
    ByteIs(f, i, high) && ByteIs(f, i + 1, low)
  }

  predicate IpBehind(f: Frame, l3: nat)
    requires l3 >= 2
  {
    || (EtherTypeIs(f, l3 - 2, 0x08, 0x00) && CarriesUdp(f, l3, false))
    || (EtherTypeIs(f, l3 - 2, 0x86, 0xdd) && CarriesUdp(f, l3, true))
  }

  /** Untagged, or tagged with VLAN ID 0: a priority tag. */
  predicate EthernetUdp(f: Frame) {
    if EtherTypeIs(f, 12, 0x81, 0x00)
    then |f| > 15 && f[14] % 16 == 0 && f[15] == 0 && IpBehind(f, 18)
    else IpBehind(f, 14)
  }

  predicate RawIpUdp(f: Frame) {
    f != [] && ((f[0] / 16 == 4 && CarriesUdp(f, 0, false)) || (f[0] / 16 == 6 && CarriesUdp(f, 0, true)))
  }

  predicate WordIs(f: Frame, w: nat) {
    |f| >= 4 && 0x1_0000 * Pair(f[0], f[1]) + Pair(f[2], f[3]) == w
  }

  predicate DltNullUdp(f: Frame, inet: nat, inet6: nat) {
    || (WordIs(f, inet) && CarriesUdp(f, 4, false))
    || (WordIs(f, inet6) && CarriesUdp(f, 4, true))
  }

  function Answer(accept: bool): Verdict { if accept then ACCEPT else DROP }

  // ----- Each classifier, from its last instruction back

  lemma EthernetEnds(f: Frame, anc: nat -> Option<nat>, a: nat, x: nat)
    ensures Run(ETHERNET_UDP_FILTER, f, anc, 16, a, x) == ACCEPT
    ensures Run(ETHERNET_UDP_FILTER, f, anc, 17, a, x) == DROP
  {
  }

  lemma EthernetTests(f: Frame, anc: nat -> Option<nat>, a: nat, x: nat)
    ensures Run(ETHERNET_UDP_FILTER, f, anc, 13, a, x) == Answer(a == 17)
    ensures Run(ETHERNET_UDP_FILTER, f, anc, 15, a, x) == Answer(a == 17)
  {
    EthernetEnds(f, anc, a, x);
  }

  lemma EthernetLoads(f: Frame, anc: nat -> Option<nat>, a: nat, x: nat)
    requires x <= 4
    ensures Run(ETHERNET_UDP_FILTER, f, anc, 12, a, x) == Answer(ByteIs(f, x + 54, 17))
    ensures Run(ETHERNET_UDP_FILTER, f, anc, 14, a, x) == Answer(ByteIs(f, x + 23, 17))
  {
    if x + 54 < |f| {
      EthernetTests(f, anc, f[x + 54], x);
    }
    if x + 23 < |f| {
      EthernetTests(f, anc, f[x + 23], x);
    }
  }

  lemma EthernetIpv6(f: Frame, anc: nat -> Option<nat>, a: nat, x: nat)
    requires x <= 4
    ensures Run(ETHERNET_UDP_FILTER, f, anc, 9, a, x) == Answer(CarriesUdp(f, x + 14, true))
  {
    if x + 20 < |f| {
      var n := f[x + 20];
      EthernetEnds(f, anc, n, x);
      EthernetLoads(f, anc, n, x);
      assert Run(ETHERNET_UDP_FILTER, f, anc, 11, n, x) == if n == 44 then Run(ETHERNET_UDP_FILTER, f, anc, 12, n, x) else DROP;
      assert Run(ETHERNET_UDP_FILTER, f, anc, 10, n, x) == if n == 17 then ACCEPT else Run(ETHERNET_UDP_FILTER, f, anc, 11, n, x);
    }
  }

  lemma EthernetType(f: Frame, anc: nat -> Option<nat>, a: nat, x: nat)
    requires x <= 4
    ensures Run(ETHERNET_UDP_FILTER, f, anc, 7, a, x) ==
            Answer(if a == 0x0800 then CarriesUdp(f, x + 14, false) else a == 0x86dd && CarriesUdp(f, x + 14, true))
  {
    EthernetEnds(f, anc, a, x);
    EthernetLoads(f, anc, a, x);
    EthernetIpv6(f, anc, a, x);
    assert Run(ETHERNET_UDP_FILTER, f, anc, 8, a, x) == if a == 0x86dd then Run(ETHERNET_UDP_FILTER, f, anc, 9, a, x) else DROP;
  }

  lemma EthernetFromType(f: Frame, anc: nat -> Option<nat>, a: nat, x: nat)
    requires x <= 4
    ensures Run(ETHERNET_UDP_FILTER, f, anc, 6, a, x) == Answer(IpBehind(f, x + 14))
  {
    if x + 14 <= |f| {
      EthernetType(f, anc, Pair(f[x + 12], f[x + 13]), x);
    }
  }

  /** For every frame of any length the Ethernet classifier accepts exactly the UDP ones. */
  lemma EthernetExactly(f: Frame, anc: nat -> Option<nat>, a: nat, x: nat)
    ensures Run(ETHERNET_UDP_FILTER, f, anc, 0, a, x) == Answer(EthernetUdp(f))
  {
    var p := ETHERNET_UDP_FILTER;
    assert Run(p, f, anc, 0, a, x) == Run(p, f, anc, 1, a, 0);
    if 14 <= |f| {
      var t := Pair(f[12], f[13]);
      assert Run(p, f, anc, 1, a, 0) == Run(p, f, anc, 2, t, 0);
      if t == 0x8100 {
        EthernetTag(f, anc, t);
      } else {
        EthernetFromType(f, anc, t, 0);
      }
    }
  }

  lemma VlanIdIsZero(high: Byte, low: Byte)
    ensures Pair(high, low) % 0x1000 == 0 <==> high % 16 == 0 && low == 0
  {
    assert Pair(high, low) == 0x1000 * (high / 16) + (0x100 * (high % 16) + low);
  }

  lemma EthernetTag(f: Frame, anc: nat -> Option<nat>, a: nat)
    ensures Run(ETHERNET_UDP_FILTER, f, anc, 3, a, 0) ==
            Answer(|f| > 15 && f[14] % 16 == 0 && f[15] == 0 && IpBehind(f, 18))
  {
    if |f| > 15 {
      var tci := Pair(f[14], f[15]);
      hide And;
      AndVlanId(tci);
      VlanIdIsZero(f[14], f[15]);
      EthernetEnds(f, anc, tci, 0);
      EthernetFromType(f, anc, tci, 4);
      assert Run(ETHERNET_UDP_FILTER, f, anc, 5, tci, 0) == Run(ETHERNET_UDP_FILTER, f, anc, 6, tci, 4);
      assert Run(ETHERNET_UDP_FILTER, f, anc, 4, tci, 0) ==
             if And(tci, 0xfff) != 0 then DROP else Run(ETHERNET_UDP_FILTER, f, anc, 5, tci, 0);
    }
  }

  lemma RawIpEnds(f: Frame, anc: nat -> Option<nat>, a: nat)
    ensures Run(RAW_IP_UDP_FILTER, f, anc, 11, a, 0) == ACCEPT && Run(RAW_IP_UDP_FILTER, f, anc, 12, a, 0) == DROP
    ensures Run(RAW_IP_UDP_FILTER, f, anc, 8, a, 0) == Answer(a == 17) == Run(RAW_IP_UDP_FILTER, f, anc, 10, a, 0)
  {
  }

  lemma RawIpLoads(f: Frame, anc: nat -> Option<nat>, a: nat)
    ensures Run(RAW_IP_UDP_FILTER, f, anc, 7, a, 0) == Answer(ByteIs(f, 40, 17))
    ensures Run(RAW_IP_UDP_FILTER, f, anc, 9, a, 0) == Answer(ByteIs(f, 9, 17))
  {
    if 40 < |f| {
      RawIpEnds(f, anc, f[40]);
    }
    if 9 < |f| {
      RawIpEnds(f, anc, f[9]);
    }
  }

  lemma RawIpIpv6(f: Frame, anc: nat -> Option<nat>, a: nat)
    ensures Run(RAW_IP_UDP_FILTER, f, anc, 4, a, 0) == Answer(CarriesUdp(f, 0, true))
  {
    if 6 < |f| {
      var n := f[6];
      RawIpEnds(f, anc, n);
      RawIpLoads(f, anc, n);
      assert Run(RAW_IP_UDP_FILTER, f, anc, 6, n, 0) == if n == 44 then Run(RAW_IP_UDP_FILTER, f, anc, 7, n, 0) else DROP;
      assert Run(RAW_IP_UDP_FILTER, f, anc, 5, n, 0) == if n == 17 then ACCEPT else Run(RAW_IP_UDP_FILTER, f, anc, 6, n, 0);
    }
  }

  lemma RawIpExactly(f: Frame, anc: nat -> Option<nat>, a: nat)
    ensures Run(RAW_IP_UDP_FILTER, f, anc, 0, a, 0) == Answer(RawIpUdp(f))
  {
    var p := RAW_IP_UDP_FILTER;
    if f != [] {
      AndVersion(f[0]);
      var v := And(f[0], 0xf0);
      assert Run(p, f, anc, 0, a, 0) == Run(p, f, anc, 1, f[0], 0) == Run(p, f, anc, 2, v, 0);
      RawIpEnds(f, anc, v);
      RawIpLoads(f, anc, v);
      RawIpIpv6(f, anc, v);
      assert Run(p, f, anc, 3, v, 0) == if v == 0x60 then Run(p, f, anc, 4, v, 0) else DROP;
      assert Run(p, f, anc, 2, v, 0) == if v == 0x40 then Run(p, f, anc, 9, v, 0) else Run(p, f, anc, 3, v, 0);
    }
  }

  lemma DltNullEnds(inet: nat, inet6: nat, f: Frame, anc: nat -> Option<nat>, a: nat)
    ensures var p := DltNullUdpFilter(inet, inet6);
            && Run(p, f, anc, 10, a, 0) == ACCEPT && Run(p, f, anc, 11, a, 0) == DROP
            && Run(p, f, anc, 7, a, 0) == Answer(a == 17) == Run(p, f, anc, 9, a, 0)
  {
  }

  lemma DltNullLoads(inet: nat, inet6: nat, f: Frame, anc: nat -> Option<nat>, a: nat)
    ensures Run(DltNullUdpFilter(inet, inet6), f, anc, 6, a, 0) == Answer(ByteIs(f, 44, 17))
    ensures Run(DltNullUdpFilter(inet, inet6), f, anc, 8, a, 0) == Answer(ByteIs(f, 13, 17))
  {
    if 44 < |f| {
      DltNullEnds(inet, inet6, f, anc, f[44]);
    }
    if 13 < |f| {
      DltNullEnds(inet, inet6, f, anc, f[13]);
    }
  }

  lemma DltNullIpv6(inet: nat, inet6: nat, f: Frame, anc: nat -> Option<nat>, a: nat)
    ensures Run(DltNullUdpFilter(inet, inet6), f, anc, 3, a, 0) == Answer(CarriesUdp(f, 4, true))
  {
    var p := DltNullUdpFilter(inet, inet6);
    if 10 < |f| {
      var n := f[10];
      DltNullEnds(inet, inet6, f, anc, n);
      DltNullLoads(inet, inet6, f, anc, n);
      assert Run(p, f, anc, 5, n, 0) == if n == 44 then Run(p, f, anc, 6, n, 0) else DROP;
      assert Run(p, f, anc, 4, n, 0) == if n == 17 then ACCEPT else Run(p, f, anc, 5, n, 0);
    }
  }

  lemma DltNullExactly(inet: nat, inet6: nat, f: Frame, anc: nat -> Option<nat>, a: nat)
    requires inet != inet6
    ensures Run(DltNullUdpFilter(inet, inet6), f, anc, 0, a, 0) == Answer(DltNullUdp(f, inet, inet6))
  {
    var p := DltNullUdpFilter(inet, inet6);
    if 4 <= |f| {
      var w := 0x1_0000 * Pair(f[0], f[1]) + Pair(f[2], f[3]);
      assert Run(p, f, anc, 0, a, 0) == Run(p, f, anc, 1, w, 0);
      DltNullEnds(inet, inet6, f, anc, w);
      DltNullLoads(inet, inet6, f, anc, w);
      DltNullIpv6(inet, inet6, f, anc, w);
      assert Run(p, f, anc, 2, w, 0) == if w == inet6 then Run(p, f, anc, 3, w, 0) else DROP;
      assert Run(p, f, anc, 1, w, 0) == if w == inet then Run(p, f, anc, 8, w, 0) else Run(p, f, anc, 2, w, 0);
    }
  }

  // ----- One packet, every framing

  /** The address family as `DLT_NULL` stores it, in host order, and the constant the filter compares. */
  function HostBytes(af: Byte, little: bool): Frame {
    if little then [af, 0, 0, 0] else [0, 0, 0, af]
  }

  function HostToBpf(af: Byte, little: bool): nat {
    if little then af * 0x100_0000 else af
  }

  lemma HostToBpfIsTheLoad(af: Byte, other: Byte, little: bool, rest: Frame)
    ensures WordIs(HostBytes(af, little) + rest, HostToBpf(other, little)) <==> af == other
  {
    var f := HostBytes(af, little) + rest;
    assert f[0] == HostBytes(af, little)[0] && f[1] == HostBytes(af, little)[1];
    assert f[2] == HostBytes(af, little)[2] && f[3] == HostBytes(af, little)[3];
  }

  /** The IP version a packet's first nibble gives, if it has one. */
  function Version(packet: Frame): nat {
    if packet == [] then 0 else packet[0] / 16
  }

  /** The two ethertype bytes agree with the packet's version. */
  predicate EtherTypeAgrees(high: Byte, low: Byte, packet: Frame) {
    && (packet != [] ==> (high == 0x08 && low == 0x00 <==> Version(packet) == 4))
    && (packet != [] ==> (high == 0x86 && low == 0xdd <==> Version(packet) == 6))
    && !(high == 0x81 && low == 0x00)
  }

  lemma CarriesUdpShift(head: Frame, packet: Frame, v6: bool)
    ensures CarriesUdp(head + packet, |head|, v6) <==> CarriesUdp(packet, 0, v6)
  {
    assert forall i :: 0 <= i < |packet| ==> (head + packet)[|head| + i] == packet[i];
  }

  lemma IpBehindShift(head: Frame, packet: Frame)
    requires |head| >= 2 && EtherTypeAgrees(head[|head| - 2], head[|head| - 1], packet)
    ensures IpBehind(head + packet, |head|) <==> RawIpUdp(packet)
  {
    CarriesUdpShift(head, packet, false);
    CarriesUdpShift(head, packet, true);
  }

  /** The same packet gets the same verdict bare, behind an Ethernet header and behind a priority tag. */
  lemma SameVerdictOnEthernet(head: Frame, packet: Frame, anc: nat -> Option<nat>)
    requires |head| == 14 || (|head| == 18 && head[12] == 0x81 && head[13] == 0x00 && head[14] % 16 == 0 && head[15] == 0)
    requires EtherTypeAgrees(head[|head| - 2], head[|head| - 1], packet)
    ensures Run(ETHERNET_UDP_FILTER, head + packet, anc, 0, 0, 0) == Run(RAW_IP_UDP_FILTER, packet, anc, 0, 0, 0)
  {
    EthernetExactly(head + packet, anc, 0, 0);
    RawIpExactly(packet, anc, 0);
    IpBehindShift(head, packet);
    var f := head + packet;
    assert f[12] == head[12] && f[13] == head[13];
    if |head| == 18 {
      assert f[14] == head[14] && f[15] == head[15];
    }
  }

  lemma SameVerdictOnDltNull(af: Byte, inet: Byte, inet6: Byte, little: bool, packet: Frame, anc: nat -> Option<nat>)
    requires inet != inet6
    requires packet != [] ==> (af == inet <==> Version(packet) == 4) && (af == inet6 <==> Version(packet) == 6)
    ensures Run(DltNullUdpFilter(HostToBpf(inet, little), HostToBpf(inet6, little)), HostBytes(af, little) + packet, anc, 0, 0, 0)
            == Run(RAW_IP_UDP_FILTER, packet, anc, 0, 0, 0)
  {
    DltNullExactly(HostToBpf(inet, little), HostToBpf(inet6, little), HostBytes(af, little) + packet, anc, 0);
    RawIpExactly(packet, anc, 0);
    HostToBpfIsTheLoad(af, inet, little, packet);
    HostToBpfIsTheLoad(af, inet6, little, packet);
    CarriesUdpShift(HostBytes(af, little), packet, false);
    CarriesUdpShift(HostBytes(af, little), packet, true);
  }

  // ----- What a Linux capture installs

  function Installed(rawIp: bool, ignoresOutgoing: bool): seq<Insn> {
    var classifier := if rawIp then RAW_IP_UDP_FILTER else DROP_VLAN_TAGGED_PROLOGUE + ETHERNET_UDP_FILTER;
    if ignoresOutgoing then classifier else DROP_OUTGOING_PROLOGUE + classifier
  }

  /** The installed program accepts exactly the UDP frames that are neither ours nor another VLAN's. */
  lemma InstalledExactly(rawIp: bool, ignoresOutgoing: bool, f: Frame, anc: nat -> Option<nat>)
    ensures Run(Installed(rawIp, ignoresOutgoing), f, anc, 0, 0, 0) ==
            Answer((ignoresOutgoing || !Outgoing(anc)) && (if rawIp then RawIpUdp(f) else !VlanTagged(anc) && EthernetUdp(f)))
  {
    var classifier := if rawIp then RAW_IP_UDP_FILTER else DROP_VLAN_TAGGED_PROLOGUE + ETHERNET_UDP_FILTER;
    if rawIp {
      RawIpExactly(f, anc, 0);
    } else {
      VlanPrologue(ETHERNET_UDP_FILTER, f, anc, 0);
      EthernetExactly(f, anc, 0, 0);
    }
    if !ignoresOutgoing {
      assert classifier[0].code == 0x30 || classifier[0].code == 0x20;
      OutgoingPrologueIsTransparent(classifier, f, anc);
    }
  }
}
