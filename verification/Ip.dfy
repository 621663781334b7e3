/** IP addresses and the classes of them the daemon tells apart. */
module Ip {
  import opened Wrappers

  type V4Addr = bv32
  type V6Addr = bv128

  datatype IpAddr = V4(v4: V4Addr) | V6(v6: V6Addr) {
    predicate IsMulticast() {
      match this
      case V4(a) => a >> 28 == 0xe
      case V6(a) => V6Multicast(a)
    }
  }

  const V4_BROADCAST: V4Addr := 0xffff_ffff

  datatype Ipv6Scope = LinkLocalScope | RoutableScope

  predicate V6Multicast(a: V6Addr) { a >> 120 == 0xff }

  predicate V6LinkLocal(a: V6Addr) { a >> 118 == 0x3fa }

  predicate V6UniqueLocal(a: V6Addr) { a >> 121 == 0x7e }

  function ScopeOf(a: V6Addr): Ipv6Scope {
    if (V6Multicast(a) && (a >> 112) & 0xf == 2) || V6LinkLocal(a) then LinkLocalScope else RoutableScope
  }

  /** The bits an address of the subnet is free in. */
  function HostMask(prefix: nat): bv32
    requires prefix <= 32
  {
    0xffff_ffff >> prefix
  }

  /** The highest address of the subnet, which only subnets of at least four addresses have. */
  function DirectedBroadcast(addr: V4Addr, prefix: nat): Option<V4Addr> {
    if prefix > 30 then None else Some(addr | HostMask(prefix))
  }

  /** The classes as ranges: 224.0.0.0/4 and ff00::/8, fe80::/10, fc00::/7. */
  lemma ClassesAreRanges(a: V4Addr, b: V6Addr)
    ensures V4(a).IsMulticast() <==> 0xe000_0000 <= a <= 0xefff_ffff
    ensures V6(b).IsMulticast() <==> 0xff00_0000_0000_0000_0000_0000_0000_0000 <= b
    ensures V6LinkLocal(b) <==> 0xfe80_0000_0000_0000_0000_0000_0000_0000 <= b <= 0xfebf_ffff_ffff_ffff_ffff_ffff_ffff_ffff
    ensures V6UniqueLocal(b) <==> 0xfc00_0000_0000_0000_0000_0000_0000_0000 <= b <= 0xfdff_ffff_ffff_ffff_ffff_ffff_ffff_ffff
  {
  }

  /** `b` is in the subnet of `addr`: they agree in the bits `mask` leaves. */
  predicate InSubnet(addr: V4Addr, mask: bv32, b: V4Addr) {
    b & !mask == addr & !mask
  }

  lemma BroadcastOf(addr: V4Addr, prefix: nat)
    requires prefix <= 32
    ensures DirectedBroadcast(addr, prefix) == if prefix >= 31 then None else Some(addr | HostMask(prefix))
  {
    hide HostMask;
  }

  /** Of all addresses of the subnet the directed broadcast is the highest. */
  lemma DirectedBroadcastIsHighest(addr: V4Addr, prefix: nat, b: V4Addr)
    requires prefix <= 30 && InSubnet(addr, HostMask(prefix), b)
    ensures DirectedBroadcast(addr, prefix).Some? && b <= DirectedBroadcast(addr, prefix).value
    ensures InSubnet(addr, HostMask(prefix), DirectedBroadcast(addr, prefix).value)
  {
    hide *;
    BroadcastOf(addr, prefix);
    HighestUnderMask(addr, HostMask(prefix), b);
  }

  lemma HighestUnderMask(addr: bv32, mask: bv32, b: bv32)
    requires InSubnet(addr, mask, b)
    ensures b <= addr | mask && InSubnet(addr, mask, addr | mask)
  {
  }

  /** Setting host bits cannot turn an address into a group: the class is in the top four bits. */
  lemma DirectedBroadcastIsNoGroup(addr: V4Addr, prefix: nat)
    requires !V4(addr).IsMulticast()
    ensures DirectedBroadcast(addr, prefix).Some? ==> !V4(DirectedBroadcast(addr, prefix).value).IsMulticast()
  {
    if 4 <= prefix <= 30 {
      LowBitsOnly(prefix);
      KeepsClass(addr, 0xffff_ffff >> prefix);
    }
  }

  lemma LowBitsOnly(prefix: nat)
    requires 4 <= prefix <= 30
    ensures (0xffff_ffff as bv32 >> prefix) >> 28 == 0
  {
  }

  lemma KeepsClass(addr: bv32, mask: bv32)
    requires mask >> 28 == 0
    ensures (addr | mask) >> 28 == addr >> 28
  {
  }
}
