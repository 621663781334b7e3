/** The source addresses of an interface and how an address scan picks them (src/interface.rs). */
module Addresses {
  import opened Wrappers
  import opened Primitives
  import opened Ip

  datatype V6Rank = NotASource | Global | UniqueLocal | LinkLocal {
    /** Declaration order, worst to best. */
    function Order(): nat {
      match this
      case NotASource => 0
      case Global => 1
      case UniqueLocal => 2
      case LinkLocal => 3
    }
  }

  function RankOf(a: V6Addr): V6Rank {
    if V6Multicast(a) || a == 0 || a == 1 then NotASource
    else if V6LinkLocal(a) then LinkLocal
    else if V6UniqueLocal(a) then UniqueLocal
    else Global
  }

  datatype InterfaceAddresses = InterfaceAddresses(
    mac: Option<Mac>, v4: Option<V4Addr>, v4Prefix: Option<nat>, v6: Option<V6Addr>, v6Routable: Option<V6Addr>) {

    /** Which v6 address sends to a scope: a routable one, if there is one, beyond the link. */
    function V6Source(scope: Ipv6Scope): Option<V6Addr> {
      match scope
      case LinkLocalScope => v6
      case RoutableScope => if v6Routable.Some? then v6Routable else v6
    }

    /** Any usable v6 address makes `v6` one, so the scopes have a source together or not at all. */
    predicate Coherent() {
      v6Routable.Some? ==> v6.Some?
    }
  }

  const NO_ADDRESSES := InterfaceAddresses(None, None, None, None, None)

  /** A v6 source exists for one scope exactly when it does for the other. */
  lemma ScopesAgree(addrs: InterfaceAddresses, a: Ipv6Scope, b: Ipv6Scope)
    ensures (addrs.Coherent() <==> (addrs.V6Source(LinkLocalScope).None? <==> addrs.V6Source(RoutableScope).None?))
    ensures addrs.Coherent() ==> (addrs.V6Source(a).None? <==> addrs.V6Source(b).None?)
  {
  }

  predicate Eligible(a: V6Addr, routable: bool) {
    RankOf(a) != NotASource && (routable ==> RankOf(a) != LinkLocal)
  }

  /** `pick` is the first of the best-ranked eligible addresses, or none is eligible. */
  ghost predicate FirstOfBest(seen: seq<V6Addr>, routable: bool, pick: Option<V6Addr>) {
    match pick
    case None => forall j :: 0 <= j < |seen| ==> !Eligible(seen[j], routable)
    case Some(a) =>
      exists i :: 0 <= i < |seen| && seen[i] == a && Eligible(a, routable) && FirstAt(seen, routable, i)
  }

  /** How an address ranks among the eligible; 0 if it is not. */
  function Score(a: V6Addr, routable: bool): nat {
    if Eligible(a, routable) then RankOf(a).Order() else 0
  }

  ghost predicate FirstAt(seen: seq<V6Addr>, routable: bool, i: nat)
    requires i < |seen|
  {
    && (forall j :: 0 <= j < |seen| ==> Score(seen[j], routable) <= Score(seen[i], routable))
    && (forall j :: 0 <= j < i ==> Score(seen[j], routable) < Score(seen[i], routable))
  }

  lemma EligibleScores(a: V6Addr, b: V6Addr, routable: bool)
    ensures Eligible(a, routable) <==> Score(a, routable) > 0
    ensures Eligible(a, routable) && Eligible(b, routable) ==>
              (RankOf(a).Order() > RankOf(b).Order() <==> Score(a, routable) > Score(b, routable))
  {
  }

  lemma FirstAtNext(seen: seq<V6Addr>, routable: bool, i: nat, a: V6Addr)
    requires i < |seen| && FirstAt(seen, routable, i)
    ensures if Score(a, routable) > Score(seen[i], routable) then FirstAt(seen + [a], routable, |seen|)
            else FirstAt(seen + [a], routable, i)
  {
    hide Score;
  }

  lemma FirstOfBestStep(seen: seq<V6Addr>, routable: bool, pick: Option<V6Addr>, a: V6Addr)
    requires FirstOfBest(seen, routable, pick)
    ensures FirstOfBest(seen + [a], routable,
              if Eligible(a, routable) && (pick.None? || RankOf(a).Order() > RankOf(pick.value).Order()) then Some(a) else pick)
  {
    var all := seen + [a];
    assert all[|seen|] == a;
    if pick.Some? {
      EligibleScores(a, pick.value, routable);
      hide Score, RankOf, FirstAt, Eligible;
      var i :| 0 <= i < |seen| && seen[i] == pick.value && Eligible(pick.value, routable) && FirstAt(seen, routable, i);
      FirstAtNext(seen, routable, i, a);
      assert all[i] == seen[i];
    } else {
      NoneThenFirst(seen, routable, a);
    }
  }

  lemma NoneThenFirst(seen: seq<V6Addr>, routable: bool, a: V6Addr)
    requires forall j :: 0 <= j < |seen| ==> !Eligible(seen[j], routable)
    ensures Eligible(a, routable) ==> FirstAt(seen + [a], routable, |seen|)
    ensures !Eligible(a, routable) ==> forall j :: 0 <= j <= |seen| ==> !Eligible((seen + [a])[j], routable)
  {
    hide RankOf;
    forall j | 0 <= j < |seen|
      ensures Score(seen[j], routable) == 0
    {
    }
    EligibleScores(a, a, routable);
  }

  lemma ClassesApart(a: V6Addr)
    ensures V6LinkLocal(a) || V6UniqueLocal(a) ==> !V6Multicast(a) && a != 0 && a != 1
    ensures !(V6LinkLocal(a) && V6UniqueLocal(a))
  {
  }

  predicate Sourceable(a: V6Addr) { !V6Multicast(a) && a != 0 && a != 1 }

  /**
   The pick in words: a link-local address if one was found and may be picked, else a unique-local
   one, else a global one; of several the first.
   */
  lemma PickedByClass(seen: seq<V6Addr>, routable: bool, a: V6Addr)
    requires FirstOfBest(seen, routable, Some(a))
    ensures Sourceable(a) && a in seen
    ensures V6LinkLocal(a) <==> !routable && exists i :: 0 <= i < |seen| && V6LinkLocal(seen[i])
    ensures !V6LinkLocal(a) ==> (V6UniqueLocal(a) <==> exists i :: 0 <= i < |seen| && V6UniqueLocal(seen[i]))
    ensures exists i :: 0 <= i < |seen| && seen[i] == a && forall j :: 0 <= j < i ==> !Alike(seen[j], a)
  {
    hide V6LinkLocal, V6UniqueLocal, V6Multicast, Score, RankOf;
    var k :| 0 <= k < |seen| && seen[k] == a && Eligible(a, routable) && FirstAt(seen, routable, k);
    EligibleScores(a, a, routable);
    ScoredByClass(a, routable);
    forall j | 0 <= j < |seen|
      ensures V6LinkLocal(seen[j]) && !routable ==> V6LinkLocal(a)
      ensures V6UniqueLocal(seen[j]) && !V6LinkLocal(a) ==> V6UniqueLocal(a)
      ensures j < k ==> !Alike(seen[j], a)
    {
      ScoredByClass(seen[j], routable);
    }
  }

  lemma ScoredByClass(a: V6Addr, routable: bool)
    ensures Score(a, routable) ==
            if !Sourceable(a) then 0 else if V6LinkLocal(a) then (if routable then 0 else 3) else if V6UniqueLocal(a) then 2 else 1
    ensures V6LinkLocal(a) || V6UniqueLocal(a) ==> Sourceable(a) && !(V6LinkLocal(a) && V6UniqueLocal(a))
  {
    ClassesApart(a);
    hide V6LinkLocal, V6UniqueLocal, V6Multicast;
  }

  /** Of one class: link-local, unique-local, or neither. */
  predicate Alike(a: V6Addr, b: V6Addr) {
    Sourceable(a) && Sourceable(b) && (V6LinkLocal(a) <==> V6LinkLocal(b)) && (V6UniqueLocal(a) <==> V6UniqueLocal(b))
  }

  class V6Pick {
    var bestRank: V6Rank
    var bestRoutableRank: V6Rank
    ghost var seen: seq<V6Addr>

    constructor ()
      ensures Tracks(NO_ADDRESSES) && seen == []
    {
      bestRank, bestRoutableRank, seen := NotASource, NotASource, [];
    }

    ghost predicate Tracks(addrs: InterfaceAddresses)
      reads this
    {
      && FirstOfBest(seen, false, addrs.v6)
      && FirstOfBest(seen, true, addrs.v6Routable)
      && (addrs.v6.Some? ==> bestRank == RankOf(addrs.v6.value))
      && (addrs.v6Routable.Some? ==> bestRoutableRank == RankOf(addrs.v6Routable.value))
    }

    method Consider(addrs: InterfaceAddresses, a: V6Addr) returns (r: InterfaceAddresses)
      requires Tracks(addrs)
      modifies this
      ensures Tracks(r) && seen == old(seen) + [a]
      ensures r == addrs.(v6 := r.v6, v6Routable := r.v6Routable)
    {
      FirstOfBestStep(seen, false, addrs.v6, a);
      FirstOfBestStep(seen, true, addrs.v6Routable, a);
      seen := seen + [a];
      r := addrs;
      var rank := RankOf(a);
      if rank == NotASource {
        return;
      }
      if addrs.v6.None? || rank.Order() > bestRank.Order() {
        r := r.(v6 := Some(a));
        bestRank := rank;
      }
      if rank.Order() < LinkLocal.Order() && (addrs.v6Routable.None? || rank.Order() > bestRoutableRank.Order()) {
        r := r.(v6Routable := Some(a));
        bestRoutableRank := rank;
      }
    }
  }

  /** A scan of an interface's usable addresses. */
  method Scan(found: seq<V6Addr>, start: InterfaceAddresses) returns (r: InterfaceAddresses)
    requires start.v6 == None && start.v6Routable == None
    ensures FirstOfBest(found, false, r.v6) && FirstOfBest(found, true, r.v6Routable)
    ensures r == start.(v6 := r.v6, v6Routable := r.v6Routable)
    ensures r.Coherent()
  {
    var pick := new V6Pick();
    r := start;
    var i := 0;
    while i < |found|
      invariant i <= |found| && pick.seen == found[..i] && fresh(pick)
      invariant pick.Tracks(r)
      invariant r == start.(v6 := r.v6, v6Routable := r.v6Routable)
    {
      r := pick.Consider(r, found[i]);
      i := i + 1;
    }
    assert found[..i] == found;
    BestIsCoherent(found, r);
  }

  /** What a machine says of an interface: its v6 addresses in the order they are listed. */
  datatype Survey = Survey(mac: Option<Mac>, v4: Option<V4Addr>, v4Prefix: Option<nat>, v6s: seq<V6Addr>, mtu: Option<nat>)

  const NO_SURVEY := Survey(None, None, None, [], None)

  /** The addresses are those of the survey, the v6 sources picked as `FirstOfBest` says. */
  ghost predicate Surveyed(s: Survey, addrs: InterfaceAddresses, mtu: Option<nat>) {
    && addrs.mac == s.mac && addrs.v4 == s.v4 && addrs.v4Prefix == s.v4Prefix && mtu == s.mtu
    && FirstOfBest(s.v6s, false, addrs.v6) && FirstOfBest(s.v6s, true, addrs.v6Routable)
  }

  lemma BestIsCoherent(found: seq<V6Addr>, r: InterfaceAddresses)
    requires FirstOfBest(found, false, r.v6) && FirstOfBest(found, true, r.v6Routable)
    ensures r.Coherent()
  {
    if r.v6Routable.Some? {
      var i :| 0 <= i < |found| && found[i] == r.v6Routable.value && Eligible(r.v6Routable.value, true) && FirstAt(found, true, i);
      assert Eligible(found[i], false);
    }
  }
}
