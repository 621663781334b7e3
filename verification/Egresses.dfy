/**
 Sending (src/dispatch/egress.rs): for one packet, no datagram twice on one egress, and one copy for
 each peer. A log of attempts, kept beside the state, says what went out.
 */
module Egresses {
  import opened Wrappers
  import opened Primitives
  import opened Kernels
  import opened Ip
  import opened Addresses
  import opened Interfaces
  import opened InterfaceTables
  import opened Datagrams

  const BROADCAST_MAC: Mac := 0xffff_ffff_ffff

  /** One datagram handed to the wire: `out` of its `total` frames were taken. */
  datatype Attempt = Attempt(packet: nat, routed: bool, egress: nat, digest: nat, total: nat, out: nat) {
    predicate Whole() { out == total }
  }

  ghost predicate WentOut(log: seq<Attempt>, packet: nat, egress: nat, digest: nat) {
    exists i :: 0 <= i < |log| && log[i].routed && log[i].Whole()
                && log[i].packet == packet && log[i].egress == egress && log[i].digest == digest
  }

  lemma WentOutNext(log: seq<Attempt>, a: Attempt, packet: nat, egress: nat, digest: nat)
    ensures WentOut(log + [a], packet, egress, digest) <==>
              WentOut(log, packet, egress, digest)
              || (a.routed && a.Whole() && a.packet == packet && a.egress == egress && a.digest == digest)
  {
    var all := log + [a];
    assert all[|log|] == a;
    if WentOut(log, packet, egress, digest) {
      var i :| 0 <= i < |log| && log[i].routed && log[i].Whole()
               && log[i].packet == packet && log[i].egress == egress && log[i].digest == digest;
      assert all[i] == log[i];
    }
  }

  /** No datagram goes out whole twice on one egress for one packet. */
  ghost predicate OnceEach(log: seq<Attempt>) {
    forall i, j :: 0 <= i < j < |log| && log[i].routed && log[i].Whole() && log[j].routed && log[j].Whole() ==>
      log[i].packet != log[j].packet || log[i].egress != log[j].egress || log[i].digest != log[j].digest
  }

  datatype SendError = NotConnected | Unbuildable(error: DatagramError) | SendFailed

  /** What became of a datagram; the caller sees only whether it failed. */
  datatype Fate = Suppressed | Sent | Unavailable | NotPlanned(error: SendError) | Failed(error: SendError)

  datatype Plan = Drop | Error(error: SendError) | Go(frames: Frames)

  /** What planning comes to on the table as it is. */
  function PlanFor(entries: seq<InterfaceEntry>, captures: seq<CaptureEntry>, egress: nat, d: Datagram): (r: Plan)
    ensures r.Go? ==>
              && r.frames.Valid() && egress < |captures| && captures[egress].resident
              && captures[egress].interface < |entries| && entries[captures[egress].interface].presence.Present?
  {
    if egress >= |captures| || !captures[egress].resident || captures[egress].interface >= |entries| then Drop
    else
      var e := entries[captures[egress].interface];
      if !e.presence.Present? then Error(NotConnected)
      else
        match BuildUdp(e.addrs, captures[egress].link, d, FrameMtu(e.mtu))
        case Success(frames) => Go(frames)
        case Failure(error) => Error(Unbuildable(error))
  }

  // ----- What becomes of a datagram, said of the table

  /** No capture is in the table under this key now. */
  predicate EgressOut(captures: seq<CaptureEntry>, egress: nat) {
    egress >= |captures| || !captures[egress].resident
  }

  predicate EgressBound(entries: seq<InterfaceEntry>, captures: seq<CaptureEntry>, egress: nat)
    requires !EgressOut(captures, egress)
  {
    captures[egress].interface < |entries| && entries[captures[egress].interface].presence.Present?
  }

  /** The egress is in, its interface bound, and the datagram can be built from what the interface has. */
  predicate CanSend(entries: seq<InterfaceEntry>, captures: seq<CaptureEntry>, egress: nat, d: Datagram) {
    && !EgressOut(captures, egress) && EgressBound(entries, captures, egress)
    && var e := entries[captures[egress].interface];
       Buildable(e.addrs, captures[egress].link, d, FrameMtu(e.mtu))
  }

  /** Why a datagram whose egress is in cannot be planned. */
  predicate Prevents(entries: seq<InterfaceEntry>, captures: seq<CaptureEntry>, egress: nat, d: Datagram, error: SendError)
    requires !EgressOut(captures, egress)
  {
    if !EgressBound(entries, captures, egress) then error == NotConnected
    else
      var e := entries[captures[egress].interface];
      error.Unbuildable? && Lacks(e.addrs, captures[egress].link, d, FrameMtu(e.mtu), error.error)
  }

  predicate LaysOut(entries: seq<InterfaceEntry>, captures: seq<CaptureEntry>, egress: nat, d: Datagram, f: Frames)
    requires CanSend(entries, captures, egress, d)
  {
    var e := entries[captures[egress].interface];
    Lays(f, captures[egress].link, d.dst.ip.V6?, |d.payload|, FrameMtu(e.mtu))
  }

  /**
   Planning: nothing for an egress that is out, an error for an interface that is not bound or that
   lacks what the datagram needs, and else the frames.
   */
  lemma PlannedExactly(entries: seq<InterfaceEntry>, captures: seq<CaptureEntry>, egress: nat, d: Datagram)
    requires egress < |captures| ==> captures[egress].interface < |entries|
    ensures match PlanFor(entries, captures, egress, d)
            case Drop => EgressOut(captures, egress)
            case Error(error) =>
              !EgressOut(captures, egress) && !CanSend(entries, captures, egress, d) && Prevents(entries, captures, egress, d, error)
            case Go(f) => CanSend(entries, captures, egress, d) && LaysOut(entries, captures, egress, d, f)
  {
    if !EgressOut(captures, egress) {
      var e := entries[captures[egress].interface];
      BuiltExactly(e.addrs, captures[egress].link, d, FrameMtu(e.mtu));
    }
    hide Buildable, Lacks, Lays, BuildUdp;
  }

  /** What a datagram that was not suppressed met. */
  predicate Meets(fate: Fate, entries: seq<InterfaceEntry>, captures: seq<CaptureEntry>, egress: nat, d: Datagram) {
    if EgressOut(captures, egress) then fate == Unavailable
    else if CanSend(entries, captures, egress, d) then fate == Sent || fate == Failed(SendFailed)
    else fate.NotPlanned? && Prevents(entries, captures, egress, d, fate.error)
  }

  /** An attempt is one at all the frames the datagram is laid out in. */
  ghost predicate AttemptsAll(entries: seq<InterfaceEntry>, captures: seq<CaptureEntry>, egress: nat, d: Datagram, a: Attempt) {
    && CanSend(entries, captures, egress, d) && a.egress == egress
    && exists f: Frames :: LaysOut(entries, captures, egress, d, f) && a.total == f.Count()
  }

  ghost predicate AllCoherent(entries: seq<InterfaceEntry>) {
    forall j :: 0 <= j < |entries| ==> entries[j].addrs.Coherent()
  }

  lemma TablesAreCoherent(entries: seq<InterfaceEntry>, captures: seq<CaptureEntry>, k: KernelState)
    requires TableOk(entries, captures, k)
    ensures AllCoherent(entries)
  {
    forall j | 0 <= j < |entries|
      ensures entries[j].addrs.Coherent()
    {
      assert EntryOk(entries[j], j, captures, k);
    }
  }

  /** Copies to peers of one family are planned together or not at all. */
  lemma CopiesPlanTogether(entries: seq<InterfaceEntry>, captures: seq<CaptureEntry>, egress: nat, d: Datagram, a: SockAddr, b: SockAddr)
    requires AllCoherent(entries) && a.ip.V4? == b.ip.V4?
    ensures PlanFor(entries, captures, egress, d.(dst := a)) == PlanFor(entries, captures, egress, d.(dst := b))
  {
    if egress < |captures| && captures[egress].interface < |entries| {
      var e := entries[captures[egress].interface];
      CopiesBuildTogether(e.addrs, captures[egress].link, d, a, b, FrameMtu(e.mtu));
    }
  }

  /** What planning depends on, apart from what was sent. */
  ghost predicate SamePlans(a: seq<CaptureEntry>, b: seq<CaptureEntry>) {
    |a| == |b| && forall c :: 0 <= c < |a| ==>
      b[c].resident == a[c].resident && b[c].link == a[c].link && b[c].interface == a[c].interface
  }

  lemma PlannedIsReady(entries: seq<InterfaceEntry>, captures: seq<CaptureEntry>, egress: nat, d: Datagram)
    requires PlanFor(entries, captures, egress, d).Go?
    ensures PlanFor(entries, captures, egress, d).frames.Valid() && egress < |captures| && captures[egress].resident
  {
  }

  lemma PlansStay(entries: seq<InterfaceEntry>, a: seq<CaptureEntry>, b: seq<CaptureEntry>, egress: nat, d: Datagram)
    requires SamePlans(a, b)
    ensures PlanFor(entries, a, egress, d) == PlanFor(entries, b, egress, d)
    ensures CanSend(entries, a, egress, d) <==> CanSend(entries, b, egress, d)
  {
    hide Buildable, BuildUdp;
  }

  /** What was sent counts the frames that were planned. */
  lemma AttemptedAll(entries: seq<InterfaceEntry>, a: seq<CaptureEntry>, b: seq<CaptureEntry>, egress: nat, d: Datagram, t: Attempt)
    requires SamePlans(a, b) && PlanFor(entries, a, egress, d).Go?
    requires t.egress == egress && t.total == PlanFor(entries, a, egress, d).frames.Count()
    ensures !EgressOut(b, egress) && CanSend(entries, b, egress, d) && AttemptsAll(entries, b, egress, d, t)
    ensures PlanFor(entries, a, egress, d) == PlanFor(entries, b, egress, d)
  {
    PlansStay(entries, a, b, egress, d);
    PlannedExactly(entries, b, egress, d);
    hide CanSend, LaysOut, EgressOut;
    var f := PlanFor(entries, b, egress, d).frames;
    assert LaysOut(entries, b, egress, d, f) && t.total == f.Count();
  }

  ghost predicate Injective(hash: (Mac, Datagram) -> nat) {
    forall m, d, n, e :: hash(m, d) == hash(n, e) ==> m == n && d == e
  }

  /** What a fate leaves in the log: one whole attempt, one partial attempt, or nothing. */
  ghost predicate Became(before: seq<Attempt>, after: seq<Attempt>, fate: Fate, packet: nat, routing: bool, egress: nat, digest: nat) {
    if fate.Sent? || fate.Failed? then
      && |after| == |before| + 1 && after == before + [after[|before|]]
      && var a := after[|before|];
      && a.packet == packet && a.routed == routing && a.egress == egress && a.digest == digest
      && (a.Whole() <==> fate.Sent?)
    else
      after == before
  }

  /** From `mark` on, every attempt was at all the frames of the datagram. */
  ghost predicate AllAttempted(entries: seq<InterfaceEntry>, captures: seq<CaptureEntry>, egress: nat, d: Datagram,
                               log: seq<Attempt>, mark: nat) {
    forall i :: mark <= i < |log| ==> AttemptsAll(entries, captures, egress, d, log[i])
  }

  lemma NothingAttempted(entries: seq<InterfaceEntry>, captures: seq<CaptureEntry>, egress: nat, d: Datagram,
                         log: seq<Attempt>, mark: nat)
    requires AllAttempted(entries, captures, egress, d, log, mark) && mark <= |log| && !CanSend(entries, captures, egress, d)
    ensures |log| == mark && NoneWhole(log, mark)
  {
    hide CanSend;
    assert |log| > mark ==> AttemptsAll(entries, captures, egress, d, log[mark]);
  }

  lemma AttemptsStay(entries: seq<InterfaceEntry>, a: seq<CaptureEntry>, b: seq<CaptureEntry>, egress: nat, d: Datagram, t: Attempt)
    requires SamePlans(a, b) || SamePlans(b, a)
    ensures AttemptsAll(entries, a, egress, d, t) ==> AttemptsAll(entries, b, egress, d, t)
  {
    if SamePlans(a, b) {
      PlansStay(entries, a, b, egress, d);
    } else {
      PlansStay(entries, b, a, egress, d);
    }
    if AttemptsAll(entries, a, egress, d, t) {
      hide Lays;
      var f: Frames :| LaysOut(entries, a, egress, d, f) && t.total == f.Count();
      assert LaysOut(entries, b, egress, d, f);
    }
  }

  lemma MeetsStays(entries: seq<InterfaceEntry>, a: seq<CaptureEntry>, b: seq<CaptureEntry>, egress: nat, d: Datagram, fate: Fate)
    requires SamePlans(a, b)
    ensures Meets(fate, entries, a, egress, d) <==> Meets(fate, entries, b, egress, d)
  {
    hide Buildable, Lacks;
  }

  lemma OutStays(a: seq<CaptureEntry>, b: seq<CaptureEntry>, entries: seq<InterfaceEntry>, egress: nat, d: Datagram,
                 log: seq<Attempt>, mark: nat)
    requires SamePlans(a, b) && AllAttempted(entries, a, egress, d, log, mark)
    ensures EgressOut(a, egress) <==> EgressOut(b, egress)
    ensures CanSend(entries, a, egress, d) ==> !EgressOut(a, egress)
    ensures CanSend(entries, a, egress, d) <==> CanSend(entries, b, egress, d)
    ensures !EgressOut(a, egress) ==> forall e :: Prevents(entries, a, egress, d, e) <==> Prevents(entries, b, egress, d, e)
    ensures AllAttempted(entries, b, egress, d, log, mark)
  {
    hide Buildable, Lacks, AttemptsAll;
    forall i | mark <= i < |log|
      ensures AttemptsAll(entries, b, egress, d, log[i])
    {
      AttemptsStay(entries, a, b, egress, d, log[i]);
    }
  }

  // ----- Copies to peers

  function Copy(d: Datagram, peer: IpAddr): Datagram {
    d.(dst := SockAddr(peer, d.dst.port))
  }

  lemma CopyPlansAlike(entries: seq<InterfaceEntry>, captures: seq<CaptureEntry>, egress: nat, d: Datagram, peer: IpAddr)
    requires AllCoherent(entries) && peer.V4? == d.dst.ip.V4?
    ensures PlanFor(entries, captures, egress, Copy(d, peer)) == PlanFor(entries, captures, egress, d)
    ensures CanSend(entries, captures, egress, Copy(d, peer)) <==> CanSend(entries, captures, egress, d)
  {
    CopiesPlanTogether(entries, captures, egress, d, Copy(d, peer).dst, d.dst);
    hide PlanFor, CanSend;
    CanSendExactly(entries, captures, egress, d);
    CanSendExactly(entries, captures, egress, Copy(d, peer));
  }

  lemma CanSendExactly(entries: seq<InterfaceEntry>, captures: seq<CaptureEntry>, egress: nat, d: Datagram)
    ensures CanSend(entries, captures, egress, d) <==> PlanFor(entries, captures, egress, d).Go?
  {
    if egress < |captures| && captures[egress].interface < |entries| {
      var e := entries[captures[egress].interface];
      BuiltExactly(e.addrs, captures[egress].link, d, FrameMtu(e.mtu));
    }
    hide Buildable, Lacks, Lays, BuildUdp;
  }

  /** A copy to a peer of the family meets what the datagram itself would. */
  lemma CopyMeetsAlike(entries: seq<InterfaceEntry>, captures: seq<CaptureEntry>, egress: nat, d: Datagram, peer: IpAddr, fate: Fate)
    requires AllCoherent(entries) && peer.V4? == d.dst.ip.V4? && Meets(fate, entries, captures, egress, Copy(d, peer))
    ensures Meets(fate, entries, captures, egress, d)
  {
    CopyPlansAlike(entries, captures, egress, d, peer);
    hide CanSend;
    if !EgressOut(captures, egress) && !CanSend(entries, captures, egress, d) && EgressBound(entries, captures, egress) {
      var e := entries[captures[egress].interface];
      CopyLacksAlike(e.addrs, captures[egress].link, d, Copy(d, peer).dst, FrameMtu(e.mtu), fate.error.error);
    }
  }

  lemma CopyLacksAlike(addrs: InterfaceAddresses, link: LinkType, d: Datagram, a: SockAddr, mtu: nat, e: DatagramError)
    requires addrs.Coherent() && a.ip.V4? == d.dst.ip.V4?
    ensures Lacks(addrs, link, d.(dst := a), mtu, e) <==> Lacks(addrs, link, d, mtu, e)
  {
  }

  lemma CopyAttemptsAlike(entries: seq<InterfaceEntry>, captures: seq<CaptureEntry>, egress: nat, d: Datagram, peer: IpAddr, t: Attempt)
    requires AllCoherent(entries) && peer.V4? == d.dst.ip.V4? && AttemptsAll(entries, captures, egress, Copy(d, peer), t)
    ensures AttemptsAll(entries, captures, egress, d, t)
  {
    CopyPlansAlike(entries, captures, egress, d, peer);
    hide CanSend;
    var f: Frames :| LaysOut(entries, captures, egress, Copy(d, peer), f) && t.total == f.Count();
    assert LaysOut(entries, captures, egress, d, f);
  }

  /** The digests of the copies: one for each peer of the destination's family. */
  function Digests(hash: (Mac, Datagram) -> nat, peers: seq<IpAddr>, d: Datagram): seq<nat> {
    if peers == [] then []
    else
      var last := peers[|peers| - 1];
      var rest := Digests(hash, peers[..|peers| - 1], d);
      if last.V4? == d.dst.ip.V4? then rest + [hash(BROADCAST_MAC, Copy(d, last))] else rest
  }

  /**
   The copies are one for each peer of the destination's family, in order, to its address at the
   destination's port and in a broadcast frame; the rest of the datagram is as it was.
   */
  lemma {:induction false} DigestsExactly(hash: (Mac, Datagram) -> nat, peers: seq<IpAddr>, d: Datagram)
    ensures (forall i :: 0 <= i < |peers| ==> peers[i].V4? != d.dst.ip.V4?) ==> Digests(hash, peers, d) == []
    ensures forall more :: Digests(hash, peers + more, d) == Digests(hash, peers, d) + Digests(hash, more, d)
    ensures forall peer: IpAddr :: peer.V4? == d.dst.ip.V4? ==>
              Digests(hash, [peer], d) == [hash(0xffff_ffff_ffff, Datagram(SockAddr(peer, d.dst.port), d.source, d.ttl, d.payload))]
  {
    if peers != [] {
      DigestsExactly(hash, peers[..|peers| - 1], d);
    }
    forall more
      ensures Digests(hash, peers + more, d) == Digests(hash, peers, d) + Digests(hash, more, d)
    {
      DigestsAppend(hash, peers, more, d);
    }
    forall peer: IpAddr | peer.V4? == d.dst.ip.V4?
      ensures Digests(hash, [peer], d) == [hash(0xffff_ffff_ffff, Datagram(SockAddr(peer, d.dst.port), d.source, d.ttl, d.payload))]
    {
      assert [peer][..0] == [];
    }
  }

  lemma {:induction false} DigestsAppend(hash: (Mac, Datagram) -> nat, peers: seq<IpAddr>, more: seq<IpAddr>, d: Datagram)
    ensures Digests(hash, peers + more, d) == Digests(hash, peers, d) + Digests(hash, more, d)
  {
    if more == [] {
      assert peers + more == peers;
    } else {
      var n := |more| - 1;
      assert (peers + more)[..|peers + more| - 1] == peers + more[..n];
      DigestsAppend(hash, peers, more[..n], d);
    }
  }

  lemma DigestsNext(hash: (Mac, Datagram) -> nat, peers: seq<IpAddr>, k: nat, d: Datagram)
    requires k < |peers|
    ensures Digests(hash, peers[..k + 1], d) ==
            if peers[k].V4? == d.dst.ip.V4? then Digests(hash, peers[..k], d) + [hash(BROADCAST_MAC, Copy(d, peers[k]))]
            else Digests(hash, peers[..k], d)
  {
    assert peers[..k + 1][..k] == peers[..k];
  }

  lemma {:induction false} DigestsGrow(hash: (Mac, Datagram) -> nat, peers: seq<IpAddr>, k: nat, d: Datagram)
    requires k <= |peers|
    ensures |Digests(hash, peers[..k], d)| <= |Digests(hash, peers, d)|
    decreases |peers| - k
  {
    if k == |peers| {
      assert peers[..k] == peers;
    } else {
      DigestsNext(hash, peers, k, d);
      DigestsGrow(hash, peers, k + 1, d);
    }
  }

  ghost predicate NoneWhole(log: seq<Attempt>, mark: nat) {
    forall i :: mark <= i < |log| ==> !log[i].Whole()
  }

  /** A whole copy went out: for the packet being routed, or since `mark`. */
  ghost predicate Served(log: seq<Attempt>, mark: nat, packet: nat, routing: bool, egress: nat, digest: nat) {
    || (routing && WentOut(log, packet, egress, digest))
    || exists i :: mark <= i < |log| && log[i].Whole() && log[i].egress == egress && log[i].digest == digest
  }

  ghost predicate SomeServed(log: seq<Attempt>, mark: nat, packet: nat, routing: bool, egress: nat, digests: seq<nat>) {
    exists k :: 0 <= k < |digests| && Served(log, mark, packet, routing, egress, digests[k])
  }

  ghost predicate NoneServed(log: seq<Attempt>, mark: nat, packet: nat, routing: bool, egress: nat, digests: seq<nat>) {
    forall k :: 0 <= k < |digests| ==> !Served(log, mark, packet, routing, egress, digests[k])
  }

  /** Each copy went out whole earlier for the packet, or was attempted since `mark`. */
  ghost predicate AllTried(log: seq<Attempt>, mark: nat, packet: nat, routing: bool, egress: nat, digests: seq<nat>) {
    forall k :: 0 <= k < |digests| ==>
      || (routing && WentOut(log, packet, egress, digests[k]))
      || exists i :: mark <= i < |log| && log[i].egress == egress && log[i].digest == digests[k]
  }

  /** One more copy, suppressed or attempted. */
  lemma CopyTried(before: seq<Attempt>, after: seq<Attempt>, mark: nat, packet: nat, routing: bool, egress: nat,
                  digests: seq<nat>, digest: nat, fate: Fate)
    requires mark <= |before| && Became(before, after, fate, packet, routing, egress, digest)
    requires fate.Suppressed? <==> routing && WentOut(before, packet, egress, digest)
    requires AllTried(before, mark, packet, routing, egress, digests)
    ensures fate.Suppressed? || fate.Sent? || fate.Failed? ==> AllTried(after, mark, packet, routing, egress, digests + [digest])
    ensures |after| <= |before| + 1
  {
    hide WentOut;
    var all := digests + [digest];
    if after != before {
      forall k | 0 <= k < |all|
        ensures || (routing && WentOut(after, packet, egress, all[k]))
                || exists i :: mark <= i < |after| && after[i].egress == egress && after[i].digest == all[k]
      {
        if k < |digests| {
          WentOutNext(before, after[|before|], packet, egress, digests[k]);
          if i :| mark <= i < |before| && before[i].egress == egress && before[i].digest == digests[k] {
            assert after[i].digest == all[k];
          }
        } else {
          assert after[|before|].digest == digest;
        }
      }
    }
  }

  /** One more copy: whoever was served still is, and the newest is exactly when its fate was good. */
  lemma CopySent(before: seq<Attempt>, after: seq<Attempt>, mark: nat, packet: nat, routing: bool, egress: nat,
                 digests: seq<nat>, digest: nat, fate: Fate)
    requires mark <= |before| && Became(before, after, fate, packet, routing, egress, digest)
    requires fate.Suppressed? <==> routing && WentOut(before, packet, egress, digest)
    ensures |before| <= |after| && after[..mark] == before[..mark]
    ensures fate.Sent? || fate.Failed? || after == before
    ensures SomeServed(before, mark, packet, routing, egress, digests) || fate.Suppressed? || fate.Sent? ==>
              SomeServed(after, mark, packet, routing, egress, digests + [digest])
    ensures NoneWhole(before, mark) && NoneServed(before, mark, packet, routing, egress, digests) && !fate.Suppressed? && !fate.Sent? ==>
              NoneWhole(after, mark) && NoneServed(after, mark, packet, routing, egress, digests + [digest])
  {
    var all := digests + [digest];
    assert all[|digests|] == digest;
    forall g
      ensures Served(before, mark, packet, routing, egress, g) ==> Served(after, mark, packet, routing, egress, g)
      ensures !fate.Sent? && Served(after, mark, packet, routing, egress, g) ==> Served(before, mark, packet, routing, egress, g)
    {
      ServedNext(before, after, mark, packet, routing, egress, digest, g, fate);
    }
    if SomeServed(before, mark, packet, routing, egress, digests) {
      var k :| 0 <= k < |digests| && Served(before, mark, packet, routing, egress, digests[k]);
      assert all[k] == digests[k];
    }
    if fate.Suppressed? || fate.Sent? {
      assert Served(after, mark, packet, routing, egress, all[|digests|]);
    }
  }

  lemma DigestIsACopys(hash: (Mac, Datagram) -> nat, peers: seq<IpAddr>, d: Datagram, k: nat) returns (peer: IpAddr)
    requires k < |Digests(hash, peers, d)|
    ensures peer.V4? == d.dst.ip.V4? && Digests(hash, peers, d)[k] == hash(BROADCAST_MAC, Copy(d, peer))
  {
    var n := |peers| - 1;
    if k < |Digests(hash, peers[..n], d)| {
      peer := DigestIsACopys(hash, peers[..n], d, k);
    } else {
      peer := peers[n];
    }
  }

  lemma ServedNext(before: seq<Attempt>, after: seq<Attempt>, mark: nat, packet: nat, routing: bool, egress: nat,
                   digest: nat, g: nat, fate: Fate)
    requires mark <= |before| && Became(before, after, fate, packet, routing, egress, digest)
    ensures Served(before, mark, packet, routing, egress, g) ==> Served(after, mark, packet, routing, egress, g)
    ensures !fate.Sent? && Served(after, mark, packet, routing, egress, g) ==> Served(before, mark, packet, routing, egress, g)
  {
    if after != before {
      WentOutNext(before, after[|before|], packet, egress, g);
      if i :| mark <= i < |before| && before[i].Whole() && before[i].egress == egress && before[i].digest == g {
        assert after[i] == before[i];
      }
    }
  }

  /** The captures remember, for the packet being routed, exactly what went out whole for it. */
  ghost predicate Remembers(captures: seq<CaptureEntry>, log: seq<Attempt>, packet: nat, routing: bool) {
    && (forall c :: 0 <= c < |captures| ==> captures[c].sentPacket <= packet)
    && (forall i :: 0 <= i < |log| ==>
          log[i].packet <= packet && log[i].egress < |captures| && (log[i].routed ==> 0 < log[i].packet))
    && (routing ==> 0 < packet)
    && OnceEach(log)
    && (forall c: nat, g: nat :: 0 < packet && c < |captures| ==>
          (SentOn(captures, c, packet, g) <==> WentOut(log, packet, c, g)))
  }

  /** What joins, drains, passes and new captures leave of the captures' records. */
  ghost predicate KeepsRecords(a: seq<CaptureEntry>, b: seq<CaptureEntry>) {
    && |a| <= |b|
    && (forall c :: 0 <= c < |a| ==> b[c].sentPacket == a[c].sentPacket && b[c].sent == a[c].sent)
    && (forall c :: |a| <= c < |b| ==> b[c].sentPacket == 0 && b[c].sent == [])
  }

  lemma StillRemembers(a: seq<CaptureEntry>, b: seq<CaptureEntry>, log: seq<Attempt>, packet: nat, routing: bool)
    requires Remembers(a, log, packet, routing) && KeepsRecords(a, b)
    ensures Remembers(b, log, packet, routing)
  {
    forall c: nat, g: nat | 0 < packet && c < |b|
      ensures SentOn(b, c, packet, g) <==> WentOut(log, packet, c, g)
    {
      if c < |a| {
        assert SentOn(a, c, packet, g) <==> WentOut(log, packet, c, g);
      }
    }
  }

  /** Whatever went out for the packet could be planned again. */
  ghost predicate SettledAt(hash: (Mac, Datagram) -> nat, routing: bool, packet: nat, log: seq<Attempt>,
                            entries: seq<InterfaceEntry>, captures: seq<CaptureEntry>) {
    forall c: nat, m, d :: routing && WentOut(log, packet, c, hash(m, d)) ==> CanSend(entries, captures, c, d)
  }

  class Egress {
    var packet: nat
    var routing: bool
    var nextId: nat
    const hash: (Mac, Datagram) -> nat
    ghost var log: seq<Attempt>

    ghost predicate Valid(table: InterfaceTable)
      reads this, table
    {
      Remembers(table.captures, log, packet, routing)
    }

    /** Between two sends of one packet the table's addresses stand still: what went out could go again. */
    ghost predicate Settled(table: InterfaceTable)
      reads this, table
    {
      SettledAt(hash, routing, packet, log, table.entries, table.captures)
    }

    constructor (hash: (Mac, Datagram) -> nat, table: InterfaceTable, seed: nat)
      requires forall c :: 0 <= c < |table.captures| ==> table.captures[c].sentPacket == 0
      ensures Valid(table) && Settled(table) && !routing && packet == 0 && log == [] && this.hash == hash
    {
      packet, routing, nextId, log := 0, false, seed % 0x1_0000_0000, [];
      this.hash := hash;
    }

    method BeginPacket(table: InterfaceTable)
      requires Valid(table)
      modifies this`packet, this`routing
      ensures Valid(table) && Settled(table) && routing && packet == old(packet) + 1
    {
      packet := packet + 1;
      routing := true;
    }

    method EndPacket(table: InterfaceTable)
      requires Valid(table)
      modifies this`routing
      ensures Valid(table) && Settled(table) && !routing && packet == old(packet)
    {
      routing := false;
    }

    predicate AlreadySent(table: InterfaceTable, egress: nat, digest: nat)
      reads this, table
    {
      routing && table.WasSent(egress, packet, digest)
    }

    /** An identification is used up by every datagram that reaches the frame builder. */
    method PlanOut(table: InterfaceTable, egress: nat, d: Datagram) returns (r: Plan)
      requires forall c :: 0 <= c < |table.captures| ==> table.captures[c].interface < |table.entries|
      requires Valid(table)
      modifies this`nextId
      ensures r == PlanFor(table.entries, table.captures, egress, d)
      ensures nextId == if r.Drop? || r == Error(NotConnected) then old(nextId) else (old(nextId) + 1) % 0x1_0000_0000
      ensures Valid(table) && (old(Settled(table)) ==> Settled(table))
      ensures forall g :: AlreadySent(table, egress, g) == old(AlreadySent(table, egress, g))
    {
      if egress >= |table.captures| || !table.captures[egress].resident {
        return Drop;
      }
      var capture := table.captures[egress];
      var e := table.entries[capture.interface];
      if !e.presence.Present? {
        return Error(NotConnected);
      }
      nextId := (nextId + 1) % 0x1_0000_0000;
      match BuildUdp(e.addrs, capture.link, d, FrameMtu(e.mtu))
      case Success(frames) => return Go(frames);
      case Failure(error) => return Error(Unbuildable(error));
    }

    /**
     Send every frame; an unavailable capture drops a frame without an error. Recorded only once
     the last is out.
     */
    method Transmit(table: InterfaceTable, ghost kernel: Kernel, egress: nat, frames: Frames, digest: nat) returns (ok: bool)
      requires table.Valid(kernel) && Valid(table) && frames.Valid()
      requires egress < |table.captures| && table.captures[egress].resident
      requires !AlreadySent(table, egress, digest)
      modifies this`log, table`captures
      ensures table.Valid(kernel) && Valid(table)
      ensures |log| == |old(log)| + 1 && log[..|old(log)|] == old(log)
      ensures var a := log[|old(log)|];
              a.packet == packet && a.routed == routing && a.egress == egress && a.digest == digest && (ok <==> a.Whole())
              && a.total == frames.Count()
      ensures SamePlans(old(table.captures), table.captures)
    {
      var count := frames.Count();
      ghost var out := 0;
      ok := true;
      var index := 0;
      while index < count && ok
        invariant index <= count && out <= count
        invariant ok ==> out == index
        invariant !ok ==> out < count
        decreases count - index, ok
      {
        var sent: bool := *;
        if table.captures[egress].resident && !sent {
          ok := false;
        } else {
          out := out + if table.captures[egress].resident then 1 else 0;
          index := index + 1;
        }
      }
      ghost var a := Attempt(packet, routing, egress, digest, count, out);
      ghost var before := log;
      log := log + [a];
      if ok && routing {
        table.RecordSent(kernel, egress, packet, digest);
      }
      forall c: nat, g: nat | 0 < packet && c < |table.captures|
        ensures table.WasSent(c, packet, g) <==> WentOut(log, packet, c, g)
      {
        assert old(table.WasSent(c, packet, g)) <==> WentOut(before, packet, c, g);
        WentOutNext(before, a, packet, c, g);
      }
    }

    lemma SuppressesExactly(table: InterfaceTable, kernel: Kernel, egress: nat, digest: nat)
      requires table.Valid(kernel) && Valid(table)
      ensures AlreadySent(table, egress, digest) <==> routing && WentOut(log, packet, egress, digest)
      ensures forall c :: 0 <= c < |table.captures| ==> table.captures[c].interface < |table.entries|
      ensures SamePlans(table.captures, table.captures)
    {
    }

    /** One datagram: suppressed exactly when an equal one already went out whole for this packet. */
    method SendOne(table: InterfaceTable, ghost kernel: Kernel, egress: nat, mac: Mac, d: Datagram) returns (fate: Fate)
      requires table.Valid(kernel) && Valid(table)
      modifies this`log, this`nextId, table`captures
      ensures table.Valid(kernel) && Valid(table) && SamePlans(old(table.captures), table.captures)
      ensures Became(old(log), log, fate, packet, routing, egress, hash(mac, d))
      ensures fate.Suppressed? <==> routing && WentOut(old(log), packet, egress, hash(mac, d))
      ensures fate.Suppressed? || Meets(fate, table.entries, table.captures, egress, d)
      ensures fate.Sent? || fate.Failed? ==> AttemptsAll(table.entries, table.captures, egress, d, log[|old(log)|])
      ensures nextId == if fate.Suppressed? || fate == Unavailable || fate == NotPlanned(NotConnected) then old(nextId)
                        else (old(nextId) + 1) % 0x1_0000_0000
      ensures old(Settled(table)) && Injective(hash) ==> Settled(table)
    {
      hide InterfaceTable.Valid, Egress.Valid, SettledAt, WentOut, AlreadySent, Injective, PlanFor, CanSend, Prevents, LaysOut;
      var digest := hash(mac, d);
      SuppressesExactly(table, kernel, egress, digest);
      if AlreadySent(table, egress, digest) {
        return Suppressed;
      }
      PlannedExactly(table.entries, table.captures, egress, d);
      var plan := PlanOut(table, egress, d);
      match plan
      case Drop =>
        return Unavailable;
      case Error(error) =>
        return NotPlanned(error);
      case Go(frames) =>
        ghost var before, captures := log, table.captures;
        PlannedIsReady(table.entries, captures, egress, d);
        var ok := Transmit(table, kernel, egress, frames, digest);
        AttemptedAll(table.entries, captures, table.captures, egress, d, log[|before|]);
        if old(Settled(table)) {
          StaysSettled(table, before, captures, mac, d);
        }
        return if ok then Sent else Failed(SendFailed);
    }

    method SendUdp(table: InterfaceTable, ghost kernel: Kernel, egress: nat, mac: Mac, d: Datagram)
        returns (r: Result<(), SendError>, ghost fate: Fate)
      requires table.Valid(kernel) && Valid(table)
      modifies this`log, this`nextId, table`captures
      ensures table.Valid(kernel) && Valid(table)
      ensures Became(old(log), log, fate, packet, routing, egress, hash(mac, d))
      ensures fate.Suppressed? <==> routing && WentOut(old(log), packet, egress, hash(mac, d))
      ensures fate.Suppressed? || Meets(fate, table.entries, table.captures, egress, d)
      ensures fate.Sent? || fate.Failed? ==> AttemptsAll(table.entries, table.captures, egress, d, log[|old(log)|])
      ensures nextId == if fate.Suppressed? || fate == Unavailable || fate == NotPlanned(NotConnected) then old(nextId)
                        else (old(nextId) + 1) % 0x1_0000_0000
      ensures r.Failure? <==> fate.NotPlanned? || fate.Failed?
      ensures r.Failure? ==> r.error == fate.error
      ensures SamePlans(old(table.captures), table.captures)
      ensures old(Settled(table)) && Injective(hash) ==> Settled(table)
    {
      var f := SendOne(table, kernel, egress, mac, d);
      fate := f;
      match f
      case NotPlanned(error) => r := Failure(error);
      case Failed(error) => r := Failure(error);
      case _ => r := Success(());
    }

    /**
     One copy per peer of the destination's family. It fails only when no peer has a whole copy,
     although a copy that cannot be planned ends it early; an egress that is out is no failure.
     */
    method SendUdpToPeers(table: InterfaceTable, ghost kernel: Kernel, egress: nat, peers: seq<IpAddr>, d: Datagram)
        returns (r: Result<(), SendError>)
      requires table.Valid(kernel) && Valid(table)
      modifies this`log, this`nextId, table`captures
      ensures table.Valid(kernel) && Valid(table)
      ensures Injective(hash) && old(Settled(table)) ==> Settled(table)
      ensures SamePlans(old(table.captures), table.captures)
      ensures |old(log)| <= |log| && log[..|old(log)|] == old(log)
      ensures AllAttempted(table.entries, table.captures, egress, d, log, |old(log)|)
      ensures r.Failure? ==> NoneWhole(log, |old(log)|)
      ensures r.Failure? && Injective(hash) && old(Settled(table)) ==>
                NoneServed(log, |old(log)|, packet, routing, egress, Digests(hash, peers, d))
      ensures r.Failure? ==>
                && Digests(hash, peers, d) != [] && !EgressOut(table.captures, egress)
                && if CanSend(table.entries, table.captures, egress, d) then r.error == SendFailed
                   else Prevents(table.entries, table.captures, egress, d, r.error)
      ensures CanSend(table.entries, table.captures, egress, d) ==>
                AllTried(log, |old(log)|, packet, routing, egress, Digests(hash, peers, d))
      ensures |log| <= |old(log)| + |Digests(hash, peers, d)|
      ensures r.Success? ==>
                || Digests(hash, peers, d) == []
                || EgressOut(table.captures, egress)
                || SomeServed(log, |old(log)|, packet, routing, egress, Digests(hash, peers, d))
    {
      hide AllTried, CanSend, Prevents, AttemptsAll, NoneServed, SomeServed, Digests, InterfaceTable.Valid, Egress.Valid, Settled,
           WentOut, AllCoherent, Became, Injective, Copy, EgressOut, AllAttempted;
      FanOutStarts(table, kernel, egress, peers[..0], d);
      var delivered := false;
      var failure: Option<SendError> := None;
      ghost var mark, captures := |log|, table.captures;
      for k := 0 to |peers|
        invariant table.Valid(kernel) && Valid(table)
        invariant Injective(hash) && old(Settled(table)) ==> Settled(table)
        invariant SamePlans(captures, table.captures)
        invariant mark <= |log| && log[..mark] == old(log)
        invariant AllAttempted(table.entries, captures, egress, d, log, mark)
        invariant AllTried(log, mark, packet, routing, egress, Digests(hash, peers[..k], d))
        invariant |log| <= mark + |Digests(hash, peers[..k], d)|
        invariant failure.Some? ==> failure.value == SendFailed && CanSend(table.entries, captures, egress, d) && Digests(hash, peers[..k], d) != []
        invariant delivered || failure.Some? || Digests(hash, peers[..k], d) == []
        invariant if delivered then SomeServed(log, mark, packet, routing, egress, Digests(hash, peers[..k], d))
                  else NoneWhole(log, mark) && NoneServed(log, mark, packet, routing, egress, Digests(hash, peers[..k], d))
      {
        DigestsNext(hash, peers, k, d);
        if peers[k].V4? != d.dst.ip.V4? {
          continue;
        }
        var copy := Copy(d, peers[k]);
        ghost var before := log;
        var fate := SendOne(table, kernel, egress, BROADCAST_MAC, copy);
        CopySent(before, log, mark, packet, routing, egress, Digests(hash, peers[..k], d), hash(BROADCAST_MAC, copy), fate);
        CopyTried(before, log, mark, packet, routing, egress, Digests(hash, peers[..k], d), hash(BROADCAST_MAC, copy), fate);
        CopyWentAlike(table, captures, egress, d, peers[k], fate, before, mark, hash(BROADCAST_MAC, copy));
        match fate
        case Suppressed =>
          delivered := true;
        case Unavailable =>
          DigestsGrow(hash, peers, k + 1, d);
          OutStays(captures, table.captures, table.entries, egress, d, log, mark);
          return Success(());
        case NotPlanned(error) =>
          OutStays(captures, table.captures, table.entries, egress, d, log, mark);
          DigestsGrow(hash, peers, k + 1, d);
          NothingAttempted(table.entries, captures, egress, d, log, mark);
          if Injective(hash) && old(Settled(table)) {
            NoneWasServed(table, egress, peers, d);
          }
          return Failure(error);
        case Sent =>
          delivered := true;
        case Failed(error) =>
          failure := Some(error);
      }
      assert peers[..|peers|] == peers;
      OutStays(captures, table.captures, table.entries, egress, d, log, mark);
      if failure.Some? && !delivered {
        return Failure(failure.value);
      }
      return Success(());
    }

    /** What one copy's sending says of the datagram, on the captures the fan-out began with. */
    lemma CopyWentAlike(table: InterfaceTable, captures: seq<CaptureEntry>, egress: nat, d: Datagram, peer: IpAddr, fate: Fate,
                        before: seq<Attempt>, mark: nat, digest: nat)
      requires AllCoherent(table.entries) && peer.V4? == d.dst.ip.V4? && SamePlans(captures, table.captures)
      requires mark <= |before| && Became(before, log, fate, packet, routing, egress, digest)
      requires AllAttempted(table.entries, captures, egress, d, before, mark)
      requires fate.Suppressed? || Meets(fate, table.entries, table.captures, egress, Copy(d, peer))
      requires fate.Sent? || fate.Failed? ==> AttemptsAll(table.entries, table.captures, egress, Copy(d, peer), log[|before|])
      ensures fate.Suppressed? || Meets(fate, table.entries, captures, egress, d)
      ensures AllAttempted(table.entries, captures, egress, d, log, mark)
    {
      hide CanSend, Prevents, Meets, Copy, AllCoherent, AttemptsAll;
      if !fate.Suppressed? {
        CopyMeetsAlike(table.entries, table.captures, egress, d, peer, fate);
        MeetsStays(table.entries, captures, table.captures, egress, d, fate);
      }
      if fate.Sent? || fate.Failed? {
        CopyAttemptsAlike(table.entries, table.captures, egress, d, peer, log[|before|]);
        AttemptsStay(table.entries, table.captures, captures, egress, d, log[|before|]);
      }
    }

    lemma FanOutStarts(table: InterfaceTable, kernel: Kernel, egress: nat, none: seq<IpAddr>, d: Datagram)
      requires table.Valid(kernel) && none == []
      ensures AllCoherent(table.entries) && Digests(hash, none, d) == []
      ensures NoneWhole(log, |log|) && NoneServed(log, |log|, packet, routing, egress, Digests(hash, none, d))
      ensures AllAttempted(table.entries, table.captures, egress, d, log, |log|)
      ensures AllTried(log, |log|, packet, routing, egress, Digests(hash, none, d))
      ensures SamePlans(table.captures, table.captures)
    {
      TablesAreCoherent(table.entries, table.captures, kernel.state);
    }

    /** Where no copy can be planned, none went out earlier for this packet either. */
    lemma NoneWasServed(table: InterfaceTable, egress: nat, peers: seq<IpAddr>, d: Datagram)
      requires Settled(table) && AllCoherent(table.entries) && !CanSend(table.entries, table.captures, egress, d)
      ensures NoneServed(log, |log|, packet, routing, egress, Digests(hash, peers, d))
    {
      forall k | 0 <= k < |Digests(hash, peers, d)|
        ensures !Served(log, |log|, packet, routing, egress, Digests(hash, peers, d)[k])
      {
        var peer := DigestIsACopys(hash, peers, d, k);
        CopyPlansAlike(table.entries, table.captures, egress, d, peer);
      }
    }

    lemma StaysSettled(table: InterfaceTable, before: seq<Attempt>, captures: seq<CaptureEntry>, mac: Mac, d: Datagram)
      requires |log| == |before| + 1 && log[..|before|] == before && SamePlans(captures, table.captures)
      requires log[|before|].digest == hash(mac, d)
      requires CanSend(table.entries, captures, log[|before|].egress, d)
      ensures Injective(hash) && SettledAt(hash, routing, packet, before, table.entries, captures) ==> SettledAt(hash, routing, packet, log, table.entries, table.captures)
    {
      if Injective(hash) && SettledAt(hash, routing, packet, before, table.entries, captures) {
        forall c: nat, m, x | routing && WentOut(log, packet, c, hash(m, x))
          ensures CanSend(table.entries, table.captures, c, x)
        {
          assert log == before + [log[|before|]];
          WentOutNext(before, log[|before|], packet, c, hash(m, x));
          PlansStay(table.entries, captures, table.captures, c, x);
        }
      }
    }
  }
}
