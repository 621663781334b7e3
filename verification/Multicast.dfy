/**
 Group memberships of one interface, as in src/dispatch/multicast.rs: a socket per family, the
 groups the reflectors want and the state of each. The structs are stored by value inside the
 interface table, so they are values here and the operations return the new one.
 */
module Multicast {
  import opened Wrappers
  import opened Primitives
  import opened Clocks
  import opened Kernels

  datatype Os = Linux | MacOs | FreeBsd

  datatype Wait = NoAddress | NoFamily | NotMulticast

  datatype JoinState =
    | Pending
    | Joined
    | Waiting(wait: Wait)
    | JoinFailed(attempts: nat, retryAt: Instant)

  datatype JoinOutcome = IsJoined | Waits(wait: Wait) | Fails(capped: bool)

  datatype JoinError = InterfaceGone | LacksFamily | JoinRefused(capped: bool)

  datatype Membership = Membership(group: Group, state: JoinState)

  datatype Sockets = Sockets(v4: Option<Socket>, v6: Option<Socket>) {
    function Of(v6: bool): Option<Socket> { if v6 then this.v6 else v4 }

    function With(v6: bool, s: Socket): Sockets { if v6 then this.(v6 := Some(s)) else this.(v4 := Some(s)) }

    function All(): Socket {
      (if v4.Some? then v4.value else {}) + (if v6.Some? then v6.value else {})
    }
  }

  const NO_SOCKETS := Sockets(None, None)

  datatype Memberships = Memberships(sockets: Sockets, groups: seq<Membership>)

  /** Where to join. */
  datatype Target = Target(name: Name, index: Index)

  /** The reading of an errno, given what a lookup of the name said about the index. */
  function Classify(os: Os, errno: Errno, v6: bool, live: Result<bool, ()>): Result<JoinOutcome, ()> {
    match errno
    case EADDRINUSE => Success(IsJoined)
    case ENODEV => IfLive(NoFamily, live)
    case EADDRNOTAVAIL => if os != Linux then IfLive(NotMulticast, live) else Success(Fails(false))
    case EINVAL =>
      if v6 && os == Linux then Success(Waits(NoFamily))
      else if v6 && os == MacOs then Success(Waits(NoAddress))
      else Success(Fails(false))
    case EAFNOSUPPORT => if os == MacOs then Success(Waits(NoAddress)) else Success(Fails(false))
    case ENOBUFS => Success(Fails(os == Linux && !v6))
    case OTHER => Success(Fails(false))
  }

  function IfLive(wait: Wait, live: Result<bool, ()>): Result<JoinOutcome, ()> {
    match live
    case Success(true) => Success(Waits(wait))
    case Success(false) => Failure(())
    case Failure(_) => Success(Fails(false))
  }

  /** Each outcome, by all that leads to it. */
  lemma ClassifiedExactly(os: Os, errno: Errno, v6: bool, live: Result<bool, ()>)
    ensures var r := Classify(os, errno, v6, live);
            && (r.Failure? <==> live == Success(false) && (errno == ENODEV || (errno == EADDRNOTAVAIL && os != Linux)))
            && (r == Success(IsJoined) <==> errno == EADDRINUSE)
            && (r == Success(Waits(NoFamily)) <==>
                  (errno == ENODEV && live == Success(true)) || (errno == EINVAL && v6 && os == Linux))
            && (r == Success(Waits(NotMulticast)) <==> errno == EADDRNOTAVAIL && os != Linux && live == Success(true))
            && (r == Success(Waits(NoAddress)) <==> os == MacOs && ((errno == EINVAL && v6) || errno == EAFNOSUPPORT))
            && (r == Success(Fails(true)) <==> errno == ENOBUFS && os == Linux && !v6)
  {
  }

  /** Only these errnos ask whether the interface still exists. */
  predicate AsksLive(os: Os, errno: Errno) {
    errno.ENODEV? || (errno.EADDRNOTAVAIL? && os != Linux)
  }

  function Settle(m: Membership, outcome: JoinOutcome, now: Instant): Membership {
    match outcome
    case IsJoined => m.(state := Joined)
    case Waits(wait) => m.(state := Waiting(wait))
    case Fails(_) =>
      var attempts := if m.state.JoinFailed? then Saturated(m.state.attempts) else 0;
      m.(state := JoinFailed(attempts, now + RetryDelay(attempts)))
  }

  /** `states` are a group's through failing attempts in a row, made at `times`, from a state that had not failed. */
  predicate FailingJoins(states: seq<Membership>, times: seq<Instant>) {
    && |states| == |times| + 1 && !states[0].state.JoinFailed?
    && forall t :: 0 <= t < |times| ==> states[t + 1] == Settle(states[t], Fails(false), times[t])
  }

  lemma {:induction false} JoinFailuresAreCounted(states: seq<Membership>, times: seq<Instant>)
    requires FailingJoins(states, times) && times != []
    ensures var n := |times| - 1;
            states[n + 1].state.JoinFailed? && states[n + 1].state.attempts == if n < U32_MAX then n else U32_MAX
    decreases |times|
  {
    var n := |times| - 1;
    assert states[n + 1] == Settle(states[n], Fails(false), times[n]);
    if n > 0 {
      JoinFailuresAreCounted(states[..n + 1], times[..n]);
    }
  }

  /** The k-th attempt in a row to fail, counting from 0, is tried again after min(30, 2^k) seconds. */
  lemma KthJoinFailureWaits(states: seq<Membership>, times: seq<Instant>, k: nat)
    requires FailingJoins(states, times) && k < |times|
    ensures states[k + 1].group == states[k].group && states[k + 1].state.JoinFailed?
    ensures states[k + 1].state.retryAt == times[k] + (if Pow2(k) < 30 then Pow2(k) else 30) * SECOND
    ensures Settle(states[k + 1], IsJoined, times[k]).state == Joined
    ensures forall wait :: Settle(states[k + 1], Waits(wait), times[k]).state == Waiting(wait)
  {
    JoinFailuresAreCounted(states[..k + 2], times[..k + 1]);
    assert states[k + 1] == Settle(states[k], Fails(false), times[k]);
    RetryDelayDoubles(states[k + 1].state.attempts);
    if k > U32_MAX {
      assert Pow2(5) == 32;
      Pow2Grows(5, k);
      Pow2Grows(5, U32_MAX);
    }
  }

  /** A group a pass leaves alone: joined, or failed and not yet due. */
  predicate Resting(m: Membership, now: Instant) {
    m.state.Joined? || (m.state.JoinFailed? && now < m.state.retryAt)
  }

  /** Joined, or the interface at `i` is without the group's family. */
  predicate Met(m: Membership, i: Index, lacking: set<(Index, bool)>) {
    m.state.Joined? || (m.state == Waiting(NoFamily) && (i, m.group.v6) in lacking)
  }

  /** How an attempt went. */
  datatype Answer = NoSocket | Taken | Refused(errno: Errno, live: Result<bool, ()>)

  /** What the answer means; the index is gone in the failing case. */
  function Meaning(os: Os, v6: bool, answer: Answer): Result<JoinOutcome, ()> {
    match answer
    case NoSocket => Success(Fails(false))
    case Taken => Success(IsJoined)
    case Refused(errno, live) => Classify(os, errno, v6, live)
  }

  /** What an attempt makes of a group. */
  predicate Attempted(os: Os, was: Membership, after: Membership, answer: Answer, now: Instant) {
    match Meaning(os, was.group.v6, answer)
    case Failure(_) => false
    case Success(outcome) => after == Settle(was, outcome, now)
  }

  /** What startup is told of a first attempt. */
  function FirstTold(meaning: Result<JoinOutcome, ()>, required: bool): Result<(), JoinError> {
    match meaning
    case Failure(_) => Failure(InterfaceGone)
    case Success(Fails(capped)) => Failure(JoinRefused(capped))
    case Success(Waits(wait)) => if wait == NoFamily && required then Failure(LacksFamily) else Success(())
    case Success(IsJoined) => Success(())
  }

  /** Each error of a first attempt, by all that leads to it. */
  lemma FirstToldExactly(meaning: Result<JoinOutcome, ()>, required: bool, capped: bool)
    ensures FirstTold(meaning, required) == Failure(InterfaceGone) <==> meaning.Failure?
    ensures FirstTold(meaning, required) == Failure(LacksFamily) <==> required && meaning == Success(Waits(NoFamily))
    ensures FirstTold(meaning, required) == Failure(JoinRefused(capped)) <==> meaning == Success(Fails(capped))
  {
  }

  // ----- What holds of an interface's memberships

  /** Every held membership was taken at `i`, and each group marked joined is held. */
  ghost predicate Backed(m: Memberships, i: Index, k: KernelState) {
    && (forall h :: h in m.sockets.All() ==> h.index == i && Known(k, i, h.generation))
    && (forall j :: 0 <= j < |m.groups| && m.groups[j].state.Joined? ==> Holds(m.sockets.All(), i, m.groups[j].group))
  }

  /** No socket, nothing attempted. */
  ghost predicate Idle(m: Memberships) {
    m.sockets == NO_SOCKETS && forall j :: 0 <= j < |m.groups| ==> m.groups[j].state.Pending?
  }

  ghost predicate Unrepeated(m: Memberships) {
    forall i, j :: 0 <= i < j < |m.groups| ==> m.groups[i].group != m.groups[j].group
  }

  /** Every group stays wanted, at its place. */
  ghost predicate KeepsGroups(a: Memberships, b: Memberships) {
    |a.groups| <= |b.groups| && forall j :: 0 <= j < |a.groups| ==> b.groups[j].group == a.groups[j].group
  }

  /** Whatever is newly held is held of the interface at `i` in `k`, or of one created since. */
  ghost predicate Gained(a: Socket, b: Socket, i: Index, k: KernelState) {
    a <= b && forall h :: h in b && h !in a ==> h.index == i && Since(k, i, h.generation)
  }

  lemma BackedStays(m: Memberships, i: Index, k: KernelState, k': KernelState)
    requires Backed(m, i, k) && Evolves(k, k')
    ensures Backed(m, i, k')
  {
    forall h | h in m.sockets.All()
      ensures Known(k', i, h.generation)
    {
      KnownStays(k, k', i, h.generation);
    }
  }

  lemma IdleIsBacked(m: Memberships, i: Index, k: KernelState)
    requires Idle(m)
    ensures Backed(m, i, k)
  {
  }

  function Rebase(m: Memberships): (r: Memberships)
    ensures Idle(r) && KeepsGroups(m, r) && |r.groups| == |m.groups|
  {
    Memberships(NO_SOCKETS, seq(|m.groups|, j requires 0 <= j < |m.groups| => m.groups[j].(state := Pending)))
  }

  function IndexOf(m: Memberships, group: Group): (j: nat)
    ensures j <= |m.groups|
    ensures j < |m.groups| ==> m.groups[j].group == group
    ensures j == |m.groups| ==> forall l :: 0 <= l < |m.groups| ==> m.groups[l].group != group
    decreases |m.groups|
  {
    IndexFrom(m.groups, group)
  }

  function IndexFrom(groups: seq<Membership>, group: Group): (j: nat)
    ensures j <= |groups|
    ensures j < |groups| ==> groups[j].group == group
    ensures forall l :: 0 <= l < j ==> groups[l].group != group
  {
    if groups == [] then 0
    else if groups[0].group == group then 0
    else
      var j := IndexFrom(groups[1..], group);
      assert forall l :: 0 < l < j + 1 ==> groups[l] == groups[1..][l - 1];
      j + 1
  }

  /** Want `group` without attempting it. */
  function Add(m: Memberships, group: Group): (r: Memberships)
    ensures KeepsGroups(m, r) && r.sockets == m.sockets
    ensures Idle(m) ==> Idle(r)
    ensures Unrepeated(m) ==> Unrepeated(r)
    ensures IndexOf(m, group) < |r.groups| && r.groups[IndexOf(m, group)].group == group
  {
    if IndexOf(m, group) < |m.groups| then m else m.(groups := m.groups + [Membership(group, Pending)])
  }

  lemma AddKeepsBacked(m: Memberships, group: Group, i: Index, k: KernelState)
    requires Backed(m, i, k)
    ensures Backed(Add(m, group), i, k)
  {
  }

  lemma SettleKeepsBacked(m: Memberships, j: nat, outcome: JoinOutcome, now: Instant, i: Index, k: KernelState)
    requires Backed(m, i, k) && j < |m.groups|
    requires outcome.IsJoined? ==> Holds(m.sockets.All(), i, m.groups[j].group)
    ensures Backed(m.(groups := m.groups[j := Settle(m.groups[j], outcome, now)]), i, k)
  {
  }

  predicate Wanted(m: Memberships, group: Group) {
    exists j :: 0 <= j < |m.groups| && m.groups[j].group == group
  }

  /** What startup refuses: a group neither joined nor waiting, or waiting for a family it requires. */
  predicate Unmet(state: JoinState, required: bool) {
    state.Pending? || (required && state == Waiting(NoFamily))
  }

  lemma WantedAt(m: Memberships, j: nat, group: Group)
    requires Unrepeated(m) && j < |m.groups| && m.groups[j].group == group
    ensures Wanted(m, group)
    ensures forall x :: x in m.groups && x.group == group <==> x == m.groups[j]
  {
  }

  /** When a failed join is next due, if any is. */
  function NextRetry(groups: seq<Membership>): (r: Option<Instant>)
    ensures r.None? <==> forall j :: 0 <= j < |groups| ==> !groups[j].state.JoinFailed?
    ensures r.Some? ==> exists j :: 0 <= j < |groups| && groups[j].state.JoinFailed? && groups[j].state.retryAt == r.value
    ensures r.Some? ==> forall j :: 0 <= j < |groups| && groups[j].state.JoinFailed? ==> r.value <= groups[j].state.retryAt
  {
    if groups == [] then None
    else
      var n := |groups| - 1;
      var front := NextRetry(groups[..n]);
      assert forall j :: 0 <= j < n ==> groups[..n][j] == groups[j];
      if !groups[n].state.JoinFailed? then front
      else if front.Some? && front.value <= groups[n].state.retryAt then front
      else Some(groups[n].state.retryAt)
  }

  // ----- The system calls

  /** One attempt: the socket is opened on first use, and the errno classified. */
  method JoinOne(kernel: Kernel, os: Os, sockets: Sockets, group: Group, target: Target)
      returns (r: Result<JoinOutcome, ()>, sockets': Sockets, ghost answer: Answer)
    requires kernel.Valid()
    modifies kernel`state
    ensures kernel.Valid() && Evolves(old(kernel.state), kernel.state)
    ensures Gained(sockets.All(), sockets'.All(), target.index, old(kernel.state))
    ensures forall h :: h in sockets'.All() && h !in sockets.All() ==> Known(kernel.state, h.index, h.generation)
    ensures r == Success(IsJoined) ==> Holds(sockets'.All(), target.index, group)
    ensures r == Meaning(os, group.v6, answer)
    ensures answer.Refused? && (answer.errno == ENODEV || (answer.errno == EADDRNOTAVAIL && os != Linux)) && answer.live == Success(true) ==>
              target.name in kernel.state.names && kernel.state.names[target.name] == target.index
    ensures kernel.quiet && target.index !in kernel.state.live
            && !(target.name in kernel.state.names && kernel.state.names[target.name] == target.index) ==>
              r.Failure? || r == Success(IsJoined)
    ensures answer.NoSocket? ==> sockets' == sockets
    ensures answer.Refused? ==> sockets'.All() == sockets.All()
    ensures kernel.quiet ==> kernel.state == old(kernel.state)
    ensures kernel.quiet && kernel.Resolves(target.name, target.index) ==>
              r.Success? && (r.value.IsJoined? || ((target.index, group.v6) in kernel.lacking && r.value == Waits(NoFamily)))
  {
    hide Evolves, Gained, Known, Holds, Sockets.All;
    var taken;
    taken, sockets' := Ask(kernel, sockets, group, target.index);
    match taken
    case None =>
      r, answer := Success(Fails(false)), NoSocket;
    case Some(Success(_)) =>
      r, answer := Success(IsJoined), Taken;
    case Some(Failure(errno)) =>
      ghost var k := kernel.state;
      var live := Success(true);
      if AsksLive(os, errno) {
        var found := kernel.Lookup(target.name);
        EvolvesOn(old(kernel.state), k, kernel.state);
        NewlyKnownStays(sockets.All(), sockets'.All(), k, kernel.state);
        live := if found.Failure? then Failure(()) else Success(found.value == Some(target.index));
      }
      r, answer := Classify(os, errno, group.v6, live), Refused(errno, live);
  }

  lemma NewlyKnownStays(a: Socket, b: Socket, k: KernelState, k': KernelState)
    requires Evolves(k, k') && forall h :: h in b && h !in a ==> Known(k, h.index, h.generation)
    ensures forall h :: h in b && h !in a ==> Known(k', h.index, h.generation)
  {
    forall h | h in b && h !in a
      ensures Known(k', h.index, h.generation)
    {
      KnownStays(k, k', h.index, h.generation);
    }
  }

  /** The family's socket, opened if need be, asks for the group; nothing if it cannot be opened. */
  method Ask(kernel: Kernel, sockets: Sockets, group: Group, index: Index)
      returns (taken: Option<Result<(), Errno>>, sockets': Sockets)
    requires kernel.Valid()
    modifies kernel`state
    ensures kernel.Valid() && Evolves(old(kernel.state), kernel.state)
    ensures Gained(sockets.All(), sockets'.All(), index, old(kernel.state))
    ensures forall h :: h in sockets'.All() && h !in sockets.All() ==> Known(kernel.state, h.index, h.generation)
    ensures match taken
            case None => sockets' == sockets
            case Some(Success(_)) => Holds(sockets'.All(), index, group)
            case Some(Failure(errno)) => sockets'.All() == sockets.All() && (errno.EADDRINUSE? ==> Holds(sockets'.All(), index, group))
    ensures kernel.quiet ==> kernel.state == old(kernel.state)
    ensures kernel.quiet && index in kernel.state.live ==>
              taken.Some? && (taken.value.Success? || taken.value.error.EADDRINUSE?
                              || ((index, group.v6) in kernel.lacking && taken.value.error.ENODEV?))
    ensures kernel.quiet && index !in kernel.state.live ==>
              taken.Some? && taken.value.Failure? && (taken.value.error.EADDRINUSE? || taken.value.error.ENODEV?)
  {
    sockets' := sockets;
    if sockets.Of(group.v6).None? {
      var ok := kernel.OpenSocket();
      if !ok {
        return None, sockets;
      }
      sockets' := sockets.With(group.v6, {});
    }
    ghost var k := kernel.state;
    var answer, s := kernel.Join(sockets'.Of(group.v6).value, index, group);
    EvolvesOn(old(kernel.state), k, kernel.state);
    sockets' := sockets'.With(group.v6, s);
    if answer.Success? {
      assert Held(index, kernel.state.live[index], group) in sockets'.All();
    }
    return Some(answer), sockets';
  }

  lemma ConvergeStarts(os: Os, m: Memberships, i: Index, k: KernelState, now: Instant)
    requires Sane(k)
    ensures Evolves(k, k) && Gained(m.sockets.All(), m.sockets.All(), i, k) && HandledTo(os, m.groups, m.groups, [], 0, now)
  {
  }

  /** Attempt every group not joined, a failed one once due; stop if the index is found dead. */
  method Converge(kernel: Kernel, os: Os, m: Memberships, target: Target, now: Instant)
      returns (r: Memberships, gone: bool, ghost answers: seq<Option<Answer>>)
    requires kernel.Valid() && Backed(m, target.index, kernel.state)
    modifies kernel`state
    ensures kernel.Valid() && Evolves(old(kernel.state), kernel.state)
    ensures Backed(r, target.index, kernel.state)
    ensures KeepsGroups(m, r) && |r.groups| == |m.groups|
    ensures m.groups == [] ==> r == m
    ensures Gained(m.sockets.All(), r.sockets.All(), target.index, old(kernel.state))
    ensures forall j :: 0 <= j < |m.groups| && m.groups[j].state.Joined? ==> r.groups[j] == m.groups[j]
    ensures forall j :: 0 <= j < |m.groups| && m.groups[j].state.JoinFailed? && now < m.groups[j].state.retryAt ==>
              r.groups[j] == m.groups[j]
    ensures if !gone then HandledTo(os, m.groups, r.groups, answers, |m.groups|, now)
            else
              var dead := |answers| - 1;
              && 0 <= dead < |m.groups| && r.groups[dead] == m.groups[dead].(state := Pending)
              && HandledTo(os, m.groups, r.groups[dead := m.groups[dead]], answers[..dead], dead, now) && !Resting(m.groups[dead], now)
              && answers[dead].Some? && Meaning(os, m.groups[dead].group.v6, answers[dead].value).Failure?
    ensures (forall j :: 0 <= j < |m.groups| && m.groups[j].state.JoinFailed? ==> m.groups[j].state.retryAt <= now + 30 * SECOND) ==>
              forall j :: 0 <= j < |r.groups| && r.groups[j].state.JoinFailed? ==> r.groups[j].state.retryAt <= now + 30 * SECOND
    ensures !gone ==> forall j :: 0 <= j < |r.groups| ==>
              !r.groups[j].state.Pending? && (r.groups[j].state.JoinFailed? ==> now < r.groups[j].state.retryAt)
    ensures kernel.quiet ==> kernel.state == old(kernel.state)
    ensures kernel.quiet && kernel.Resolves(target.name, target.index) ==>
              !gone && forall j :: 0 <= j < |m.groups| && !Resting(m.groups[j], now) ==> Met(r.groups[j], target.index, kernel.lacking)
  {
    hide Evolves, Backed, Gained, Attempted, HandledTo, Meaning;
    ConvergeStarts(os, m, target.index, kernel.state, now);
    r := m;
    gone := false;
    answers := [];
    var j := 0;
    while j < |m.groups|
      invariant j <= |m.groups| == |r.groups|
      invariant kernel.Valid() && Evolves(old(kernel.state), kernel.state)
      invariant Backed(r, target.index, kernel.state) && (j == 0 ==> r == m)
      invariant Gained(m.sockets.All(), r.sockets.All(), target.index, old(kernel.state))
      invariant HandledTo(os, m.groups, r.groups, answers, j, now) && !gone
      invariant kernel.quiet ==> kernel.state == old(kernel.state)
      invariant kernel.quiet && kernel.Resolves(target.name, target.index) ==>
        !gone && forall l :: 0 <= l < j && !Resting(m.groups[l], now) ==> Met(r.groups[l], target.index, kernel.lacking)
    {
      ghost var before := r;
      HandledHere(os, m.groups, r.groups, answers, j, now);
      ghost var answer: Option<Answer> := None;
      var s := r.groups[j].state;
      if !s.Joined? && !(s.JoinFailed? && now < s.retryAt) {
        ghost var how;
        r, gone, how := AttemptAt(kernel, os, r, j, target, now, old(kernel.state));
        answer := Some(how);
        GainedOn(m.sockets.All(), before.sockets.All(), r.sockets.All(), target.index, old(kernel.state));
        if gone {
          assert r.groups[j := m.groups[j]] == before.groups;
          HandledKeeps(os, m, before, answers, j, now);
          StaysTimely(os, m.groups, before.groups, answers, j, now);
          answers := answers + [answer];
          return;
        }
      }
      HandledNext(os, m.groups, before.groups, r.groups, answers, answer, j, now);
      answers := answers + [answer];
      j := j + 1;
    }
    HandledKeeps(os, m, r, answers, j, now);
    StaysTimely(os, m.groups, r.groups, answers, j, now);
  }

  lemma StaysTimely(os: Os, m: seq<Membership>, r: seq<Membership>, answers: seq<Option<Answer>>, j: nat, now: Instant)
    requires HandledTo(os, m, r, answers, j, now)
    ensures (forall l :: 0 <= l < |m| && m[l].state.JoinFailed? ==> m[l].state.retryAt <= now + 30 * SECOND) ==>
              forall l :: 0 <= l < |r| && r[l].state.JoinFailed? ==> r[l].state.retryAt <= now + 30 * SECOND
  {
    hide HandledTo;
    if forall l :: 0 <= l < |m| && m[l].state.JoinFailed? ==> m[l].state.retryAt <= now + 30 * SECOND {
      HandledIsTimely(os, m, r, answers, j, now, now + 30 * SECOND);
    }
  }

  /** What a pass makes of a group: left alone, or attempted. */
  ghost predicate Handled(os: Os, was: Membership, after: Membership, answer: Option<Answer>, now: Instant) {
    if Resting(was, now) then answer == None && after == was
    else answer.Some? && Attempted(os, was, after, answer.value, now)
  }

  /** The first `j` groups were handled, the rest are as they were. */
  ghost predicate HandledTo(os: Os, m: seq<Membership>, r: seq<Membership>, answers: seq<Option<Answer>>, j: nat, now: Instant) {
    && |answers| == j <= |m| == |r|
    && (forall l :: 0 <= l < j ==> Handled(os, m[l], r[l], answers[l], now))
    && (forall l :: j <= l < |m| ==> r[l] == m[l])
  }

  lemma HandledHere(os: Os, m: seq<Membership>, r: seq<Membership>, answers: seq<Option<Answer>>, j: nat, now: Instant)
    requires HandledTo(os, m, r, answers, j, now) && j < |m|
    ensures r[j] == m[j] && |answers| == j
  {
  }

  lemma HandledNext(os: Os, m: seq<Membership>, r: seq<Membership>, r': seq<Membership>,
                    answers: seq<Option<Answer>>, answer: Option<Answer>, j: nat, now: Instant)
    requires HandledTo(os, m, r, answers, j, now) && j < |m| && |r'| == |r| && r' == r[j := r'[j]]
    requires Handled(os, m[j], r'[j], answer, now)
    ensures HandledTo(os, m, r', answers + [answer], j + 1, now)
  {
    hide Handled;
  }

  /** A handled group is still wanted, not pending, and not overdue. */
  lemma HandledIsTried(os: Os, was: Membership, after: Membership, answer: Option<Answer>, now: Instant)
    requires Handled(os, was, after, answer, now)
    ensures after.group == was.group && !after.state.Pending? && (after.state.JoinFailed? ==> now < after.state.retryAt)
  {
  }

  /** An attempt that fails is due again within the longest delay. */
  lemma HandledIsTimely(os: Os, m: seq<Membership>, r: seq<Membership>, answers: seq<Option<Answer>>, j: nat, now: Instant, limit: Instant)
    requires HandledTo(os, m, r, answers, j, now) && now + 30 * SECOND <= limit
    requires forall l :: 0 <= l < |m| && m[l].state.JoinFailed? ==> m[l].state.retryAt <= limit
    ensures forall l :: 0 <= l < |r| && r[l].state.JoinFailed? ==> r[l].state.retryAt <= limit
  {
    forall l | 0 <= l < |r| && r[l].state.JoinFailed?
      ensures r[l].state.retryAt <= limit
    {
      if l < j {
        assert Handled(os, m[l], r[l], answers[l], now);
      }
    }
  }

  lemma RestingStay(os: Os, m: seq<Membership>, r: seq<Membership>, answers: seq<Option<Answer>>, j: nat, now: Instant)
    requires HandledTo(os, m, r, answers, j, now)
    ensures forall l :: 0 <= l < |m| && Resting(m[l], now) ==> r[l] == m[l]
  {
    forall l | 0 <= l < |m| && Resting(m[l], now)
      ensures r[l] == m[l]
    {
      assert l < j ==> Handled(os, m[l], r[l], answers[l], now);
    }
  }

  lemma HandledKeeps(os: Os, m: Memberships, r: Memberships, answers: seq<Option<Answer>>, j: nat, now: Instant)
    requires HandledTo(os, m.groups, r.groups, answers, j, now)
    ensures KeepsGroups(m, r)
    ensures forall l :: 0 <= l < |m.groups| && Resting(m.groups[l], now) ==> r.groups[l] == m.groups[l]
    ensures forall l :: 0 <= l < j ==> !r.groups[l].state.Pending? && (r.groups[l].state.JoinFailed? ==> now < r.groups[l].state.retryAt)
  {
    RestingStay(os, m.groups, r.groups, answers, j, now);
    hide Handled;
    forall l | 0 <= l < j
      ensures r.groups[l].group == m.groups[l].group
      ensures !r.groups[l].state.Pending? && (r.groups[l].state.JoinFailed? ==> now < r.groups[l].state.retryAt)
    {
      HandledIsTried(os, m.groups[l], r.groups[l], answers[l], now);
    }
  }

  lemma GainedOn(a: Socket, b: Socket, c: Socket, i: Index, k: KernelState)
    requires Gained(a, b, i, k) && Gained(b, c, i, k)
    ensures Gained(a, c, i, k)
  {
  }

  method AttemptAt(kernel: Kernel, os: Os, m: Memberships, j: nat, target: Target, now: Instant, ghost k0: KernelState)
      returns (r: Memberships, gone: bool, ghost answer: Answer)
    requires kernel.Valid() && Evolves(k0, kernel.state) && Backed(m, target.index, kernel.state) && j < |m.groups|
    modifies kernel`state
    ensures kernel.Valid() && Evolves(k0, kernel.state)
    ensures Backed(r, target.index, kernel.state)
    ensures |r.groups| == |m.groups| && r.groups == m.groups[j := r.groups[j]] && r.groups[j].group == m.groups[j].group
    ensures Gained(m.sockets.All(), r.sockets.All(), target.index, k0)
    ensures gone <==> Meaning(os, m.groups[j].group.v6, answer).Failure?
    ensures if gone then r.groups[j] == m.groups[j].(state := Pending)
            else Attempted(os, m.groups[j], r.groups[j], answer, now) && !r.groups[j].state.Pending? && (r.groups[j].state.JoinFailed? ==> now < r.groups[j].state.retryAt)
    ensures kernel.quiet ==> kernel.state == old(kernel.state)
    ensures kernel.quiet && kernel.Resolves(target.name, target.index) ==> !gone && Met(r.groups[j], target.index, kernel.lacking)
  {
    ghost var k := kernel.state;
    var outcome, sockets;
    outcome, sockets, answer := JoinOne(kernel, os, m.sockets, m.groups[j].group, target);
    EvolvesOn(k0, k, kernel.state);
    BackedStays(m, target.index, k, kernel.state);
    r := m.(sockets := sockets);
    SocketsGrow(m, sockets, target.index, kernel.state);
    GainedSince(m.sockets.All(), sockets.All(), target.index, k0, k);
    gone := outcome.Failure?;
    if gone {
      r := r.(groups := r.groups[j := r.groups[j].(state := Pending)]);
    } else {
      SettleKeepsBacked(r, j, outcome.value, now, target.index, kernel.state);
      r := r.(groups := r.groups[j := Settle(r.groups[j], outcome.value, now)]);
    }
  }

  lemma SocketsGrow(m: Memberships, sockets: Sockets, i: Index, k: KernelState)
    requires Backed(m, i, k) && m.sockets.All() <= sockets.All()
    requires forall h :: h in sockets.All() && h !in m.sockets.All() ==> h.index == i && Known(k, i, h.generation)
    ensures Backed(m.(sockets := sockets), i, k)
  {
    forall j | 0 <= j < |m.groups| && m.groups[j].state.Joined?
      ensures Holds(sockets.All(), i, m.groups[j].group)
    {
      var h :| h in m.sockets.All() && h.index == i && h.group == m.groups[j].group;
      assert h in sockets.All();
    }
  }

  lemma GainedSockets(m: Memberships, sockets: Sockets, i: Index, k: KernelState, k': KernelState)
    requires Backed(m, i, k') && Gained(m.sockets.All(), sockets.All(), i, k)
    requires forall h :: h in sockets.All() && h !in m.sockets.All() ==> Known(k', h.index, h.generation)
    ensures Backed(m.(sockets := sockets), i, k')
  {
    SocketsGrow(m, sockets, i, k');
  }

  lemma GainedSince(a: Socket, b: Socket, i: Index, k0: KernelState, k: KernelState)
    requires Evolves(k0, k) && Gained(a, b, i, k)
    ensures Gained(a, b, i, k0)
  {
  }
}
