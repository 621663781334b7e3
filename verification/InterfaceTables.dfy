/** The interface table's operations, each proved to keep the invariant of module Interfaces. */
module InterfaceTables {
  import opened Wrappers
  import opened Clocks
  import opened Kernels
  import opened Multicast
  import opened Ip
  import opened Addresses
  import opened Interfaces

  datatype Reading = Reading(addrs: InterfaceAddresses, mtu: Option<nat>)

  /** The machine decides what is found; the v6 sources are picked from that by the scan. */
  method Read(kernel: Kernel, i: Index) returns (r: Option<Reading>)
    ensures r.Some? ==> r.value.addrs.Coherent()
    ensures kernel.quiet ==> r.Some? && Surveyed(kernel.SurveyOf(i), r.value.addrs, r.value.mtu)
  {
    var failed: bool := *;
    if failed && !kernel.quiet {
      return None;
    }
    var survey: Survey := *;
    if kernel.quiet {
      survey := kernel.SurveyOf(i);
    }
    var addrs := Scan(survey.v6s, InterfaceAddresses(survey.mac, survey.v4, survey.v4Prefix, None, None));
    return Some(Reading(addrs, survey.mtu));
  }

  function NextAttempts(was: Presence, i: Index): nat {
    if was.Unbound? && was.index == i then Saturated(was.attempts) else 0
  }

  /** How a step's report relates the presence before and after it. */
  ghost predicate Settled(was: Presence, now: Presence, step: Step, at: Instant) {
    match step
    case Kept => now == was && (was.Unbound? ==> at < was.nextTry)
    case LookupFailed => now == was
    case ParkedNow(left) =>
      now == Parked && (match left case Some(i) => was == Present(i) case None => was.Unbound?)
    case Bound(w, i, _) => w == was && now == Present(i)
    case BindFailed(w, i, d, first) =>
      var a := NextAttempts(was, i);
      w == was && d == RetryDelay(a) && first == (a == 0) && now == Unbound(i, a, at + d)
  }

  /** What the lookup of a name said. */
  type Found = Result<Option<Index>, ()>

  /** The report each answer of the lookup leads to. */
  predicate Answered(found: Found, was: Presence, step: Step, at: Instant) {
    match found
    case Failure(_) => step == LookupFailed
    case Success(None) => step == WithoutIndex(was)
    case Success(Some(cur)) =>
      if BackingOff(was, cur, at) then step == Kept
      else (step == Kept && was == Present(cur)) || ((step.Bound? || step.BindFailed?) && step.index == cur)
  }

  /** Without an index the interface is parked, which is reported once. */
  function WithoutIndex(was: Presence): Step {
    match was
    case Parked => Kept
    case Present(i) => ParkedNow(Some(i))
    case Unbound(_, _, _) => ParkedNow(None)
  }

  /** What a quiet machine answers. */
  function FoundIn(k: KernelState, name: Name): Found {
    Success(if name in k.names then Some(k.names[name]) else None)
  }

  /** Some capture that is in was not attached at a moment between. */
  ghost predicate DetachedBetween(k0: KernelState, k1: KernelState, captures: seq<CaptureEntry>, key: nat, i: Index) {
    exists k :: Evolves(k0, k) && Evolves(k, k1) && !Attached(captures, key, i, k)
  }

  lemma WasDetached(k0: KernelState, k: KernelState, k1: KernelState, captures: seq<CaptureEntry>, key: nat, i: Index)
    requires Evolves(k0, k) && Evolves(k, k1) && !Attached(captures, key, i, k)
    ensures DetachedBetween(k0, k1, captures, key, i)
  {
  }

  lemma AttachedAt(k0: KernelState, k: KernelState, k1: KernelState, captures: seq<CaptureEntry>, key: nat, i: Index)
    requires Evolves(k0, k) && Evolves(k, k1) && Attached(captures, key, i, k)
    ensures AttachedBetween(k0, k1, captures, key, i)
  {
  }

  /** Only `key`'s captures are re-bound, and only their binding, link and recovery count change. */
  ghost predicate Rebinds(a: seq<CaptureEntry>, b: seq<CaptureEntry>, key: nat) {
    && |a| == |b|
    && (forall c :: 0 <= c < |a| ==> b[c] == a[c].(binding := b[c].binding, link := b[c].link, recoveries := b[c].recoveries))
    && (forall c :: 0 <= c < |a| && a[c].interface != key ==> b[c] == a[c])
  }

  /** Each capture counts the binds of its interface. */
  ghost predicate Tallied(a: seq<CaptureEntry>, b: seq<CaptureEntry>, was: seq<nat>, now: seq<nat>) {
    && |a| == |b| && |was| == |now|
    && forall c :: 0 <= c < |a| && a[c].interface < |was| ==>
      b[c].interface == a[c].interface && b[c].recoveries + was[a[c].interface] == a[c].recoveries + now[a[c].interface]
  }

  class InterfaceTable {
    var entries: seq<InterfaceEntry>
    var captures: seq<CaptureEntry>
    const os: Os
    const joinGroups: bool
    /** Successful binds of each interface after startup. */
    ghost var binds: seq<nat>

    ghost predicate Valid(kernel: Kernel)
      reads this, kernel
    {
      && TableOk(entries, captures, kernel.state)
      && |binds| == |entries|
      && (forall c :: 0 <= c < |captures| ==> captures[c].interface < |entries|)
    }

    ghost predicate AllResident(key: nat)
      reads this
    {
      forall c :: 0 <= c < |captures| && captures[c].interface == key ==> captures[c].resident
    }

    /** The rest of the table is as it was. */
    twostate predicate OnlyEntry(key: nat)
      requires key < |old(entries)|
      reads this
    {
      && |entries| == |old(entries)|
      && entries == old(entries)[key := entries[key]]
      && KeepsEntry(old(entries)[key], entries[key])
    }

    constructor (kernel: Kernel, os: Os, joinGroups: bool)
      requires kernel.Valid()
      ensures Valid(kernel) && entries == [] && captures == [] && this.os == os && this.joinGroups == joinGroups
    {
      this.os, this.joinGroups := os, joinGroups;
      entries, captures, binds := [], [], [];
    }

    // ----- Probing

    /**
     Whether every resident capture is still attached, one system call each. A capture that
     detaches never re-attaches by itself, so `true` held when the probe began and `false` holds
     when it ends.
     */
    method Probe(kernel: Kernel, key: nat) returns (r: bool)
      requires Valid(kernel) && key < |entries|
      modifies kernel`state
      ensures Valid(kernel) && Evolves(old(kernel.state), kernel.state)
      ensures entries[key].presence.Present? && r ==> Attached(captures, key, entries[key].presence.index, old(kernel.state))
      ensures !r ==> entries[key].presence.Present? && !Attached(captures, key, entries[key].presence.index, kernel.state)
      ensures kernel.quiet ==> kernel.state == old(kernel.state)
    {
      if !entries[key].presence.Present? {
        return true;
      }
      var i := entries[key].presence.index;
      var c := 0;
      while c < |captures|
        invariant c <= |captures|
        invariant Valid(kernel) && Evolves(old(kernel.state), kernel.state)
        invariant forall b :: 0 <= b < c && captures[b].interface == key && captures[b].resident ==>
                    AttachedTo(old(kernel.state), captures[b].binding, i)
        invariant kernel.quiet ==> kernel.state == old(kernel.state)
      {
        ghost var k := kernel.state;
        kernel.Interfere();
        EvolvesOn(old(kernel.state), k, kernel.state);
        TableStays(entries, captures, k, kernel.state);
        if captures[c].interface == key && captures[c].resident && !AttachedTo(kernel.state, captures[c].binding, i) {
          return false;
        }
        c := c + 1;
      }
      return true;
    }

    // ----- Joining

    /** Probe first: joining at an index the captures no longer read would be joining elsewhere. */
    method ConvergeOn(kernel: Kernel, key: nat, now: Instant) returns (gone: bool)
      requires Valid(kernel) && key < |entries|
      modifies this`entries, kernel`state
      ensures Valid(kernel) && Evolves(old(kernel.state), kernel.state)
      ensures OnlyEntry(key) && entries[key].presence == old(entries[key].presence)
      ensures !gone ==> Tried(entries[key], now)
      ensures !gone && entries[key].presence.Present? ==>
                AttachedBetween(old(kernel.state), kernel.state, captures, key, entries[key].presence.index)
      ensures gone ==> entries[key].presence.Present?
      ensures !entries[key].presence.Present? ==> entries == old(entries)
      ensures gone && entries[key].memberships.None? ==>
                DetachedBetween(old(kernel.state), kernel.state, captures, key, entries[key].presence.index)
      ensures kernel.quiet ==> kernel.state == old(kernel.state)
      ensures kernel.quiet && entries[key].presence.Present? && kernel.Resolves(entries[key].name, entries[key].presence.index)
              && Attached(captures, key, entries[key].presence.index, kernel.state) ==>
                !gone && AllMet(old(entries[key].memberships), entries[key].memberships, entries[key].presence.index, kernel.lacking, now)
      ensures entries[key].early == old(entries[key].early)
      ensures entries[key] == old(entries[key]).(memberships := entries[key].memberships)
      ensures Timely(old(entries[key]), now) ==> Timely(entries[key], now)
    {
      var attached := Probe(kernel, key);
      if !attached {
        EvolvesToItself(kernel.state);
        WasDetached(old(kernel.state), kernel.state, kernel.state, captures, key, entries[key].presence.index);
        return true;
      }
      ghost var k := kernel.state;
      gone := ConvergeEntry(kernel, key, now);
      EvolvesOn(old(kernel.state), k, kernel.state);
      EvolvesToItself(old(kernel.state));
    }

    method ConvergeEntry(kernel: Kernel, key: nat, now: Instant) returns (gone: bool)
      requires Valid(kernel) && key < |entries|
      modifies this`entries, kernel`state
      ensures Valid(kernel) && Evolves(old(kernel.state), kernel.state)
      ensures OnlyEntry(key) && entries[key].presence == old(entries[key].presence)
      ensures !gone ==> Tried(entries[key], now)
      ensures gone ==> entries[key].presence.Present? && entries[key].memberships.Some?
      ensures !entries[key].presence.Present? ==> entries == old(entries)
      ensures kernel.quiet ==> kernel.state == old(kernel.state)
      ensures kernel.quiet && entries[key].presence.Present? && kernel.Resolves(entries[key].name, entries[key].presence.index) ==>
                !gone && AllMet(old(entries[key].memberships), entries[key].memberships, entries[key].presence.index, kernel.lacking, now)
      ensures entries[key].early == old(entries[key].early)
      ensures entries[key] == old(entries[key]).(memberships := entries[key].memberships)
      ensures Timely(old(entries[key]), now) ==> Timely(entries[key], now)
    {
      var e := entries[key];
      if !e.presence.Present? || e.memberships.None? {
        return false;
      }
      ghost var k := kernel.state;
      assert EntryOk(e, key, captures, k);
      var m;
      ghost var answers;
      m, gone, answers := Converge(kernel, os, e.memberships.value, Target(e.name, e.presence.index), now);
      Store(kernel, key, m, k);
    }

    /** What an attempt since `k` made of `key`'s memberships goes back to its entry. */
    method Store(ghost kernel: Kernel, key: nat, m: Memberships, ghost k: KernelState)
      requires TableOk(entries, captures, k) && Evolves(k, kernel.state) && key < |entries| == |binds|
      requires forall c :: 0 <= c < |captures| ==> captures[c].interface < |entries|
      requires entries[key].presence.Present? && entries[key].memberships.Some?
      requires var was, i := entries[key].memberships.value, entries[key].presence.index;
               && Backed(m, i, kernel.state) && KeepsGroups(was, m) && |m.groups| == |was.groups|
               && Gained(was.sockets.All(), m.sockets.All(), i, k)
               && (was.groups == [] ==> m.sockets.All() == was.sockets.All())
      modifies this`entries
      ensures entries == old(entries)[key := old(entries)[key].(memberships := Some(m))]
      ensures Valid(kernel)
    {
      hide Backed, Gained, KeepsGroups;
      var e := entries[key];
      assert EntryOk(e, key, captures, k);
      EntryConverged(e, key, captures, k, kernel.state, m);
      CapturesStay(captures, k, kernel.state);
      OthersStay(entries, captures, k, kernel.state, key);
      PutEntry(entries, captures, kernel.state, key, e.(memberships := Some(m)));
      entries := entries[key := e.(memberships := Some(m))];
    }

    /** Every present interface is where its name points, and all its captures read it. */
    ghost predicate Reachable(k: KernelState)
      reads this
    {
      forall j :: 0 <= j < |entries| && entries[j].presence.Present? ==>
        var i := entries[j].presence.index;
        entries[j].name in k.names && k.names[entries[j].name] == i && i in k.live && Attached(captures, j, i, k)
    }

    /** Every interface converges, whatever the others report. */
    method ConvergeAll(kernel: Kernel, now: Instant) returns (gone: bool)
      requires Valid(kernel)
      modifies this`entries, kernel`state
      ensures Valid(kernel) && Evolves(old(kernel.state), kernel.state)
      ensures KeepsWanted(old(entries), entries) && |entries| == |old(entries)|
      ensures !gone ==> forall j :: 0 <= j < |entries| ==> Tried(entries[j], now)
      ensures forall j :: 0 <= j < |entries| ==> entries[j].presence == old(entries)[j].presence
      ensures gone ==> exists j :: 0 <= j < |entries| && entries[j].presence.Present?
      ensures kernel.quiet && old(Reachable(kernel.state)) ==> !gone
    {
      hide TableOk, Tried, Attached, Evolves;
      ConvergingStarts(kernel);
      gone := false;
      var key := 0;
      while key < |entries|
        invariant key <= |entries| == |old(entries)|
        invariant Valid(kernel) && Evolves(old(kernel.state), kernel.state)
        invariant KeepsWanted(old(entries), entries)
        invariant !gone ==> forall j :: 0 <= j < key ==> Tried(entries[j], now)
        invariant forall j :: 0 <= j < |entries| ==> entries[j].presence == old(entries)[j].presence && entries[j].name == old(entries)[j].name
        invariant gone ==> exists j :: 0 <= j < |entries| && entries[j].presence.Present?
        invariant kernel.quiet ==> kernel.state == old(kernel.state)
        invariant kernel.quiet && old(Reachable(kernel.state)) ==> !gone && Reachable(kernel.state)
      {
        ghost var k := kernel.state;
        var g := ConvergeOn(kernel, key, now);
        EvolvesOn(old(kernel.state), k, kernel.state);
        gone := gone || g;
        key := key + 1;
      }
    }

    lemma ConvergingStarts(kernel: Kernel)
      requires Valid(kernel)
      ensures Evolves(kernel.state, kernel.state) && KeepsWanted(entries, entries)
    {
      TableIsSane(entries, captures, kernel.state);
      EvolvesToItself(kernel.state);
    }

    /** What a reflector asks for when it starts: the group, at once if the interface is present. */
    method JoinOn(kernel: Kernel, key: nat, group: Group, required: bool, now: Instant)
        returns (r: Result<(), JoinError>, ghost answer: Option<Answer>)
      requires Valid(kernel) && key < |entries|
      modifies this`entries, kernel`state
      ensures Valid(kernel) && Evolves(old(kernel.state), kernel.state)
      ensures OnlyEntry(key) && entries[key].presence == old(entries[key].presence)
      ensures entries[key].early == (old(entries[key].early) || (entries[key].memberships.Some? && !HasCapture(captures, key)))
      ensures entries[key].memberships.Some? ==> Wanted(entries[key].memberships.value, group)
      ensures r.Failure? <==>
                && entries[key].presence.Present? && entries[key].memberships.Some?
                && exists m :: m in entries[key].memberships.value.groups && m.group == group
                            && (m.state.Pending? || (required && m.state == Waiting(NoFamily)))
      ensures answer.Some? <==>
                && entries[key].presence.Present? && old(entries[key].memberships.Some?)
                && forall m :: m in old(entries[key].memberships.value.groups) && m.group == group ==> m.state.Pending?
      ensures r == if answer.Some? then FirstTold(Meaning(os, group.v6, answer.value), required)
                   else if r.Failure? then Failure(LacksFamily) else Success(())
      ensures kernel.quiet ==> kernel.state == old(kernel.state)
      ensures kernel.quiet && entries[key].presence.Present? && kernel.Resolves(entries[key].name, entries[key].presence.index)
              && (entries[key].presence.index, group.v6) !in kernel.lacking
              && old(entries[key].memberships.Some?) && !Wanted(old(entries[key].memberships.value), group) ==>
                exists m :: m in entries[key].memberships.value.groups && m.group == group && m.state.Joined?
      ensures entries[key] == old(entries[key]).(memberships := entries[key].memberships, early := entries[key].early)
      ensures entries[key].memberships.Some? ==>
                forall j :: 0 <= j < |old(entries[key].memberships.value.groups)| && old(entries[key].memberships.value.groups[j].group) != group ==>
                  entries[key].memberships.value.groups[j] == old(entries[key].memberships.value.groups[j])
      ensures forall at :: Timely(old(entries[key]), at) ==> Timely(entries[key], at)
    {
      hide TableOk, EntryOk, OthersOk, CapturesKnown, KeepsGroups, Evolves, Add, Unrepeated, Meaning, FirstTold, Attempted, HasCapture, IndexOf;
      TableIsSane(entries, captures, kernel.state);
      var e := entries[key];
      if e.memberships.None? {
        return Success(()), None;
      }
      var j := Want(kernel, key, group);
      WantedAt(entries[key].memberships.value, j, group);
      if !e.presence.Present? {
        return Success(()), None;
      }
      match entries[key].memberships.value.groups[j].state
      case Pending =>
        ghost var mid := entries[key];
        ghost var how;
        r, how := AttemptFirst(kernel, key, j, required, now);
        answer := Some(how);
        KeepsEntryOn(e, mid, entries[key]);
        GroupsUnrepeated(kernel, key);
        WantedAt(entries[key].memberships.value, j, group);
      case Waiting(wait) =>
        answer := None;
        r := if wait.NoFamily? && required then Failure(LacksFamily) else Success(());
      case _ =>
        r, answer := Success(()), None;
    }

    lemma GroupsUnrepeated(kernel: Kernel, key: nat)
      requires Valid(kernel) && key < |entries|
      ensures entries[key].memberships.Some? ==> Unrepeated(entries[key].memberships.value)
    {
      assert EntryOk(entries[key], key, captures, kernel.state);
    }

    /** The group joins those wanted, pending unless it was wanted before. */
    method Want(ghost kernel: Kernel, key: nat, group: Group) returns (j: nat)
      requires Valid(kernel) && key < |entries| && entries[key].memberships.Some?
      modifies this`entries
      ensures Valid(kernel) && OnlyEntry(key)
      ensures entries[key] == old(entries[key]).(memberships := Some(Add(old(entries[key].memberships.value), group)),
                                                 early := old(entries[key].early) || !HasCapture(captures, key))
      ensures Unrepeated(entries[key].memberships.value)
      ensures j < |entries[key].memberships.value.groups| && entries[key].memberships.value.groups[j].group == group
      ensures old(entries[key].memberships.value.groups) <= entries[key].memberships.value.groups
      ensures !Wanted(old(entries[key].memberships.value), group) ==> entries[key].memberships.value.groups[j].state.Pending?
      ensures forall at :: Timely(old(entries[key]), at) ==> Timely(entries[key], at)
    {
      var e := entries[key];
      assert EntryOk(e, key, captures, kernel.state);
      e := e.(early := e.early || !HasCapture(captures, key));
      var m := Add(e.memberships.value, group);
      j := IndexOf(e.memberships.value, group);
      if e.presence.Present? {
        AddKeepsBacked(e.memberships.value, group, e.presence.index, kernel.state);
      }
      assert EntryOk(e.(memberships := Some(m)), key, captures, kernel.state);
      PutEntry(entries, captures, kernel.state, key, e.(memberships := Some(m)));
      entries := entries[key := e.(memberships := Some(m))];
    }

    /** Join on the interface behind a capture; an unknown capture is left alone. */
    method JoinGroup(kernel: Kernel, capture: nat, group: Group, required: bool, now: Instant) returns (r: Result<(), JoinError>)
      requires Valid(kernel)
      modifies this`entries, kernel`state
      ensures Valid(kernel) && Evolves(old(kernel.state), kernel.state)
      ensures capture >= |captures| ==> r.Success? && entries == old(entries)
      ensures capture < |captures| ==>
                var key := captures[capture].interface;
                && OnlyEntry(key) && entries[key].presence == old(entries[key].presence) && entries[key].early == old(entries[key].early)
                && (forall at :: Timely(old(entries[key]), at) ==> Timely(entries[key], at))
                && (entries[key].memberships.Some? ==> Wanted(entries[key].memberships.value, group))
                && (r.Failure? <==>
                      && entries[key].presence.Present? && entries[key].memberships.Some?
                      && exists m :: m in entries[key].memberships.value.groups && m.group == group
                            && (m.state.Pending? || (required && m.state == Waiting(NoFamily))))
    {
      EvolvesToItself(kernel.state);
      if capture >= |captures| {
        return Success(());
      }
      ghost var answer;
      r, answer := JoinOn(kernel, captures[capture].interface, group, required, now);
    }

    method AttemptFirst(kernel: Kernel, key: nat, j: nat, required: bool, now: Instant)
        returns (r: Result<(), JoinError>, ghost answer: Answer)
      requires Valid(kernel) && key < |entries|
      requires entries[key].presence.Present? && entries[key].memberships.Some?
      requires j < |entries[key].memberships.value.groups| && entries[key].memberships.value.groups[j].state.Pending?
      modifies this`entries, kernel`state
      ensures Valid(kernel) && Evolves(old(kernel.state), kernel.state)
      ensures OnlyEntry(key) && entries[key].presence == old(entries[key].presence)
      ensures entries[key].memberships.Some? && j < |entries[key].memberships.value.groups|
      ensures entries[key].memberships.value.groups[j].group == old(entries[key].memberships.value.groups[j].group)
      ensures r.Failure? <==> Unmet(entries[key].memberships.value.groups[j].state, required)
      ensures kernel.quiet ==> kernel.state == old(kernel.state)
      ensures kernel.quiet && kernel.Resolves(entries[key].name, entries[key].presence.index)
              && (entries[key].presence.index, entries[key].memberships.value.groups[j].group.v6) !in kernel.lacking ==>
                entries[key].memberships.value.groups[j].state.Joined?
      ensures entries[key].early == old(entries[key].early)
      ensures entries[key] == old(entries[key]).(memberships := entries[key].memberships)
      ensures var was, groups := old(entries[key].memberships.value.groups), entries[key].memberships.value.groups;
              groups == was[j := groups[j]] && (if r.Success? then Attempted(os, was[j], groups[j], answer, now) else groups == was)
              && r == FirstTold(Meaning(os, was[j].group.v6, answer), required)
      ensures !entries[key].memberships.value.groups[j].state.JoinFailed?
    {
      hide TableOk, OthersOk, CapturesKnown, Backed, Gained;
      var e, m := entries[key], entries[key].memberships.value;
      ghost var k := kernel.state;
      PresentIsBacked(kernel, key);
      var target := Target(e.name, e.presence.index);
      var outcome, sockets;
      outcome, sockets, answer := JoinOne(kernel, os, m.sockets, m.groups[j].group, target);
      BackedStays(m, target.index, k, kernel.state);
      GainedSockets(m, sockets, target.index, k, kernel.state);
      var m' := m.(sockets := sockets);
      if outcome.Failure? {
        r := Failure(InterfaceGone);
      } else if outcome.value.Fails? {
        r := Failure(JoinRefused(outcome.value.capped));
      } else if outcome.value == Waits(NoFamily) && required {
        r := Failure(LacksFamily);
      } else {
        SettleKeepsBacked(m', j, outcome.value, now, target.index, kernel.state);
        m' := m'.(groups := m'.groups[j := Settle(m'.groups[j], outcome.value, now)]);
        r := Success(());
      }
      Store(kernel, key, m', k);
    }

    lemma PresentIsBacked(kernel: Kernel, key: nat)
      requires Valid(kernel) && key < |entries| && entries[key].presence.Present? && entries[key].memberships.Some?
      ensures Sane(kernel.state) && Backed(entries[key].memberships.value, entries[key].presence.index, kernel.state)
    {
      assert EntryOk(entries[key], key, captures, kernel.state);
    }

    // ----- Binding

    /** Move `key`'s captures, in order, to whatever is at `i`; the first failure ends it. */
    method RebindCaptures(kernel: Kernel, key: nat, i: Index) returns (ok: bool)
      requires kernel.Valid() && CapturesKnown(captures, kernel.state) && OthersOk(entries, captures, kernel.state, key)
      requires AllResident(key)
      modifies this`captures, kernel`state
      ensures kernel.Valid() && Evolves(old(kernel.state), kernel.state)
      ensures CapturesKnown(captures, kernel.state) && OthersOk(entries, captures, kernel.state, key)
      ensures Rebinds(old(captures), captures, key)
      ensures ok ==> BoundAt(captures, key, i)
      ensures kernel.quiet ==> kernel.state == old(kernel.state)
      ensures kernel.quiet && i in kernel.state.live ==> ok && Attached(captures, key, i, kernel.state)
      ensures forall c :: 0 <= c < |captures| ==> captures[c].recoveries == old(captures)[c].recoveries
    {
      var c := 0;
      while c < |captures|
        invariant c <= |captures| == |old(captures)|
        invariant kernel.Valid() && Evolves(old(kernel.state), kernel.state)
        invariant CapturesKnown(captures, kernel.state) && OthersOk(entries, captures, kernel.state, key)
        invariant Rebinds(old(captures), captures, key)
        invariant forall b :: 0 <= b < |captures| ==> captures[b].recoveries == old(captures)[b].recoveries
        invariant forall b :: 0 <= b < c && captures[b].interface == key ==>
                    captures[b].binding.Some? && captures[b].binding.value.index == i
        invariant kernel.quiet ==> kernel.state == old(kernel.state)
        invariant kernel.quiet && i in kernel.state.live ==>
                    forall b :: 0 <= b < c && captures[b].interface == key ==> AttachedTo(kernel.state, captures[b].binding, i)
      {
        if captures[c].interface == key {
          ghost var k := kernel.state;
          ok := RebindOne(kernel, key, i, c);
          EvolvesOn(old(kernel.state), k, kernel.state);
          if !ok {
            return false;
          }
        }
        c := c + 1;
      }
      return true;
    }

    method RebindOne(kernel: Kernel, key: nat, i: Index, c: nat) returns (ok: bool)
      requires kernel.Valid() && CapturesKnown(captures, kernel.state) && OthersOk(entries, captures, kernel.state, key)
      requires c < |captures| && captures[c].interface == key
      modifies this`captures, kernel`state
      ensures kernel.Valid() && Evolves(old(kernel.state), kernel.state)
      ensures CapturesKnown(captures, kernel.state) && OthersOk(entries, captures, kernel.state, key)
      ensures |captures| == |old(captures)| && captures == old(captures)[c := captures[c]]
      ensures captures[c] == old(captures)[c].(binding := captures[c].binding, link := captures[c].link)
      ensures ok ==> captures[c].binding.Some? && captures[c].binding.value.index == i
      ensures kernel.quiet ==> kernel.state == old(kernel.state)
      ensures kernel.quiet && i in kernel.state.live ==> ok && AttachedTo(kernel.state, captures[c].binding, i)
    {
      ghost var k, before := kernel.state, captures;
      var link: LinkType := *;
      var binding;
      ok, binding := kernel.Attach(i, captures[c].binding);
      CapturesStay(captures, k, kernel.state);
      OthersStay(entries, captures, k, kernel.state, key);
      captures := captures[c := captures[c].(binding := binding, link := if ok then link else captures[c].link)];
      if ok {
        BindingIsKnown(kernel.state, binding, i);
      }
      OthersSpared(entries, before, captures, kernel.state, key);
    }

    /**
     Look `key`'s name up and keep, park or bind the interface as the answer, `found`, demands. One
     bound where its name points is kept while its captures are attached, and bound afresh if not.
     */
    method Step(kernel: Kernel, key: nat, now: Instant) returns (step: Step, ghost found: Found)
      requires Valid(kernel) && key < |entries| && AllResident(key)
      modifies this, kernel`state
      ensures Valid(kernel) && Evolves(old(kernel.state), kernel.state)
      ensures OnlyEntry(key) && Settled(old(entries[key].presence), entries[key].presence, step, now)
      ensures Answered(found, old(entries[key].presence), step, now)
      ensures kernel.quiet ==> found == FoundIn(kernel.state, entries[key].name)
      ensures found.Success? && found.value.Some? && old(entries[key].presence) == Present(found.value.value) && !step.Kept? ==>
                DetachedBetween(old(kernel.state), kernel.state, old(captures), key, found.value.value)
      ensures kernel.quiet && found.value.Some? && old(entries[key].presence) == Present(found.value.value)
              && Attached(old(captures), key, found.value.value, kernel.state) ==>
                step.Kept?
      ensures Rebinds(old(captures), captures, key)
      ensures binds == old(binds)[key := old(binds[key]) + if step.Bound? then 1 else 0]
      ensures step.Bound? && !step.gone ==> Tried(entries[key], now)
      ensures step.Kept? && entries[key].presence.Present? ==>
                AttachedBetween(old(kernel.state), kernel.state, captures, key, entries[key].presence.index)
      ensures kernel.quiet ==> kernel.state == old(kernel.state)
      ensures kernel.quiet && entries[key].name in kernel.state.names ==>
                var i := kernel.state.names[entries[key].name];
                i in kernel.state.live && !BackingOff(old(entries[key].presence), i, now) ==>
                  && entries[key].presence == Present(i) && Attached(captures, key, i, kernel.state)
                  && if step.Kept? then entries == old(entries) && captures == old(captures)
                     else step.Bound? && AllMet(Rebased(old(entries[key].memberships)), entries[key].memberships, i, kernel.lacking, now)
      ensures kernel.quiet && step.Bound? ==> Surveyed(kernel.SurveyOf(step.index), entries[key].addrs, entries[key].mtu)
      ensures Tallied(old(captures), captures, old(binds), binds)
      ensures entries[key].early ==> old(entries[key].early)
      ensures Timely(old(entries[key]), now) ==> Timely(entries[key], now)
    {
      hide Surveyed, DetachedBetween, TableOk, AllMet, Tried, Attached, AttachedBetween, KeepsGroups, Evolves, Timely;
      ghost var k := kernel.state;
      TableIsSane(entries, captures, k);
      var answer := kernel.Lookup(entries[key].name);
      found := answer;
      TableStays(entries, captures, k, kernel.state);
      match answer
      case Failure(_) =>
        return LookupFailed, found;
      case Success(None) =>
        step := Park(kernel, key);
      case Success(Some(cur)) =>
        step := StepTo(kernel, key, cur, now, k);
    }

    /** The name points to `cur`: keep an interface attached there or backing off there, else bind it. */
    method StepTo(kernel: Kernel, key: nat, cur: Index, now: Instant, ghost k0: KernelState) returns (step: Step)
      requires Valid(kernel) && key < |entries| && AllResident(key) && Evolves(k0, kernel.state)
      modifies this, kernel`state
      ensures Valid(kernel) && Evolves(k0, kernel.state)
      ensures OnlyEntry(key) && Settled(old(entries[key].presence), entries[key].presence, step, now)
      ensures Answered(Success(Some(cur)), old(entries[key].presence), step, now)
      ensures old(entries[key].presence) == Present(cur) && !step.Kept? ==>
                DetachedBetween(k0, kernel.state, old(captures), key, cur)
      ensures kernel.quiet && old(entries[key].presence) == Present(cur) && Attached(old(captures), key, cur, kernel.state) ==>
                step.Kept?
      ensures Rebinds(old(captures), captures, key)
      ensures binds == old(binds)[key := old(binds[key]) + if step.Bound? then 1 else 0]
      ensures step.Bound? && !step.gone ==> Tried(entries[key], now)
      ensures step.Kept? && entries[key].presence.Present? ==> AttachedBetween(k0, kernel.state, captures, key, cur)
      ensures kernel.quiet ==> kernel.state == old(kernel.state)
      ensures kernel.quiet && kernel.Resolves(entries[key].name, cur) && !BackingOff(old(entries[key].presence), cur, now) ==>
                && entries[key].presence == Present(cur) && Attached(captures, key, cur, kernel.state)
                && if step.Kept? then entries == old(entries) && captures == old(captures)
                   else step.Bound? && AllMet(Rebased(old(entries[key].memberships)), entries[key].memberships, cur, kernel.lacking, now)
      ensures kernel.quiet && step.Bound? ==> Surveyed(kernel.SurveyOf(step.index), entries[key].addrs, entries[key].mtu)
      ensures Tallied(old(captures), captures, old(binds), binds)
      ensures entries[key].early ==> old(entries[key].early)
      ensures Timely(old(entries[key]), now) ==> Timely(entries[key], now)
    {
      hide Surveyed, DetachedBetween, TableOk, AllMet, Tried, Attached, KeepsGroups, Evolves, Timely;
      ghost var k := kernel.state;
      TableIsSane(entries, captures, k);
      var presence := entries[key].presence;
      if presence == Present(cur) {
        var attached := Probe(kernel, key);
        EvolvesOn(k0, k, kernel.state);
        if attached {
          AttachedAt(k0, k, kernel.state, captures, key, cur);
          return Kept;
        }
        k := kernel.state;
      } else if presence.Unbound? && presence.index == cur && now < presence.nextTry {
        return Kept;
      }
      step := Bind(kernel, key, cur, now);
      EvolvesOn(k0, k, kernel.state);
      if presence == Present(cur) {
        WasDetached(k0, k, kernel.state, old(captures), key, cur);
      }
    }

    method Park(kernel: Kernel, key: nat) returns (step: Step)
      requires Valid(kernel) && key < |entries|
      modifies this`entries
      ensures Valid(kernel) && OnlyEntry(key)
      ensures match old(entries[key].presence)
              case Parked => step == Kept && entries == old(entries)
              case Present(i) => step == ParkedNow(Some(i)) && entries[key] == Release(old(entries[key]), Parked)
              case Unbound(_, _, _) => step == ParkedNow(None) && entries[key] == old(entries[key]).(presence := Parked)
      ensures entries[key].early ==> old(entries[key].early)
      ensures forall at :: Timely(old(entries[key]), at) ==> Timely(entries[key], at)
    {
      assert EntryOk(entries[key], key, captures, kernel.state);
      match entries[key].presence
      case Parked =>
        step := Kept;
      case Present(i) =>
        ReleasedOk(entries[key], key, captures, kernel.state, Parked);
        PutEntry(entries, captures, kernel.state, key, Release(entries[key], Parked));
        entries := entries[key := Release(entries[key], Parked)];
        step := ParkedNow(Some(i));
      case Unbound(_, _, _) =>
        PutEntry(entries, captures, kernel.state, key, entries[key].(presence := Parked));
        entries := entries[key := entries[key].(presence := Parked)];
        step := ParkedNow(None);
    }

    /** All or nothing: fresh sockets, the reading, every capture re-bound, then addresses and joins. */
    method Bind(kernel: Kernel, key: nat, i: Index, now: Instant) returns (step: Step)
      requires Valid(kernel) && key < |entries| && AllResident(key)
      modifies this, kernel`state
      ensures Valid(kernel) && Evolves(old(kernel.state), kernel.state)
      ensures OnlyEntry(key) && Settled(old(entries[key].presence), entries[key].presence, step, now)
      ensures (step.Bound? || step.BindFailed?) && step.index == i
      ensures Rebinds(old(captures), captures, key)
      ensures binds == old(binds)[key := old(binds[key]) + if step.Bound? then 1 else 0]
      ensures step.Bound? && !step.gone ==> Tried(entries[key], now)
      ensures kernel.quiet ==> kernel.state == old(kernel.state)
      ensures kernel.quiet && kernel.Resolves(entries[key].name, i) ==>
                step.Bound? && Attached(captures, key, i, kernel.state) && AllMet(Rebased(old(entries[key].memberships)), entries[key].memberships, i, kernel.lacking, now)
      ensures kernel.quiet && step.Bound? ==> Surveyed(kernel.SurveyOf(i), entries[key].addrs, entries[key].mtu)
      ensures Tallied(old(captures), captures, old(binds), binds)
      ensures entries[key].early ==> old(entries[key].early)
      ensures Timely(old(entries[key]), now) ==> Timely(entries[key], now)
    {
      hide Surveyed, EntryOk, OthersOk, CapturesKnown, TableOk, Evolves, AllMet, Tried, Attached, KeepsGroups, SameBut, BoundAt, Timely, HasCapture;
      var e := entries[key];
      ghost var before := captures;
      BindStarts(kernel, key);
      var reading := Read(kernel, i);
      if reading.Some? {
        var ok := RebindCaptures(kernel, key, i);
        RebindsSpares(before, captures, key);
        if ok {
          var bound := InterfaceEntry(e.name, Present(i), reading.value.addrs, reading.value.mtu, Rebased(e.memberships), e.early && !HasCapture(captures, key));
          RebasedOk(e, bound, key, before, captures, kernel.state);
          ghost var k := kernel.state;
          var gone := Adopt(kernel, key, bound, now);
          EvolvesOn(old(kernel.state), k, kernel.state);
          KeepsEntryOn(e, bound, entries[key]);
          return Bound(e.presence, i, gone);
        }
      }
      step := Abandon(kernel, key, i, before, now);
    }

    lemma BindStarts(kernel: Kernel, key: nat)
      requires Valid(kernel) && key < |entries|
      ensures kernel.Valid() && CapturesKnown(captures, kernel.state) && OthersOk(entries, captures, kernel.state, key)
      ensures MembershipsReady(entries[key], captures, key)
      ensures SameBut(captures, captures, key) && Evolves(kernel.state, kernel.state)
    {
      assert EntryOk(entries[key], key, captures, kernel.state);
      EvolvesToItself(kernel.state);
    }

    /** Leave `key` unbound, due again after the next delay, and holding nothing. */
    method Abandon(kernel: Kernel, key: nat, i: Index, ghost before: seq<CaptureEntry>, now: Instant) returns (step: Step)
      requires kernel.Valid() && CapturesKnown(captures, kernel.state) && OthersOk(entries, captures, kernel.state, key)
      requires key < |entries| == |binds| && (forall c :: 0 <= c < |captures| ==> captures[c].interface < |entries|)
      requires MembershipsReady(entries[key], before, key) && SameBut(before, captures, key)
      modifies this`entries, this`captures
      ensures Valid(kernel) && captures == old(captures)
      ensures OnlyEntry(key) && Settled(old(entries[key].presence), entries[key].presence, step, now)
      ensures step.BindFailed? && step.index == i
      ensures entries[key].early ==> old(entries[key].early)
      ensures Timely(old(entries[key]), now) ==> Timely(entries[key], now)
    {
      var e := entries[key];
      var attempts := NextAttempts(e.presence, i);
      var released := Release(e, Unbound(i, attempts, now + RetryDelay(attempts)));
      ReleasedOkAfter(e, key, before, captures, kernel.state, released.presence);
      Commit(kernel, key, released);
      return BindFailed(e.presence, i, RetryDelay(attempts), attempts == 0);
    }

    /** Become present as `bound` says, then attempt its groups. */
    method Adopt(kernel: Kernel, key: nat, bound: InterfaceEntry, now: Instant) returns (gone: bool)
      requires kernel.Valid() && CapturesKnown(captures, kernel.state) && OthersOk(entries, captures, kernel.state, key)
      requires key < |entries| == |binds| && (forall c :: 0 <= c < |captures| ==> captures[c].interface < |entries|)
      requires bound.presence.Present? && EntryOk(bound, key, captures, kernel.state)
      modifies this, kernel`state
      ensures Valid(kernel) && Evolves(old(kernel.state), kernel.state)
      ensures |entries| == |old(entries)| && entries == old(entries)[key := entries[key]] && KeepsEntry(bound, entries[key])
      ensures entries[key].presence == bound.presence && Rebinds(old(captures), captures, key)
      ensures entries[key].addrs == bound.addrs && entries[key].mtu == bound.mtu
      ensures binds == old(binds)[key := old(binds[key]) + 1]
      ensures !gone ==> Tried(entries[key], now)
      ensures kernel.quiet ==> kernel.state == old(kernel.state)
      ensures kernel.quiet && kernel.Resolves(bound.name, bound.presence.index) && Attached(old(captures), key, bound.presence.index, kernel.state) ==>
                Attached(captures, key, bound.presence.index, kernel.state) && AllMet(bound.memberships, entries[key].memberships, bound.presence.index, kernel.lacking, now)
      ensures Tallied(old(captures), captures, old(binds), binds)
      ensures entries[key].early == bound.early
      ensures Timely(bound, now) ==> Timely(entries[key], now)
    {
      Commit(kernel, key, bound);
      binds := binds[key := binds[key] + 1];
      gone := ConvergeOn(kernel, key, now);
    }

    /** Store `key`'s new entry; a bound one counts a recovery on each of its captures. */
    method Commit(kernel: Kernel, key: nat, e: InterfaceEntry)
      requires kernel.Valid() && CapturesKnown(captures, kernel.state) && OthersOk(entries, captures, kernel.state, key)
      requires key < |entries| && EntryOk(e, key, captures, kernel.state)
      modifies this`entries, this`captures
      ensures entries == old(entries)[key := e] && TableOk(entries, captures, kernel.state)
      ensures Rebinds(old(captures), captures, key) && SameBut(old(captures), captures, -1)
      ensures !e.presence.Present? ==> captures == old(captures)
      ensures forall c :: 0 <= c < |captures| ==>
                captures[c].recoveries == old(captures)[c].recoveries + if captures[c].interface == key && e.presence.Present? then 1 else 0
    {
      PutEntry(entries, captures, kernel.state, key, e);
      entries := entries[key := e];
      if e.presence.Present? {
        var c := 0;
        while c < |captures|
          invariant c <= |captures| == |old(captures)| && entries == old(entries)[key := e]
          invariant forall b :: 0 <= b < |captures| ==>
                      captures[b] == old(captures)[b].(recoveries := captures[b].recoveries)
          invariant forall b :: 0 <= b < |captures| && captures[b].interface != key ==> captures[b] == old(captures)[b]
          invariant forall b :: 0 <= b < |captures| && captures[b].interface == key ==>
                      captures[b].recoveries == old(captures)[b].recoveries + if b < c then 1 else 0
        {
          if captures[c].interface == key {
            captures := captures[c := captures[c].(recoveries := captures[c].recoveries + 1)];
          }
          c := c + 1;
        }
        OthersSpared(entries, old(captures), captures, kernel.state, -1);
      }
    }

    // ----- Retries and queries

    /** Make the interfaces that failed to bind to `i` due now. */
    method WakeUnbound(kernel: Kernel, i: Index, now: Instant) returns (woke: bool)
      requires Valid(kernel)
      modifies this`entries
      ensures Valid(kernel) && |entries| == |old(entries)|
      ensures forall j :: 0 <= j < |entries| ==>
                entries[j] == if old(entries)[j].presence.Unbound? && old(entries)[j].presence.index == i
                              then old(entries)[j].(presence := old(entries)[j].presence.(nextTry := now)) else old(entries)[j]
      ensures woke <==> exists j :: 0 <= j < |entries| && old(entries)[j].presence.Unbound? && old(entries)[j].presence.index == i
    {
      woke := false;
      var j := 0;
      while j < |entries|
        invariant j <= |entries| == |old(entries)| && Valid(kernel)
        invariant forall l :: 0 <= l < |entries| ==>
                    entries[l] == if l < j && old(entries)[l].presence.Unbound? && old(entries)[l].presence.index == i
                                  then old(entries)[l].(presence := old(entries)[l].presence.(nextTry := now)) else old(entries)[l]
        invariant woke <==> exists l :: 0 <= l < j && old(entries)[l].presence.Unbound? && old(entries)[l].presence.index == i
      {
        var e := entries[j];
        if e.presence.Unbound? && e.presence.index == i {
          assert EntryOk(e, j, captures, kernel.state);
          PutEntry(entries, captures, kernel.state, j, e.(presence := e.presence.(nextTry := now)));
          entries := entries[j := e.(presence := e.presence.(nextTry := now))];
          woke := true;
        }
        j := j + 1;
      }
    }

    /** When a failed bind is next due, if any is. */
    method NextBindRetry() returns (r: Option<Instant>)
      ensures r == EarliestRetry(entries)
    {
      r := None;
      var j := 0;
      while j < |entries|
        invariant j <= |entries| && r == EarliestRetry(entries[..j])
      {
        assert entries[..j + 1][..j] == entries[..j];
        var p := entries[j].presence;
        if p.Unbound? && (r.None? || p.nextTry < r.value) {
          r := Some(p.nextTry);
        }
        j := j + 1;
      }
      assert entries[..j] == entries;
    }

    method AnyParked() returns (r: bool)
      ensures r <==> exists j :: 0 <= j < |entries| && entries[j].presence.Parked?
    {
      var j := 0;
      while j < |entries| && !entries[j].presence.Parked?
        invariant j <= |entries|
        invariant forall l :: 0 <= l < j ==> !entries[l].presence.Parked?
      {
        j := j + 1;
      }
      r := j < |entries|;
    }

    /** Read the addresses of a present interface again, if they can be read. */
    method Refresh(kernel: Kernel, key: nat) returns (ok: bool)
      requires Valid(kernel) && key < |entries|
      modifies this`entries
      ensures Valid(kernel) && OnlyEntry(key) && entries[key].presence == old(entries[key].presence)
      ensures entries[key] == old(entries[key]).(addrs := entries[key].addrs, mtu := entries[key].mtu)
      ensures !ok || !entries[key].presence.Present? ==> entries == old(entries)
      ensures !ok ==> entries[key].presence.Present?
      ensures kernel.quiet && entries[key].presence.Present? ==>
                ok && Surveyed(kernel.SurveyOf(entries[key].presence.index), entries[key].addrs, entries[key].mtu)
      ensures entries[key].early == old(entries[key].early)
    {
      if !entries[key].presence.Present? {
        return true;
      }
      var reading := Read(kernel, entries[key].presence.index);
      if reading.None? {
        return false;
      }
      assert EntryOk(entries[key], key, captures, kernel.state);
      var e := entries[key].(addrs := reading.value.addrs, mtu := reading.value.mtu);
      PutEntry(entries, captures, kernel.state, key, e);
      entries := entries[key := e];
      return true;
    }

    // ----- What was sent for the packet being routed

    predicate WasSent(egress: nat, packet: nat, digest: nat)
      reads this
    {
      SentOn(captures, egress, packet, digest)
    }

    method RecordSent(ghost kernel: Kernel, egress: nat, packet: nat, digest: nat)
      requires Valid(kernel)
      modifies this`captures
      ensures Valid(kernel)
      ensures captures == if egress < |old(captures)| then old(captures)[egress := Recorded(old(captures)[egress], packet, digest)]
                          else old(captures)
    {
      if egress < |captures| {
        ghost var before := captures;
        if captures[egress].sentPacket != packet {
          captures := captures[egress := captures[egress].(sentPacket := packet, sent := [])];
        }
        captures := captures[egress := captures[egress].(sent := captures[egress].sent + [digest])];
        OthersSpared(entries, before, captures, kernel.state, -1);
      }
    }

    // ----- Startup and drains

    /** Add an interface its name resolves to, or find it. */
    method FindOrAdd(kernel: Kernel, name: Name) returns (key: Option<nat>)
      requires Valid(kernel)
      modifies this, kernel`state
      ensures Valid(kernel) && Evolves(old(kernel.state), kernel.state)
      ensures captures == old(captures) && old(entries) <= entries && |entries| <= |old(entries)| + 1
      ensures key.Some? ==> key.value < |entries| && entries[key.value].name == name
      ensures key.None? ==> entries == old(entries)
      ensures (exists j :: 0 <= j < |old(entries)| && old(entries)[j].name == name) ==> key.Some? && entries == old(entries)
      ensures |entries| > |old(entries)| ==> key == Some(|old(entries)|) && entries[|old(entries)|].presence.Present?
                                             && entries[|old(entries)|].memberships.Some? == joinGroups
      ensures kernel.quiet ==> kernel.state == old(kernel.state)
      ensures |entries| > |old(entries)| ==>
                && entries[|old(entries)|].memberships == (if joinGroups then Some(Memberships(NO_SOCKETS, [])) else None)
                && !entries[|old(entries)|].early
      ensures kernel.quiet && name in kernel.state.names && (forall j :: 0 <= j < |old(entries)| ==> old(entries)[j].name != name) ==>
                && |entries| == |old(entries)| + 1 && entries[|old(entries)|].presence == Present(kernel.state.names[name])
                && Surveyed(kernel.SurveyOf(kernel.state.names[name]), entries[|old(entries)|].addrs, entries[|old(entries)|].mtu)
    {
      var j := 0;
      while j < |entries|
        invariant j <= |entries|
        invariant forall l :: 0 <= l < j ==> entries[l].name != name
      {
        if entries[j].name == name {
          return Some(j);
        }
        j := j + 1;
      }
      ghost var k := kernel.state;
      var found := kernel.Lookup(name);
      TableStays(entries, captures, k, kernel.state);
      if found.Failure? || found.value.None? {
        return None;
      }
      var reading := Read(kernel, found.value.value);
      if reading.None? {
        return None;
      }
      var m := if joinGroups then Some(Memberships(NO_SOCKETS, [])) else None;
      var e := InterfaceEntry(name, Present(found.value.value), reading.value.addrs, reading.value.mtu, m, false);
      assert EntryOk(e, |entries|, captures, kernel.state);
      key := Some(|entries|);
      entries := entries + [e];
      binds := binds + [0];
    }

    /** Open a capture on a present interface, attached by its index. */
    method OpenCapture(kernel: Kernel, key: nat) returns (c: Option<nat>)
      requires Valid(kernel) && key < |entries|
      modifies this`captures, kernel`state
      ensures Valid(kernel) && Evolves(old(kernel.state), kernel.state)
      ensures match c
              case None => captures == old(captures)
              case Some(n) => n == |old(captures)| && |captures| == n + 1 && captures[..n] == old(captures) && captures[n].interface == key
      ensures c.Some? ==> captures[c.value].resident && captures[c.value].sentPacket == 0 && captures[c.value].sent == []
      ensures kernel.quiet ==> kernel.state == old(kernel.state)
      ensures kernel.quiet && entries[key].presence.Present? && entries[key].presence.index in kernel.state.live ==>
                c.Some? && AttachedTo(kernel.state, captures[c.value].binding, entries[key].presence.index)
    {
      if !entries[key].presence.Present? {
        return None;
      }
      ghost var k := kernel.state;
      var ok, binding := kernel.Attach(entries[key].presence.index, None);
      TableStays(entries, captures, k, kernel.state);
      if !ok {
        return None;
      }
      var link: LinkType := *;
      BindingIsKnown(kernel.state, binding, entries[key].presence.index);
      var fresh' := CaptureEntry(true, binding, link, key, 0, 0, []);
      OpenedOk(entries, captures, fresh', kernel.state);
      c := Some(|captures|);
      captures := captures + [fresh'];
    }

    /** While a drain reads a capture, its place in the table is empty. */
    method SetResident(kernel: Kernel, c: nat, resident: bool)
      requires Valid(kernel) && c < |captures|
      modifies this`captures
      ensures Valid(kernel) && captures == old(captures)[c := old(captures)[c].(resident := resident)]
    {
      ghost var before := captures;
      captures := captures[c := captures[c].(resident := resident)];
      OthersSpared(entries, before, captures, kernel.state, -1);
    }
  }

  predicate SentOn(captures: seq<CaptureEntry>, egress: nat, packet: nat, digest: nat) {
    egress < |captures| && captures[egress].sentPacket == packet && digest in captures[egress].sent
  }

  function Recorded(c: CaptureEntry, packet: nat, digest: nat): CaptureEntry {
    c.(sentPacket := packet, sent := (if c.sentPacket == packet then c.sent else []) + [digest])
  }

  function Rebased(m: Option<Memberships>): Option<Memberships> {
    if m.Some? then Some(Rebase(m.value)) else None
  }

  /** An entry that is no longer present keeps only its name and the groups it wants. */
  function Release(e: InterfaceEntry, presence: Presence): InterfaceEntry {
    InterfaceEntry(e.name, presence, NO_ADDRESSES, None, Rebased(e.memberships), e.early)
  }

  function EarliestRetry(entries: seq<InterfaceEntry>): (r: Option<Instant>)
    ensures r.None? <==> forall j :: 0 <= j < |entries| ==> !entries[j].presence.Unbound?
    ensures r.Some? ==> exists j :: 0 <= j < |entries| && entries[j].presence.Unbound? && entries[j].presence.nextTry == r.value
    ensures r.Some? ==> forall j :: 0 <= j < |entries| && entries[j].presence.Unbound? ==> r.value <= entries[j].presence.nextTry
  {
    if entries == [] then None
    else
      var n := |entries| - 1;
      var front := EarliestRetry(entries[..n]);
      assert forall j :: 0 <= j < n ==> entries[..n][j] == entries[j];
      var p := entries[n].presence;
      if p.Unbound? && (front.None? || p.nextTry < front.value) then Some(p.nextTry) else front
  }

  lemma ReleasedOk(e: InterfaceEntry, key: nat, captures: seq<CaptureEntry>, k: KernelState, presence: Presence)
    requires EntryOk(e, key, captures, k) && !presence.Present?
    ensures EntryOk(Release(e, presence), key, captures, k) && KeepsEntry(e, Release(e, presence))
  {
  }

  lemma StillHasCapture(a: seq<CaptureEntry>, b: seq<CaptureEntry>, key: nat)
    requires SameBut(a, b, key) && HasCapture(a, key)
    ensures HasCapture(b, key)
  {
    var c :| 0 <= c < |a| && a[c].interface == key;
    assert b[c].interface == key;
  }

  lemma ReleasedOkAfter(e: InterfaceEntry, key: nat, a: seq<CaptureEntry>, b: seq<CaptureEntry>, k: KernelState, presence: Presence)
    requires e.memberships.Some? && e.memberships.value.groups != [] ==> HasCapture(a, key) || e.early
    requires e.memberships.Some? ==> Unrepeated(e.memberships.value)
    requires SameBut(a, b, key) && !presence.Present?
    ensures EntryOk(Release(e, presence), key, b, k) && KeepsEntry(e, Release(e, presence))
  {
    if HasCapture(a, key) {
      StillHasCapture(a, b, key);
    }
  }

  /** What binding needs to know of the groups wanted so far. */
  ghost predicate MembershipsReady(e: InterfaceEntry, captures: seq<CaptureEntry>, key: nat) {
    e.memberships.Some? ==> Unrepeated(e.memberships.value) && (e.memberships.value.groups != [] ==> HasCapture(captures, key) || e.early)
  }

  lemma RebindsSpares(a: seq<CaptureEntry>, b: seq<CaptureEntry>, key: nat)
    requires Rebinds(a, b, key)
    ensures SameBut(a, b, key)
  {
  }

  lemma RebasedOk(e: InterfaceEntry, bound: InterfaceEntry, key: nat, a: seq<CaptureEntry>, b: seq<CaptureEntry>, k: KernelState)
    requires MembershipsReady(e, a, key) && SameBut(a, b, key) && bound.presence.Present? && bound.addrs.Coherent()
    requires BoundAt(b, key, bound.presence.index) && bound.memberships == Rebased(e.memberships) && bound.name == e.name
    requires bound.early == (e.early && !HasCapture(b, key))
    ensures EntryOk(bound, key, b, k) && KeepsEntry(e, bound) && forall at :: Timely(bound, at)
  {
    BoundOk(bound, key, a, b, k);
  }

  lemma BoundOk(e: InterfaceEntry, key: nat, a: seq<CaptureEntry>, b: seq<CaptureEntry>, k: KernelState)
    requires e.presence.Present? && e.addrs.Coherent() && BoundAt(b, key, e.presence.index) && SameBut(a, b, key)
    requires e.memberships.Some? ==> Idle(e.memberships.value) && Unrepeated(e.memberships.value)
    requires e.memberships.Some? && e.memberships.value.groups != [] ==> HasCapture(a, key) || e.early
    ensures EntryOk(e, key, b, k)
  {
    if HasCapture(a, key) {
      StillHasCapture(a, b, key);
    }
    if e.memberships.Some? {
      IdleIsBacked(e.memberships.value, e.presence.index, k);
    }
  }

  lemma OpenedOk(entries: seq<InterfaceEntry>, captures: seq<CaptureEntry>, c: CaptureEntry, k: KernelState)
    requires TableOk(entries, captures, k) && c.binding.Some?
    requires Known(k, c.binding.value.index, c.binding.value.generation)
    requires c.interface < |entries| && entries[c.interface].presence == Present(c.binding.value.index)
    ensures TableOk(entries, captures + [c], k)
  {
    var all := captures + [c];
    forall j | 0 <= j < |entries|
      ensures EntryOk(entries[j], j, all, k)
    {
      OpenedEntryOk(entries[j], j, captures, c, k);
    }
  }

  lemma OpenedEntryOk(e: InterfaceEntry, j: nat, captures: seq<CaptureEntry>, c: CaptureEntry, k: KernelState)
    requires EntryOk(e, j, captures, k) && c.binding.Some?
    requires c.interface == j ==> e.presence == Present(c.binding.value.index)
    ensures EntryOk(e, j, captures + [c], k)
  {
    var all := captures + [c];
    assert forall b :: 0 <= b < |captures| ==> all[b] == captures[b];
    if HasCapture(captures, j) {
      var b :| 0 <= b < |captures| && captures[b].interface == j;
      assert all[b].interface == j;
    }
    if e.memberships.Some? && e.presence.Present? && !e.early {
      forall h | h in e.memberships.value.sockets.All()
        ensures Vouched(all, j, h.generation)
      {
        assert Vouched(captures, j, h.generation);
        var b :| IsFirst(captures, j, b) && captures[b].binding.Some? && captures[b].binding.value.generation <= h.generation;
        assert IsFirst(all, j, b) && all[b] == captures[b];
      }
    }
  }

  lemma EntryConverged(e: InterfaceEntry, key: nat, captures: seq<CaptureEntry>, k: KernelState, k': KernelState, m: Memberships)
    requires EntryOk(e, key, captures, k) && CapturesKnown(captures, k) && Evolves(k, k')
    requires e.presence.Present? && e.memberships.Some?
    requires Backed(m, e.presence.index, k') && |m.groups| == |e.memberships.value.groups|
    requires KeepsGroups(e.memberships.value, m)
    requires Gained(e.memberships.value.sockets.All(), m.sockets.All(), e.presence.index, k)
    requires e.memberships.value.groups == [] ==> m.sockets.All() == e.memberships.value.sockets.All()
    ensures EntryOk(e.(memberships := Some(m)), key, captures, k')
  {
    EntryStays(e, key, captures, k, k');
    if e.memberships.value.groups != [] && !e.early {
      GainedAreVouched(captures, key, e.presence.index, e.memberships.value.sockets.All(), m.sockets.All(), k);
    }
  }
}
