/**
 Runs of the interface table, on its own methods and one step of the kernel, to states in which the
 attachment probe is fooled: for every set of captures in which an interface's first is out, and for
 every set at all if a group was wanted before the first was opened.
 */
module TableRuns {
  import opened Wrappers
  import opened Clocks
  import opened Kernels
  import opened Multicast
  import opened Addresses
  import opened Interfaces
  import opened InterfaceTables

  const GROUP := Group(false, 0)

  /** A name for each interface, by its length. */
  function NameOf(j: nat): (name: Name)
    ensures |name| == j
  {
    if j == 0 then "" else NameOf(j - 1) + "x"
  }

  /** Interface `j` is present at index `j`, which its name resolves to. */
  ghost predicate Built(table: InterfaceTable, kernel: Kernel, n: nat)
    reads table, kernel
  {
    && table.Valid(kernel) && kernel.quiet && kernel.lacking == {} && |table.entries| == n
    && forall j :: 0 <= j < n ==>
      && table.entries[j].name == NameOf(j) && table.entries[j].presence == Present(j)
      && table.entries[j].memberships.Some? && kernel.Resolves(NameOf(j), j)
  }

  ghost predicate Fresh(table: InterfaceTable)
    reads table
  {
    && table.captures == []
    && forall j :: 0 <= j < |table.entries| ==> table.entries[j].memberships == Some(Memberships(NO_SOCKETS, [])) && !table.entries[j].early
  }

  method Machine(n: nat) returns (kernel: Kernel)
    ensures fresh(kernel) && kernel.Valid() && kernel.quiet && kernel.lacking == {}
    ensures forall j :: 0 <= j < n ==> kernel.Resolves(NameOf(j), j)
  {
    var names: map<Name, Index>, live: map<Index, Generation> := map[], map[];
    for j := 0 to n
      invariant forall i :: 0 <= i < j ==> NameOf(i) in names && names[NameOf(i)] == i
      invariant forall i :: i in live <==> 0 <= i < j
      invariant forall i :: i in live ==> live[i] < n
    {
      names, live := names[NameOf(j) := j], live[j := j];
    }
    kernel := new Kernel(KernelState(names, live, n), true, {}, map[]);
  }

  method AddNext(table: InterfaceTable, kernel: Kernel, j: nat)
    requires Built(table, kernel, j) && Fresh(table) && table.joinGroups && kernel.Resolves(NameOf(j), j)
    modifies table, kernel`state
    ensures Built(table, kernel, j + 1) && Fresh(table) && kernel.state == old(kernel.state)
  {
    hide InterfaceTable.Valid;
    ghost var before := table.entries;
    var key := table.FindOrAdd(kernel, NameOf(j));
    assert forall i :: 0 <= i < j ==> table.entries[i] == before[i];
  }

  method Build(n: nat) returns (table: InterfaceTable, kernel: Kernel)
    ensures fresh(table) && fresh(kernel) && Built(table, kernel, n) && Fresh(table)
  {
    kernel := Machine(n);
    table := new InterfaceTable(kernel, Linux, true);
    for j := 0 to n
      invariant fresh(table) && fresh(kernel) && table.joinGroups && Built(table, kernel, j) && Fresh(table)
      invariant forall i :: 0 <= i < n ==> kernel.Resolves(NameOf(i), i)
    {
      AddNext(table, kernel, j);
    }
  }

  // ----- The captures

  ghost predicate JoinedAt(entries: seq<InterfaceEntry>, key: nat) {
    && key < |entries| && entries[key].memberships.Some?
    && exists m :: m in entries[key].memberships.value.groups && m.state.Joined?
  }

  /** The first `c` captures of the shape are open, of which the first `d` are out where the shape has them out. */
  ghost predicate OpenedLike(shape: seq<CaptureEntry>, captures: seq<CaptureEntry>, c: nat, d: nat, key: nat, out: nat, k: KernelState) {
    && |captures| == c <= |shape|
    && (forall b :: 0 <= b < c ==> captures[b].interface == shape[b].interface && captures[b].resident == (b < d ==> shape[b].resident))
    && (forall b :: 0 <= b < c && b != out && captures[b].interface == key ==> AttachedTo(k, captures[b].binding, key))
  }

  /** Every membership held at `key` is of an interface that is gone. */
  ghost predicate Outlived(entries: seq<InterfaceEntry>, key: nat, k: KernelState) {
    && JoinedAt(entries, key) && key in k.live
    && forall h :: h in entries[key].memberships.value.sockets.All() ==> h.generation != k.live[key]
  }

  /** Join the group and have the interface recreated at its index. */
  method JoinAndOutlive(table: InterfaceTable, kernel: Kernel, n: nat, key: nat)
    requires Built(table, kernel, n) && key < n
    requires table.entries[key].memberships == Some(Memberships(NO_SOCKETS, []))
    modifies table`entries, kernel`state
    ensures Built(table, kernel, n) && Outlived(table.entries, key, kernel.state)
    ensures table.entries[key].early == (old(table.entries[key].early) || !HasCapture(table.captures, key))
    ensures forall j :: 0 <= j < n && j != key ==> table.entries[j].memberships == old(table.entries[j].memberships)
  {
    var r;
    ghost var answer;
    r, answer := table.JoinOn(kernel, key, GROUP, false, 0);
    ghost var k := kernel.state;
    assert EntryOk(table.entries[key], key, table.captures, k);
    kernel.Recreate(key);
    TableStays(table.entries, table.captures, k, kernel.state);
  }

  method OpenNext(table: InterfaceTable, kernel: Kernel, shape: seq<CaptureEntry>, n: nat, key: nat, out: nat)
    requires Built(table, kernel, n) && key < n
    requires OpenedLike(shape, table.captures, |table.captures|, 0, key, out, kernel.state) && |table.captures| < |shape|
    requires shape[|table.captures|].interface < n
    modifies table`captures, kernel`state
    ensures Built(table, kernel, n) && kernel.state == old(kernel.state) && |table.captures| == |old(table.captures)| + 1
    ensures OpenedLike(shape, table.captures, |table.captures|, 0, key, out, kernel.state)
  {
    var c := table.OpenCapture(kernel, shape[|table.captures|].interface);
  }

  method TakeOut(table: InterfaceTable, kernel: Kernel, shape: seq<CaptureEntry>, n: nat, key: nat, out: nat)
    requires Built(table, kernel, n) && OpenedLike(shape, table.captures, |shape|, 0, key, out, kernel.state)
    requires (out < |shape| ==> !shape[out].resident) && Outlived(table.entries, key, kernel.state) && key < n
    modifies table`captures
    ensures Built(table, kernel, n) && SameShape(shape, table.captures)
    ensures Fooled(table.entries, table.captures, kernel.state, key)
  {
    hide InterfaceTable.Valid, OpenedLike, Outlived, Fooled, SameShape;
    for d := 0 to |shape|
      invariant table.Valid(kernel) && OpenedLike(shape, table.captures, |shape|, d, key, out, kernel.state)
    {
      ghost var before := table.captures;
      OpenedLength(shape, before, |shape|, d, key, out, kernel.state);
      if !shape[d].resident {
        table.SetResident(kernel, d, false);
      }
      TakenOutNext(shape, before, table.captures, d, key, out, kernel.state);
    }
    ThenFooled(shape, table.entries, table.captures, key, out, kernel.state);
  }

  lemma OpenedLength(shape: seq<CaptureEntry>, captures: seq<CaptureEntry>, c: nat, d: nat, key: nat, out: nat, k: KernelState)
    requires OpenedLike(shape, captures, c, d, key, out, k)
    ensures |captures| == c
  {
  }

  lemma TakenOutNext(shape: seq<CaptureEntry>, before: seq<CaptureEntry>, after: seq<CaptureEntry>, d: nat, key: nat, out: nat, k: KernelState)
    requires d < |shape| == |before| && OpenedLike(shape, before, |shape|, d, key, out, k)
    requires after == if shape[d].resident then before else before[d := before[d].(resident := false)]
    ensures OpenedLike(shape, after, |shape|, d + 1, key, out, k)
  {
  }

  lemma ThenFooled(shape: seq<CaptureEntry>, entries: seq<InterfaceEntry>, captures: seq<CaptureEntry>, key: nat, out: nat, k: KernelState)
    requires OpenedLike(shape, captures, |shape|, |shape|, key, out, k) && (out < |shape| ==> !shape[out].resident)
    requires Outlived(entries, key, k) && entries[key].presence == Present(key)
    ensures SameShape(shape, captures) && Fooled(entries, captures, k, key)
  {
    var m := entries[key].memberships.value;
    var joined :| joined in m.groups && joined.state.Joined?;
    var j :| 0 <= j < |m.groups| && m.groups[j] == joined;
    assert Held(key, k.live[key], m.groups[j].group) !in m.sockets.All();
  }

  /**
   Add the interfaces and open the captures in order; once `key`'s first is open, join a group and
   let the kernel recreate the interface. Then take out the captures the shape has out.
   */
  method DrainFoolsTheProbe(shape: seq<CaptureEntry>, n: nat, key: nat, out: nat) returns (table: InterfaceTable, kernel: Kernel)
    requires key < n && (forall c :: 0 <= c < |shape| ==> shape[c].interface < n)
    requires IsFirst(shape, key, out) && !shape[out].resident
    ensures fresh(table) && fresh(kernel) && table.Valid(kernel) && |table.entries| == n && SameShape(shape, table.captures)
    ensures !table.entries[key].early && Fooled(table.entries, table.captures, kernel.state, key)
  {
    table, kernel := Build(n);
    for c := 0 to |shape|
      invariant fresh(table) && fresh(kernel) && Built(table, kernel, n)
      invariant OpenedLike(shape, table.captures, c, 0, key, out, kernel.state)
      invariant !table.entries[key].early
      invariant if c <= out then table.entries[key].memberships == Some(Memberships(NO_SOCKETS, []))
                else Outlived(table.entries, key, kernel.state)
    {
      OpenNext(table, kernel, shape, n, key, out);
      if c == out {
        assert table.captures[c].interface == key;
        JoinAndOutlive(table, kernel, n, key);
      }
    }
    TakeOut(table, kernel, shape, n, key, out);
  }

  /**
   Join the group while `key` has no capture, let the kernel recreate the interface, and only then
   open the captures: all of them are attached, and none vouches for the group.
   */
  method EarlyJoinFoolsTheProbe(shape: seq<CaptureEntry>, n: nat, key: nat) returns (table: InterfaceTable, kernel: Kernel)
    requires key < n && (forall c :: 0 <= c < |shape| ==> shape[c].interface < n)
    ensures fresh(table) && fresh(kernel) && table.Valid(kernel) && |table.entries| == n && SameShape(shape, table.captures)
    ensures Fooled(table.entries, table.captures, kernel.state, key)
  {
    table, kernel := Build(n);
    JoinAndOutlive(table, kernel, n, key);
    for c := 0 to |shape|
      invariant fresh(table) && fresh(kernel) && Built(table, kernel, n)
      invariant OpenedLike(shape, table.captures, c, 0, key, |shape|, kernel.state)
      invariant Outlived(table.entries, key, kernel.state)
    {
      OpenNext(table, kernel, shape, n, key, |shape|);
    }
    TakeOut(table, kernel, shape, n, key, |shape|);
  }
}
