/**
 The kernel as the interface table meets it: names that may resolve, interfaces destroyed and
 recreated at any moment, sometimes at the same index. A generation tells two interfaces at one
 index apart; no system call shows it. Other processes act before every call.
 */
module Kernels {
  import opened Wrappers
  import opened Clocks
  import opened Addresses

  type Name = string
  type Index = nat
  type Generation = nat

  datatype Group = Group(v6: bool, address: nat)

  datatype KernelState = KernelState(names: map<Name, Index>, live: map<Index, Generation>, next: Generation)

  predicate Sane(k: KernelState) {
    forall i :: i in k.live ==> k.live[i] < k.next
  }

  /** `g` is the interface at `i` in `k`, or one created since. */
  predicate Since(k: KernelState, i: Index, g: Generation) {
    g >= k.next || (i in k.live && k.live[i] == g)
  }

  /** Anything may have happened, but a generation is never reused. */
  predicate Evolves(k: KernelState, k': KernelState) {
    && Sane(k')
    && k.next <= k'.next
    && (forall i :: i in k'.live ==> Since(k, i, k'.live[i]))
  }

  /** `g` was at `i` at some time up to `k`. */
  ghost predicate Known(k: KernelState, i: Index, g: Generation) {
    g < k.next && (i in k.live ==> g <= k.live[i])
  }

  lemma KnownStays(k: KernelState, k': KernelState, i: Index, g: Generation)
    requires Evolves(k, k') && Known(k, i, g)
    ensures Known(k', i, g)
  {
  }

  lemma EvolvesToItself(k: KernelState)
    requires Sane(k)
    ensures Evolves(k, k)
  {
  }

  lemma EvolvesOn(a: KernelState, b: KernelState, c: KernelState)
    requires Evolves(a, b) && Evolves(b, c)
    ensures Evolves(a, c)
  {
    forall i | i in c.live
      ensures Since(a, i, c.live[i])
    {
      assert Since(b, i, c.live[i]);
      if c.live[i] < b.next {
        assert i in b.live && b.live[i] == c.live[i];
        assert Since(a, i, b.live[i]);
      }
    }
  }

  /** What a capture is bound to: an index, and the interface that had it then. */
  datatype Attachment = Attachment(index: Index, generation: Generation)

  predicate AttachedTo(k: KernelState, a: Option<Attachment>, i: Index) {
    a.Some? && a.value.index == i && i in k.live && k.live[i] == a.value.generation
  }

  /** A membership a socket holds. It outlives the interface it was taken on. */
  datatype Held = Held(index: Index, generation: Generation, group: Group)

  type Socket = set<Held>

  predicate Holds(s: Socket, i: Index, group: Group) {
    exists h :: h in s && h.index == i && h.group == group
  }

  datatype Errno = EADDRINUSE | ENODEV | EADDRNOTAVAIL | EINVAL | EAFNOSUPPORT | ENOBUFS | OTHER

  /**
   `quiet` holds while nothing else acts on the machine and every call that can succeed does; an
   interface may still be without a family, which `lacking` lists by index and version. `surveys`
   says what addresses an interface has as long as nothing changes them.
   */
  class Kernel {
    var state: KernelState
    var quiet: bool
    var lacking: set<(Index, bool)>
    var surveys: map<Index, Survey>

    function SurveyOf(i: Index): Survey
      reads this
    {
      if i in surveys then surveys[i] else NO_SURVEY
    }

    ghost predicate Valid()
      reads this
    {
      Sane(state)
    }

    /** The name resolves to an interface that exists. */
    ghost predicate Resolves(name: Name, i: Index)
      reads this
    {
      name in state.names && state.names[name] == i && i in state.live
    }

    constructor (state: KernelState, quiet: bool, lacking: set<(Index, bool)>, surveys: map<Index, Survey>)
      requires Sane(state)
      ensures Valid() && this.state == state && this.quiet == quiet && this.lacking == lacking && this.surveys == surveys
    {
      this.state, this.quiet, this.lacking, this.surveys := state, quiet, lacking, surveys;
    }

    /** What the rest of the machine does between two calls. */
    method Interfere()
      requires Valid()
      modifies this`state
      ensures Valid() && Evolves(old(state), state)
      ensures quiet ==> state == old(state)
    {
      var s: KernelState := *;
      if !quiet && Evolves(state, s) {
        state := s;
      }
    }

    /** One thing it may do: destroy the interface at `i` and create another there. */
    method Recreate(i: Index)
      requires Valid() && i in state.live
      modifies this`state
      ensures Valid() && Evolves(old(state), state)
      ensures state == old(state).(live := old(state).live[i := old(state).next], next := old(state).next + 1)
    {
      state := state.(live := state.live[i := state.next], next := state.next + 1);
    }

    /** if_nametoindex: may fail for want of resources, and reads as absent on any other error. */
    method Lookup(name: Name) returns (r: Result<Option<Index>, ()>)
      requires Valid()
      modifies this`state
      ensures Valid() && Evolves(old(state), state)
      ensures r.Success? && r.value.Some? ==> name in state.names && state.names[name] == r.value.value
      ensures quiet ==> state == old(state) && r == Success(if name in state.names then Some(state.names[name]) else None)
    {
      Interfere();
      var failed: bool, absent: bool := *, *;
      if !quiet && failed {
        r := Failure(());
      } else if !quiet && absent {
        r := Success(None);
      } else {
        r := Success(if name in state.names then Some(state.names[name]) else None);
      }
    }

    /** Binding a packet socket by index takes the interface that has it now, or fails. */
    method Attach(i: Index, was: Option<Attachment>) returns (ok: bool, a: Option<Attachment>)
      requires Valid()
      modifies this`state
      ensures Valid() && Evolves(old(state), state)
      ensures ok ==> AttachedTo(state, a, i)
      ensures !ok ==> a == was || a == None
      ensures quiet ==> state == old(state) && (i in state.live ==> ok)
    {
      Interfere();
      var failed: bool, lost: bool := *, *;
      if !quiet && failed {
        ok, a := false, if lost then None else was;
      } else {
        ok, a := i in state.live, if i in state.live then Some(Attachment(i, state.live[i])) else was;
      }
    }

    /**
     MCAST_JOIN_GROUP by index. A socket that holds the group at that index answers EADDRINUSE,
     even if the interface it was taken on is gone.
     */
    method Join(s: Socket, i: Index, group: Group) returns (r: Result<(), Errno>, s': Socket)
      requires Valid()
      modifies this`state
      ensures Valid() && Evolves(old(state), state)
      ensures r.Success? ==> i in state.live && s' == s + {Held(i, state.live[i], group)}
      ensures r.Failure? ==> s' == s
      ensures r == Failure(EADDRINUSE) ==> Holds(s, i, group)
      ensures r.Success? ==> !Holds(s, i, group)
      ensures quiet ==> state == old(state)
      ensures quiet && i !in state.live ==> r == if Holds(s, i, group) then Failure(EADDRINUSE) else Failure(ENODEV)
      ensures quiet && i in state.live ==>
                r == if Holds(s, i, group) then Failure(EADDRINUSE) else if (i, group.v6) in lacking then Failure(ENODEV) else Success(())
    {
      Interfere();
      s' := s;
      var refused: bool := *;
      var errno: Errno :| errno != EADDRINUSE;
      if Holds(s, i, group) {
        r := Failure(EADDRINUSE);
      } else if i !in state.live || (quiet && (i, group.v6) in lacking) {
        r := Failure(ENODEV);
      } else if !quiet && refused {
        r := Failure(errno);
      } else {
        r, s' := Success(()), s + {Held(i, state.live[i], group)};
      }
    }

    /** socket(2) may fail. */
    method OpenSocket() returns (ok: bool)
      requires Valid()
      modifies this`state
      ensures Valid() && Evolves(old(state), state)
      ensures quiet ==> state == old(state) && ok
    {
      Interfere();
      var failed: bool := *;
      ok := quiet || !failed;
    }
  }
}
