/**
 What the handlers of one packet report, folded into one verdict (src/dispatch/counters.rs, and the
 fold in src/dispatch.rs). The source calls the fold order-independent; it is, exactly where
 `Unambiguous` holds.
 */
module Outcomes {
  import opened Wrappers

  datatype MessageType =
    | MdnsQuery | MdnsResponse | SsdpAdvertisement | SsdpSearch | SsdpResponse
    | WsdAnnouncement | WsdSearch | WsdResponse | WakeOnLan | UdpDatagram
  {
    /** Any type but the relay's. */
    predicate Specific() { this != UdpDatagram }
  }

  datatype Outcome =
    | Reflected(kind: MessageType) | Skipped(kind: MessageType) | Refused(kind: MessageType)
    | Dropped(kind: MessageType) | Stalled(kind: MessageType) | Filtered
  {
    /** The precedence of its disposition, worst to best. */
    function Rank(): nat {
      match this
      case Filtered => 0
      case Skipped(_) => 1
      case Refused(_) => 2
      case Stalled(_) => 3
      case Dropped(_) => 4
      case Reflected(_) => 5
    }

    predicate Protocol() { !Filtered? && kind.Specific() }

    predicate Relay() { !Filtered? && !kind.Specific() }

    function WithType(t: MessageType): Outcome {
      match this
      case Filtered => Filtered
      case Skipped(_) => Skipped(t)
      case Refused(_) => Refused(t)
      case Stalled(_) => Stalled(t)
      case Dropped(_) => Dropped(t)
      case Reflected(_) => Reflected(t)
    }

    function Combine(other: Outcome): (Outcome, bool) {
      var mismatch := Protocol() && other.Protocol() && kind != other.kind;
      var merged := if other.Rank() > Rank() then other else this;
      if Filtered? || other.Filtered? || kind.Specific() == other.kind.Specific() then (merged, mismatch)
      else (merged.WithType(if kind.Specific() then kind else other.kind), mismatch)
    }
  }

  /** The verdict after the rest of the handlers, and whether some step flagged a mismatch. */
  function FoldFrom(acc: Outcome, rest: seq<Outcome>): (Outcome, bool)
    decreases |rest|
  {
    if rest == [] then (acc, false)
    else
      var (merged, mismatch) := acc.Combine(rest[0]);
      var (final, later) := FoldFrom(merged, rest[1..]);
      (final, mismatch || later)
  }

  function Folded(outs: seq<Outcome>): (Option<Outcome>, bool) {
    if outs == [] then (None, false)
    else
      var (final, mismatch) := FoldFrom(outs[0], outs[1..]);
      (Some(final), mismatch)
  }

  /** The dispatcher's loop: one verdict for the packet, none when no handler applied. */
  method Fold(outs: seq<Outcome>) returns (final: Option<Outcome>, mismatch: bool)
    ensures (final, mismatch) == Folded(outs)
  {
    final, mismatch := None, false;
    for i := 0 to |outs|
      invariant final.None? <==> i == 0
      invariant i == 0 ==> !mismatch
      invariant i > 0 ==> Folded(outs) == var (o, m) := FoldFrom(final.value, outs[i..]); (Some(o), mismatch || m)
    {
      match final
      case None =>
        final := Some(outs[i]);
      case Some(prev) =>
        var (merged, m) := prev.Combine(outs[i]);
        assert outs[i..][1..] == outs[i + 1..];
        final, mismatch := Some(merged), mismatch || m;
    }
  }

  // ----- What the verdict is

  ghost predicate TopRank(outs: seq<Outcome>, r: nat) {
    && (exists i :: 0 <= i < |outs| && outs[i].Rank() == r)
    && (forall i :: 0 <= i < |outs| ==> outs[i].Rank() <= r)
  }

  ghost predicate Named(outs: seq<Outcome>, t: MessageType) {
    exists i :: 0 <= i < |outs| && outs[i].Protocol() && outs[i].kind == t
  }

  ghost predicate Disagree(outs: seq<Outcome>) {
    exists i, j :: 0 <= i < |outs| && 0 <= j < |outs| && outs[i].Protocol() && outs[j].Protocol() && outs[i].kind != outs[j].kind
  }

  /** The highest disposition, under a protocol's type if any protocol named one, else the relay's. */
  ghost predicate Verdict(outs: seq<Outcome>, o: Outcome) {
    && TopRank(outs, o.Rank())
    && (!o.Filtered? ==> if exists t :: Named(outs, t) then o.kind.Specific() && Named(outs, o.kind) else o.kind == UdpDatagram)
  }

  /** A verdict names a protocol exactly when some outcome does, and one that some outcome names. */
  lemma VerdictParts(outs: seq<Outcome>, o: Outcome)
    ensures Verdict(outs, o) <==>
              && TopRank(outs, o.Rank())
              && (forall t :: Named(outs, t) ==> o.Protocol())
              && (o.Protocol() ==> Named(outs, o.kind))
  {
    if t :| Named(outs, t) {
      var i :| 0 <= i < |outs| && outs[i].Protocol() && outs[i].kind == t;
      assert TopRank(outs, o.Rank()) ==> outs[i].Rank() <= o.Rank();
    }
  }

  lemma CombineNames(acc: Outcome, o: Outcome)
    ensures var merged := acc.Combine(o).0;
            && merged.Rank() == (if o.Rank() > acc.Rank() then o.Rank() else acc.Rank())
            && (merged.Protocol() <==> acc.Protocol() || o.Protocol())
            && (merged.Protocol() ==> (acc.Protocol() && merged.kind == acc.kind) || (o.Protocol() && merged.kind == o.kind))
  {
  }

  lemma TopRankNext(outs: seq<Outcome>, r: nat, o: Outcome)
    requires TopRank(outs, r)
    ensures TopRank(outs + [o], if o.Rank() > r then o.Rank() else r)
  {
    var all := outs + [o];
    assert all[|outs|] == o;
    var i :| 0 <= i < |outs| && outs[i].Rank() == r;
    assert all[i].Rank() == r;
  }

  lemma VerdictNext(outs: seq<Outcome>, acc: Outcome, o: Outcome)
    requires Verdict(outs, acc)
    ensures Verdict(outs + [o], acc.Combine(o).0)
  {
    hide Verdict, TopRank, Named, Outcome.Combine, Outcome.Rank;
    VerdictParts(outs, acc);
    CombineNames(acc, o);
    TopRankNext(outs, acc.Rank(), o);
    NamedNext(outs, o);
    VerdictParts(outs + [o], acc.Combine(o).0);
  }

  lemma NamedNext(outs: seq<Outcome>, o: Outcome)
    ensures forall t :: Named(outs + [o], t) <==> Named(outs, t) || (o.Protocol() && o.kind == t)
  {
    var all := outs + [o];
    assert all[|outs|] == o;
    forall t
      ensures Named(all, t) <==> Named(outs, t) || (o.Protocol() && o.kind == t)
    {
      if i :| 0 <= i < |outs| && outs[i].Protocol() && outs[i].kind == t {
        assert all[i] == outs[i];
      }
    }
  }

  lemma DisagreeByName(outs: seq<Outcome>)
    ensures Disagree(outs) <==> exists t, u :: Named(outs, t) && Named(outs, u) && t != u
  {
    if Disagree(outs) {
      var i, j :| 0 <= i < |outs| && 0 <= j < |outs| && outs[i].Protocol() && outs[j].Protocol() && outs[i].kind != outs[j].kind;
      assert Named(outs, outs[i].kind) && Named(outs, outs[j].kind);
    }
    if t, u :| Named(outs, t) && Named(outs, u) && t != u {
      var i :| 0 <= i < |outs| && outs[i].Protocol() && outs[i].kind == t;
      var j :| 0 <= j < |outs| && outs[j].Protocol() && outs[j].kind == u;
    }
  }

  /** Two protocol types differ after one more exactly when they did before or it differs from a name. */
  lemma DisagreeNext(outs: seq<Outcome>, acc: Outcome, o: Outcome)
    requires Verdict(outs, acc)
    ensures Disagree(outs + [o]) <==> Disagree(outs) || acc.Combine(o).1
  {
    VerdictParts(outs, acc);
    NamedNext(outs, o);
    DisagreeByName(outs);
    DisagreeByName(outs + [o]);
    assert acc.Combine(o).1 <==> acc.Protocol() && o.Protocol() && acc.kind != o.kind;
    hide Verdict, Disagree, Named, Outcome.Combine;
    if acc.Combine(o).1 {
      assert Named(outs + [o], acc.kind) && Named(outs + [o], o.kind);
    }
    if Disagree(outs) {
      var t, u :| Named(outs, t) && Named(outs, u) && t != u;
      assert Named(outs + [o], t) && Named(outs + [o], u);
    }
  }

  lemma {:induction false} FoldFromIsTheVerdict(seen: seq<Outcome>, acc: Outcome, rest: seq<Outcome>)
    requires Verdict(seen, acc)
    ensures var (o, m) := FoldFrom(acc, rest); Verdict(seen + rest, o) && (Disagree(seen) || m <==> Disagree(seen + rest))
    decreases |rest|
  {
    if rest == [] {
      assert seen + rest == seen;
    } else {
      VerdictNext(seen, acc, rest[0]);
      DisagreeNext(seen, acc, rest[0]);
      FoldFromIsTheVerdict(seen + [rest[0]], acc.Combine(rest[0]).0, rest[1..]);
      assert seen + [rest[0]] + rest[1..] == seen + rest;
    }
  }

  /** Any handlers: the highest disposition under a reported type, flagged exactly when two protocols differ. */
  lemma FoldedIsTheVerdict(outs: seq<Outcome>)
    ensures Folded(outs).0.None? <==> outs == []
    ensures outs != [] ==> Verdict(outs, Folded(outs).0.value)
    ensures Folded(outs).1 <==> Disagree(outs)
  {
    if outs != [] {
      var first := [outs[0]];
      assert first[0] == outs[0];
      assert Verdict(first, outs[0]) by {
        assert outs[0].Protocol() ==> Named(first, outs[0].kind);
      }
      FoldFromIsTheVerdict(first, outs[0], outs[1..]);
      assert first + outs[1..] == outs;
    }
  }

  predicate SameDisposition(a: Outcome, b: Outcome) {
    match a
    case Reflected(_) => b.Reflected?
    case Dropped(_) => b.Dropped?
    case Stalled(_) => b.Stalled?
    case Refused(_) => b.Refused?
    case Skipped(_) => b.Skipped?
    case Filtered => b.Filtered?
  }

  /**
   One handler that reflected makes the packet reflected; else one that dropped it makes it dropped,
   then stalled, refused and skipped in this order, and only if all filtered it is it filtered.
   */
  lemma WorstToBest(outs: seq<Outcome>)
    requires outs != []
    ensures var o := Folded(outs).0.value;
            if exists i :: 0 <= i < |outs| && outs[i].Reflected? then o.Reflected?
            else if exists i :: 0 <= i < |outs| && outs[i].Dropped? then o.Dropped?
            else if exists i :: 0 <= i < |outs| && outs[i].Stalled? then o.Stalled?
            else if exists i :: 0 <= i < |outs| && outs[i].Refused? then o.Refused?
            else if exists i :: 0 <= i < |outs| && outs[i].Skipped? then o.Skipped?
            else o.Filtered?
  {
    hide Folded, FoldFrom;
    FoldedIsTheVerdict(outs);
    var o := Folded(outs).0.value;
    var k :| 0 <= k < |outs| && outs[k].Rank() == o.Rank();
    assert SameDisposition(outs[k], o);
  }

  /** Of protocols that came to one disposition the first names the packet. */
  lemma {:induction false} FirstOfEquals(first: Outcome, rest: seq<Outcome>)
    requires first.Protocol() && forall i :: 0 <= i < |rest| ==> rest[i].Protocol() && SameDisposition(first, rest[i])
    ensures Folded([first] + rest).0 == Some(first)
  {
    assert ([first] + rest)[1..] == rest;
    EqualsFold(first, rest);
  }

  lemma {:induction false} EqualsFold(first: Outcome, rest: seq<Outcome>)
    requires first.Protocol() && forall i :: 0 <= i < |rest| ==> rest[i].Protocol() && SameDisposition(first, rest[i])
    ensures FoldFrom(first, rest).0 == first
    decreases |rest|
  {
    if rest != [] {
      assert first.Combine(rest[0]).0 == first;
      EqualsFold(first, rest[1..]);
    }
  }

  // ----- When the order of the handlers matters

  ghost predicate SameHandlers(a: seq<Outcome>, b: seq<Outcome>) { multiset(a) == multiset(b) }

  lemma SameMembers(a: seq<Outcome>, b: seq<Outcome>)
    requires SameHandlers(a, b)
    ensures forall x :: x in a <==> x in b
  {
    forall x
      ensures x in a <==> x in b
    {
      assert x in a <==> x in multiset(a);
    }
  }

  ghost predicate IsTop(outs: seq<Outcome>, x: Outcome) {
    x in outs && forall y :: y in outs ==> y.Rank() <= x.Rank()
  }

  /** Every outcome of the highest disposition names this protocol type. */
  ghost predicate OnlyAtTheTop(outs: seq<Outcome>, t: MessageType) {
    t.Specific() && forall x :: IsTop(outs, x) ==> x.Protocol() && x.kind == t
  }

  /** No two protocol types differ, or none but one type is at the highest disposition. */
  ghost predicate Unambiguous(outs: seq<Outcome>) {
    !Disagree(outs) || exists t :: OnlyAtTheTop(outs, t)
  }

  lemma AgreementFixesTheVerdict(a: seq<Outcome>, b: seq<Outcome>, o: Outcome, p: Outcome)
    requires SameHandlers(a, b) && !Disagree(a) && Verdict(a, o) && Verdict(b, p)
    ensures o == p
  {
    SameMembers(a, b);
    assert o.Rank() == p.Rank() by {
      var i :| 0 <= i < |a| && a[i].Rank() == o.Rank();
      var j :| 0 <= j < |b| && b[j].Rank() == p.Rank();
      assert a[i] in b && b[j] in a;
    }
    forall t
      ensures Named(a, t) <==> Named(b, t)
    {
      NamedByMembers(a, t);
      NamedByMembers(b, t);
    }
  }

  lemma NamedByMembers(outs: seq<Outcome>, t: MessageType)
    ensures Named(outs, t) <==> exists x :: x in outs && x.Protocol() && x.kind == t
  {
    if x :| x in outs && x.Protocol() && x.kind == t {
      var i :| 0 <= i < |outs| && outs[i] == x;
      assert outs[i].Protocol();
    }
  }

  /** A type alone at the top is the verdict's, whatever came first. */
  lemma {:induction false} TopTypeWins(acc: Outcome, rest: seq<Outcome>, r: nat, t: MessageType)
    requires t.Specific()
    requires forall x :: x == acc || x in rest ==> x.Rank() < r || (x.Rank() == r && x.Protocol() && x.kind == t)
    ensures var o := FoldFrom(acc, rest).0; o.Rank() < r || (o.Rank() == r && o.Protocol() && o.kind == t)
    decreases |rest|
  {
    if rest != [] {
      assert rest[0] in rest;
      TopTypeWins(acc.Combine(rest[0]).0, rest[1..], r, t);
    }
  }

  lemma OnlyTopFixesTheVerdict(outs: seq<Outcome>, t: MessageType, top: Outcome)
    requires OnlyAtTheTop(outs, t) && IsTop(outs, top)
    ensures Folded(outs).0 == Some(top)
  {
    assert outs[0] in outs;
    forall x | x in outs
      ensures x.Rank() < top.Rank() || (x.Rank() == top.Rank() && x.Protocol() && x.kind == t)
    {
      assert x.Rank() == top.Rank() ==> IsTop(outs, x);
    }
    TopTypeWins(outs[0], outs[1..], top.Rank(), t);
    FoldedIsTheVerdict(outs);
    var o := Folded(outs).0.value;
    var i :| 0 <= i < |outs| && outs[i] == top;
    var j :| 0 <= j < |outs| && outs[j].Rank() == o.Rank();
    assert outs[j] in outs;
  }

  /** A protocol's outcome that nothing outranks stays the verdict. */
  lemma {:induction false} StaysOnTop(acc: Outcome, rest: seq<Outcome>)
    requires acc.Protocol() && forall x :: x in rest ==> x.Rank() <= acc.Rank()
    ensures FoldFrom(acc, rest).0 == acc
    decreases |rest|
  {
    if rest != [] {
      assert rest[0] in rest;
      StaysOnTop(acc, rest[1..]);
    }
  }

  lemma BringToFront(outs: seq<Outcome>, x: Outcome) returns (rest: seq<Outcome>)
    requires x in outs
    ensures SameHandlers([x] + rest, outs)
    ensures forall y :: y in outs && y != x ==> y in rest
    ensures forall y :: y in rest ==> y in outs
  {
    var i :| 0 <= i < |outs| && outs[i] == x;
    rest := outs[..i] + outs[i + 1..];
    assert outs == outs[..i] + [x] + outs[i + 1..];
  }

  /** The name a verdict takes can be any protocol's, given a relay at the top to take it over from. */
  lemma RelayTakesAnyName(outs: seq<Outcome>, top: Outcome, y: Outcome) returns (p: seq<Outcome>)
    requires IsTop(outs, top) && top.Relay() && y in outs && y.Protocol()
    ensures SameHandlers(p, outs) && Folded(p).0 == Some(top.WithType(y.kind))
  {
    var rest := BringToFront(outs, top);
    var others := BringToFront(rest, y);
    p := [top, y] + others;
    assert p == [top] + ([y] + others);
    assert multiset([y] + others) == multiset(rest);
    assert multiset(p) == multiset([top]) + multiset([y] + others);
    assert p[1..] == [y] + others && p[1..][1..] == others;
    StaysOnTop(top.WithType(y.kind), others);
  }

  lemma FirstAtTheTopWins(outs: seq<Outcome>, top: Outcome) returns (p: seq<Outcome>)
    requires IsTop(outs, top) && top.Protocol()
    ensures SameHandlers(p, outs) && Folded(p).0 == Some(top)
  {
    var rest := BringToFront(outs, top);
    p := [top] + rest;
    assert p[1..] == rest;
    StaysOnTop(top, rest);
  }

  lemma AmbiguityShows(outs: seq<Outcome>) returns (p: seq<Outcome>, q: seq<Outcome>)
    requires !Unambiguous(outs)
    ensures SameHandlers(p, outs) && SameHandlers(q, outs) && Folded(p).0 != Folded(q).0
  {
    var i, j :| 0 <= i < |outs| && 0 <= j < |outs| && outs[i].Protocol() && outs[j].Protocol() && outs[i].kind != outs[j].kind;
    var top := SomeTop(outs);
    if relay :| IsTop(outs, relay) && relay.Relay() {
      p := RelayTakesAnyName(outs, relay, outs[i]);
      q := RelayTakesAnyName(outs, relay, outs[j]);
    } else {
      assert top.Rank() >= outs[i].Rank() > 0;
      assert top.Protocol() && !OnlyAtTheTop(outs, top.kind);
      var other :| IsTop(outs, other) && !(other.Protocol() && other.kind == top.kind);
      p := FirstAtTheTopWins(outs, top);
      q := FirstAtTheTopWins(outs, other);
    }
  }

  lemma {:induction false} SomeTop(outs: seq<Outcome>) returns (top: Outcome)
    requires outs != []
    ensures IsTop(outs, top)
  {
    if |outs| == 1 {
      top := outs[0];
    } else {
      top := SomeTop(outs[1..]);
      top := if outs[0].Rank() > top.Rank() then outs[0] else top;
    }
  }

  /** The verdict is the same for every order of the handlers exactly when it is unambiguous. */
  lemma OrderIndependentExactly(outs: seq<Outcome>)
    ensures (forall p :: SameHandlers(p, outs) ==> Folded(p).0 == Folded(outs).0) <==> Unambiguous(outs)
  {
    if Unambiguous(outs) {
      forall p | SameHandlers(p, outs)
        ensures Folded(p).0 == Folded(outs).0
      {
        OrderDoesNotMatter(p, outs);
      }
    } else {
      var p, q := AmbiguityShows(outs);
    }
  }

  /** Two handlers are enough: whichever protocol reports first names the packet. */
  lemma TwoProtocolsShowOrder()
    ensures var a, b := Reflected(MdnsQuery), Reflected(SsdpSearch);
            && !Unambiguous([a, b]) && SameHandlers([a, b], [b, a])
            && Folded([a, b]).0 == Some(a) && Folded([b, a]).0 == Some(b)
  {
    var a, b := Reflected(MdnsQuery), Reflected(SsdpSearch);
    assert [a, b][1..] == [b] && [b, a][1..] == [a];
    assert FoldFrom(a, [b]).0 == FoldFrom(a, [b][1..]).0 && FoldFrom(b, [a]).0 == FoldFrom(b, [a][1..]).0;
    assert SameHandlers([b, a], [a, b]);
    OrderIndependentExactly([a, b]);
  }

  lemma OrderDoesNotMatter(p: seq<Outcome>, outs: seq<Outcome>)
    requires SameHandlers(p, outs) && Unambiguous(outs)
    ensures Folded(p).0 == Folded(outs).0
  {
    SameMembers(p, outs);
    assert |multiset(p)| == |p| && |multiset(outs)| == |outs|;
    if outs != [] {
      FoldedIsTheVerdict(p);
      FoldedIsTheVerdict(outs);
      if Disagree(outs) {
        var t :| OnlyAtTheTop(outs, t);
        var top := SomeTop(outs);
        assert forall x :: IsTop(p, x) <==> IsTop(outs, x);
        OnlyTopFixesTheVerdict(outs, t, top);
        OnlyTopFixesTheVerdict(p, t, top);
      } else {
        AgreementFixesTheVerdict(outs, p, Folded(outs).0.value, Folded(p).0.value);
      }
    }
  }

  /** The mismatch is flagged in every order or in none. */
  lemma FlagDoesNotDependOnOrder(p: seq<Outcome>, outs: seq<Outcome>)
    requires SameHandlers(p, outs)
    ensures Folded(p).1 == Folded(outs).1
  {
    FoldedIsTheVerdict(p);
    FoldedIsTheVerdict(outs);
    DisagreeByMembers(p);
    DisagreeByMembers(outs);
    SameMembers(p, outs);
  }

  lemma DisagreeByMembers(outs: seq<Outcome>)
    ensures Disagree(outs) <==>
              exists x, y :: x in outs && y in outs && x.Protocol() && y.Protocol() && x.kind != y.kind
  {
    if x, y :| x in outs && y in outs && x.Protocol() && y.Protocol() && x.kind != y.kind {
      var i :| 0 <= i < |outs| && outs[i] == x;
      var j :| 0 <= j < |outs| && outs[j] == y;
      assert outs[i].kind != outs[j].kind;
    }
  }
}
