/**
 One datagram's slot: the byte buffer, the bitmap of 8-byte units, the length and the first
 header, updated in place. Every method is proved against the list of accepted fragments, so a
 byte the buffer kept from an earlier datagram is never part of a finished one.
 */
module Slots {
  import opened Wrappers
  import opened Primitives
  import opened Fragments

  const BLOCKS: nat := DivCeil(MAX_DATAGRAM_LEN)

  function DivCeil(n: nat): nat { (n + FRAGMENT_UNIT - 1) / FRAGMENT_UNIT }

  /**
   A unit is marked exactly when an accepted fragment covers its first byte, and every accepted
   fragment's data stands at its offset. Nothing is said of a byte no fragment covers.
   */
  ghost predicate Mirrors(bytes: seq<Byte>, received: seq<bool>, ps: seq<Fragment>) {
    && |bytes| == MAX_DATAGRAM_LEN
    && |received| == BLOCKS
    && (forall b :: 0 <= b < BLOCKS ==> (received[b] <==> Covered(ps, FRAGMENT_UNIT * b)))
    && (forall j :: 0 <= j < |ps| ==>
          ps[j].End() <= MAX_DATAGRAM_LEN && bytes[ps[j].header.offset..ps[j].End()] == ps[j].data)
  }

  ghost predicate AnyIn(received: seq<bool>, lo: int, hi: int) {
    exists b :: 0 <= lo <= b < hi <= |received| && received[b]
  }

  function FirstBlock(f: Fragment): nat { f.header.offset / FRAGMENT_UNIT }

  function PastBlock(f: Fragment): nat { DivCeil(f.End()) }

  /** The bitmap's own test for an inconsistent fragment. */
  ghost predicate BitmapRefuses(received: seq<bool>, len: Option<nat>, f: Fragment) {
    || (match len
        case Some(l) => if f.header.more then f.End() > l else f.End() != l
        case None => !f.header.more && AnyIn(received, PastBlock(f), |received|))
    || AnyIn(received, FirstBlock(f), PastBlock(f))
  }

  /** Aligned fragments that share a unit share its first byte. */
  lemma SharedUnitIsOverlap(p: Fragment, f: Fragment, b: nat)
    requires Sound(p) && Sound(f)
    requires FirstBlock(f) <= b < PastBlock(f) && p.Covers(FRAGMENT_UNIT * b)
    ensures Overlap(p, f)
  {
  }

  lemma OverlapSharesAUnit(p: Fragment, f: Fragment) returns (b: nat)
    requires Sound(p) && Sound(f) && Overlap(p, f)
    ensures FirstBlock(f) <= b < PastBlock(f) && p.Covers(FRAGMENT_UNIT * b)
  {
    b := if p.header.offset < f.header.offset then FirstBlock(f) else FirstBlock(p);
  }

  lemma TouchedIffOverlap(bytes: seq<Byte>, received: seq<bool>, ps: seq<Fragment>, f: Fragment)
    requires Agree(ps) && Mirrors(bytes, received, ps) && Sound(f)
    ensures AnyIn(received, FirstBlock(f), PastBlock(f)) <==> exists j :: 0 <= j < |ps| && Overlap(ps[j], f)
  {
    if AnyIn(received, FirstBlock(f), PastBlock(f)) {
      var b :| FirstBlock(f) <= b < PastBlock(f) && received[b];
      var j :| 0 <= j < |ps| && ps[j].Covers(FRAGMENT_UNIT * b);
      SharedUnitIsOverlap(ps[j], f, b);
    }
    if j :| 0 <= j < |ps| && Overlap(ps[j], f) {
      var b := OverlapSharesAUnit(ps[j], f);
      assert received[b];
    }
  }

  /** Without a known end, a unit past the last fragment means data past it or an overlap. */
  lemma PastIffRunsPast(bytes: seq<Byte>, received: seq<bool>, ps: seq<Fragment>, f: Fragment)
    requires Agree(ps) && Mirrors(bytes, received, ps) && Sound(f)
    ensures AnyIn(received, PastBlock(f), BLOCKS) ==>
              exists j :: 0 <= j < |ps| && ps[j].data != [] && ps[j].End() > f.End()
    ensures (exists j :: 0 <= j < |ps| && ps[j].data != [] && ps[j].End() > f.End()) ==>
              AnyIn(received, PastBlock(f), BLOCKS) || exists j :: 0 <= j < |ps| && Overlap(ps[j], f)
  {
    if AnyIn(received, PastBlock(f), BLOCKS) {
      var b :| PastBlock(f) <= b < BLOCKS && received[b];
      var j :| 0 <= j < |ps| && ps[j].Covers(FRAGMENT_UNIT * b);
      assert ps[j].data != [] && ps[j].End() > f.End();
    }
    if j :| 0 <= j < |ps| && ps[j].data != [] && ps[j].End() > f.End() {
      var b := LastUnit(ps[j], f);
      if PastBlock(f) <= b {
        assert received[b];
      }
    }
  }

  /** The last unit of a fragment that runs past another is past it, or they share a byte. */
  lemma LastUnit(p: Fragment, f: Fragment) returns (b: nat)
    requires Sound(p) && Sound(f) && p.data != [] && p.End() > f.End()
    ensures b < BLOCKS && p.Covers(FRAGMENT_UNIT * b)
    ensures b < PastBlock(f) ==> Overlap(p, f)
  {
    b := DivCeil(p.End()) - 1;
  }

  lemma BitmapDecidesClash(bytes: seq<Byte>, received: seq<bool>, ps: seq<Fragment>, f: Fragment)
    requires Agree(ps) && Mirrors(bytes, received, ps) && Sound(f)
    ensures BitmapRefuses(received, LengthOf(ps), f) <==> Clashes(ps, f)
  {
    TouchedIffOverlap(bytes, received, ps, f);
    PastIffRunsPast(bytes, received, ps, f);
    LengthIsAnEnd(ps);
    match LengthOf(ps)
    case Some(l) =>
      var e :| 0 <= e < |ps| && !ps[e].header.more;
      if BitmapRefuses(received, LengthOf(ps), f) && !AnyIn(received, FirstBlock(f), PastBlock(f)) {
        assert Clash(ps[e], f);
      }
      if Clashes(ps, f) && !Clash(ps[e], f) {
        var j :| 0 <= j < |ps| && Clash(ps[j], f);
        if ps[j].data != [] {
          NothingPastTheEnd(ps, j);
        }
        assert Overlap(ps[j], f);
      }
    case None =>
      if BitmapRefuses(received, LengthOf(ps), f) && !AnyIn(received, FirstBlock(f), PastBlock(f)) {
        var j :| 0 <= j < |ps| && ps[j].data != [] && ps[j].End() > f.End();
        assert Clash(ps[j], f);
      }
      if j :| 0 <= j < |ps| && Clash(ps[j], f) {
        assert ps[j].header.more;
      }
  }

  lemma MarkingMirrors(bytes: seq<Byte>, received: seq<bool>, ps: seq<Fragment>, f: Fragment,
                       bytes': seq<Byte>, received': seq<bool>)
    requires Agree(ps) && Mirrors(bytes, received, ps) && Sound(f) && !Clashes(ps, f)
    requires |bytes'| == |bytes| && |received'| == |received|
    requires forall i :: 0 <= i < |bytes| ==>
               bytes'[i] == if f.Covers(i) then f.data[i - f.header.offset] else bytes[i]
    requires forall b :: 0 <= b < |received| ==>
               received'[b] == (received[b] || FirstBlock(f) <= b < PastBlock(f))
    ensures Mirrors(bytes', received', ps + [f])
  {
    var q := ps + [f];
    assert q[|ps|] == f && forall j :: 0 <= j < |ps| ==> q[j] == ps[j];
    forall b | 0 <= b < BLOCKS
      ensures received'[b] <==> Covered(q, FRAGMENT_UNIT * b)
    {
      var i := FRAGMENT_UNIT * b;
      assert f.Covers(i) <==> FirstBlock(f) <= b < PastBlock(f);
      if Covered(ps, i) {
        var j :| 0 <= j < |ps| && ps[j].Covers(i);
        assert q[j].Covers(i);
      }
      if f.Covers(i) {
        assert q[|ps|].Covers(i);
      }
    }
    forall j | 0 <= j < |q|
      ensures bytes'[q[j].header.offset..q[j].End()] == q[j].data
    {
      if j < |ps| {
        assert !Clash(ps[j], f);
        assert bytes[ps[j].header.offset..ps[j].End()] == ps[j].data;
        assert forall i :: ps[j].Covers(i) ==> bytes'[i] == bytes[i];
      }
    }
  }

  lemma SummaryAfter(ps: seq<Fragment>, f: Fragment)
    requires Agree(ps) && Sound(f) && !Clashes(ps, f)
    ensures Agree(ps + [f])
    ensures LengthOf(ps + [f]) == if f.header.more then LengthOf(ps) else Some(f.End())
    ensures FirstOf(ps + [f]) == if f.header.offset == 0 then Some(f.header) else FirstOf(ps)
  {
    AcceptKeepsAgreement(ps, f);
    assert (ps + [f])[..|ps|] == ps;
  }

  /** A fragment that covers a unit's first byte covers the unit up to the datagram's end. */
  lemma CoversTheUnit(p: Fragment, l: nat, i: nat)
    requires Sound(p) && (!p.header.more ==> p.End() == l)
    requires i < l && p.Covers(FRAGMENT_UNIT * (i / FRAGMENT_UNIT))
    ensures p.Covers(i)
  {
  }

  lemma MarkedIsCovered(bytes: seq<Byte>, received: seq<bool>, ps: seq<Fragment>, i: nat)
    requires Agree(ps) && Mirrors(bytes, received, ps)
    requires LengthOf(ps).Some? && i < LengthOf(ps).value <= MAX_DATAGRAM_LEN
    requires received[i / FRAGMENT_UNIT]
    ensures Covered(ps, i)
  {
    LengthIsAnEnd(ps);
    var b := i / FRAGMENT_UNIT;
    assert Covered(ps, FRAGMENT_UNIT * b);
    var j :| 0 <= j < |ps| && ps[j].Covers(FRAGMENT_UNIT * b);
    CoversTheUnit(ps[j], LengthOf(ps).value, i);
  }

  lemma LengthFits(ps: seq<Fragment>)
    requires Agree(ps) && LengthOf(ps).Some?
    ensures LengthOf(ps).value <= MAX_DATAGRAM_LEN
  {
    LengthIsAnEnd(ps);
  }

  lemma AllMarkedIffCovered(bytes: seq<Byte>, received: seq<bool>, ps: seq<Fragment>)
    requires Agree(ps) && Mirrors(bytes, received, ps) && LengthOf(ps).Some?
    ensures LengthOf(ps).value <= MAX_DATAGRAM_LEN
    ensures (forall b :: 0 <= b < DivCeil(LengthOf(ps).value) ==> received[b])
            <==> (forall i :: 0 <= i < LengthOf(ps).value ==> Covered(ps, i))
  {
    var l := LengthOf(ps).value;
    LengthFits(ps);
    if forall b :: 0 <= b < DivCeil(l) ==> received[b] {
      forall i | 0 <= i < l
        ensures Covered(ps, i)
      {
        assert i / FRAGMENT_UNIT < DivCeil(l);
        MarkedIsCovered(bytes, received, ps, i);
      }
    }
    if forall i :: 0 <= i < l ==> Covered(ps, i) {
      forall b | 0 <= b < DivCeil(l)
        ensures received[b]
      {
        assert Covered(ps, FRAGMENT_UNIT * b);
      }
    }
  }

  lemma BufferHoldsTheDatagram(bytes: seq<Byte>, received: seq<bool>, ps: seq<Fragment>)
    requires Agree(ps) && Mirrors(bytes, received, ps) && Complete(ps)
    ensures LengthOf(ps).value <= |bytes| && bytes[..LengthOf(ps).value] == Assemble(ps).bytes
  {
    hide LengthOf, FirstOf, Agree;
    AssembledIsTiled(ps);
    var l, d := LengthOf(ps).value, Assemble(ps).bytes;
    forall i | 0 <= i < l
      ensures bytes[i] == d[i]
    {
      assert Covered(ps, i);
      var j :| 0 <= j < |ps| && ps[j].Covers(i);
      assert bytes[i] == bytes[ps[j].header.offset..ps[j].End()][i - ps[j].header.offset];
      assert d[i] == d[ps[j].header.offset..ps[j].End()][i - ps[j].header.offset];
    }
  }

  // ----- The slot

  class Buffer {
    const bytes: array<Byte>
    const received: array<bool>

    ghost predicate Sized() {
      bytes.Length == MAX_DATAGRAM_LEN && received.Length == BLOCKS
    }

    constructor ()
      ensures Sized() && fresh(bytes) && fresh(received)
    {
      bytes := new Byte[MAX_DATAGRAM_LEN](_ => 0);
      received := new bool[BLOCKS](_ => false);
    }
  }

  method AnyMarked(received: array<bool>, lo: nat, hi: nat) returns (any: bool)
    requires lo <= hi <= received.Length
    ensures any <==> AnyIn(received[..], lo, hi)
  {
    var b := lo;
    while b < hi && !received[b]
      invariant lo <= b <= hi
      invariant forall c :: lo <= c < b ==> !received[c]
    {
      b := b + 1;
    }
    any := b < hi;
    assert any ==> received[..][b];
  }

  method Fill(received: array<bool>, lo: nat, hi: nat, mark: bool)
    requires lo <= hi <= received.Length
    modifies received
    ensures forall b :: 0 <= b < received.Length ==>
              received[b] == if lo <= b < hi then mark else old(received[b])
  {
    var b := lo;
    while b < hi
      invariant lo <= b <= hi
      invariant forall c :: 0 <= c < received.Length ==>
                  received[c] == if lo <= c < b then mark else old(received[c])
    {
      received[b] := mark;
      b := b + 1;
    }
  }

  method CopyInto(bytes: array<Byte>, offset: nat, data: seq<Byte>)
    requires offset + |data| <= bytes.Length
    modifies bytes
    ensures forall i :: 0 <= i < bytes.Length ==>
              bytes[i] == if offset <= i < offset + |data| then data[i - offset] else old(bytes[i])
  {
    var k := 0;
    while k < |data|
      invariant k <= |data|
      invariant forall i :: 0 <= i < bytes.Length ==>
                  bytes[i] == if offset <= i < offset + k then data[i - offset] else old(bytes[i])
    {
      bytes[offset + k] := data[k];
      k := k + 1;
    }
  }

  /** What a finished slot hands out; the buffer comes back by Recycle. */
  datatype Reassembled = Reassembled(first: FragmentHeader, buf: Buffer, len: nat)

  class Collecting {
    const buf: Buffer
    const started: nat
    var len: Option<nat>
    var first: Option<FragmentHeader>
    ghost var pieces: seq<Fragment>

    ghost predicate Valid()
      reads this, buf.bytes, buf.received
    {
      && buf.Sized()
      && Agree(pieces)
      && Mirrors(buf.bytes[..], buf.received[..], pieces)
      && len == LengthOf(pieces)
      && first == FirstOf(pieces)
    }

    /** The bytes stay as the last datagram left them; only the bitmap is cleared. */
    constructor (buf: Buffer, started: nat)
      requires buf.Sized()
      modifies buf.received
      ensures Valid() && pieces == [] && this.buf == buf && this.started == started
    {
      this.buf, this.started := buf, started;
      len, first, pieces := None, None, [];
      new;
      Fill(buf.received, 0, BLOCKS, false);
    }

    method EndsElsewhere(f: Fragment) returns (r: bool)
      requires Valid() && Sound(f)
      ensures r || AnyIn(buf.received[..], FirstBlock(f), PastBlock(f)) <==> Clashes(pieces, f)
    {
      BitmapDecidesClash(buf.bytes[..], buf.received[..], pieces, f);
      match len
      case Some(l) =>
        r := if f.header.more then f.End() > l else f.End() != l;
      case None =>
        r := false;
        if !f.header.more {
          r := AnyMarked(buf.received, PastBlock(f), BLOCKS);
        }
    }

    method Store(f: Fragment)
      requires Valid() && Sound(f) && !Clashes(pieces, f)
      modifies this, buf.bytes, buf.received
      ensures Valid() && pieces == old(pieces) + [f]
    {
      ghost var bytes, received := buf.bytes[..], buf.received[..];
      CopyInto(buf.bytes, f.header.offset, f.data);
      Fill(buf.received, FirstBlock(f), PastBlock(f), true);
      MarkingMirrors(bytes, received, pieces, f, buf.bytes[..], buf.received[..]);
      SummaryAfter(pieces, f);
      pieces := pieces + [f];
      if !f.header.more {
        len := Some(f.End());
      }
      if f.header.offset == 0 {
        first := Some(f.header);
      }
    }

    /** A refused fragment changes nothing. */
    method Add(f: Fragment) returns (r: Result<(), Loss>)
      requires Valid()
      modifies this, buf.bytes, buf.received
      ensures Valid()
      ensures match Accept(old(pieces), f)
              case Failure(loss) => r == Failure(loss) && pieces == old(pieces) && buf.bytes[..] == old(buf.bytes[..])
              case Success(ps) => r == Success(()) && pieces == ps
    {
      if f.Malformed() {
        return Failure(Malformed);
      }
      if f.End() > MAX_DATAGRAM_LEN {
        return Failure(TooLarge(f.End()));
      }
      var elsewhere := EndsElsewhere(f);
      var touched := AnyMarked(buf.received, FirstBlock(f), PastBlock(f));
      if elsewhere || touched {
        return Failure(Inconsistent);
      }
      Store(f);
      return Success(());
    }

    method IsComplete() returns (r: bool)
      requires Valid()
      ensures r <==> Complete(pieces)
    {
      if first.None? || len.None? {
        return false;
      }
      AllMarkedIffCovered(buf.bytes[..], buf.received[..], pieces);
      var b, past := 0, DivCeil(len.value);
      while b < past && buf.received[b]
        invariant b <= past
        invariant forall c :: 0 <= c < b ==> buf.received[c]
      {
        b := b + 1;
      }
      r := b == past;
      assert !r ==> !buf.received[..][b];
    }

    /** The first `len` bytes of the buffer are the fragments' bytes and nothing else. */
    method Finish() returns (r: Option<Reassembled>)
      requires Valid()
      ensures r.Some? <==> Complete(pieces)
      ensures r.Some? ==>
                && r.value.buf == buf
                && r.value.len <= MAX_DATAGRAM_LEN
                && Whole(r.value.first, buf.bytes[..r.value.len]) == Assemble(pieces)
                && Tiles(pieces, buf.bytes[..r.value.len])
    {
      var complete := IsComplete();
      if !complete {
        return None;
      }
      BufferHoldsTheDatagram(buf.bytes[..], buf.received[..], pieces);
      AssembledIsTiled(pieces);
      assert buf.bytes[..len.value] == buf.bytes[..][..len.value];
      return Some(Reassembled(first.value, buf, len.value));
    }
  }
}
