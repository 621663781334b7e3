/**
 What one datagram's fragments mean, without a buffer: the list of fragments accepted so far. The
 overlap and end rules are stated on byte ranges; the bitmap of src/dispatch/reassembly.rs is
 proved to decide exactly these (module Slots).
 */
module Fragments {
  import opened Wrappers
  import opened Primitives

  const FRAGMENT_UNIT: nat := 8
  const MAX_DATAGRAM_LEN: nat := 9000
  const UDP_HEADER_SIZE: nat := 8

  datatype FragmentHeader = FragmentHeader(
    source: nat, dest: nat, id: nat, offset: nat, more: bool,
    ttl: nat, dstMac: Option<nat>, srcMac: Option<nat>)

  /** The parser takes the offset field in units of 8 bytes, so an offset is always aligned. */
  type Fragment = f: RawFragment | f.header.offset % FRAGMENT_UNIT == 0
    witness RawFragment(FragmentHeader(0, 0, 0, 0, false, 0, None, None), [])

  datatype RawFragment = RawFragment(header: FragmentHeader, data: seq<Byte>) {
    function End(): nat { header.offset + |data| }

    predicate Covers(i: int) { header.offset <= i < End() }

    /** A fragment at offset 0 without a UDP header's worth of bytes, or one before the last that ends inside a unit. */
    predicate Malformed() {
      || (header.more && |data| % FRAGMENT_UNIT != 0)
      || (header.offset == 0 && |data| < UDP_HEADER_SIZE)
    }
  }

  datatype Loss = TooLarge(end: nat) | Inconsistent | Malformed | Expired | Evicted

  predicate Overlap(p: RawFragment, f: RawFragment) {
    p.header.offset < f.End() && f.header.offset < p.End() && p.data != [] && f.data != []
  }

  /**
   `f`, arriving after `p` was accepted, contradicts it: they overlap, or `f` runs past or ends
   away from the end `p` gave, or `f` gives an end that `p` already runs past.
   */
  predicate Clash(p: RawFragment, f: RawFragment) {
    || Overlap(p, f)
    || (!p.header.more && if f.header.more then f.End() > p.End() else f.End() != p.End())
    || (!f.header.more && p.data != [] && p.End() > f.End())
  }

  ghost predicate Clashes(ps: seq<Fragment>, f: Fragment) {
    exists i :: 0 <= i < |ps| && Clash(ps[i], f)
  }

  /** One datagram's next fragment: the list with it accepted, or why the datagram is given up. */
  ghost function Accept(ps: seq<Fragment>, f: Fragment): Result<seq<Fragment>, Loss> {
    if f.Malformed() then Failure(Malformed)
    else if f.End() > MAX_DATAGRAM_LEN then Failure(TooLarge(f.End()))
    else if Clashes(ps, f) then Failure(Inconsistent)
    else Success(ps + [f])
  }

  predicate Sound(f: RawFragment) {
    f.header.offset % FRAGMENT_UNIT == 0 && !f.Malformed() && f.End() <= MAX_DATAGRAM_LEN
  }

  /** What every list of accepted fragments satisfies. */
  ghost predicate Agree(ps: seq<Fragment>) {
    && (forall i :: 0 <= i < |ps| ==> Sound(ps[i]))
    && (forall i, j :: 0 <= i < j < |ps| ==> !Clash(ps[i], ps[j]))
  }

  /** The datagram's length, once a fragment without a successor gave it. */
  function LengthOf(ps: seq<Fragment>): Option<nat> {
    if ps == [] then None
    else if !ps[|ps| - 1].header.more then Some(ps[|ps| - 1].End())
    else LengthOf(ps[..|ps| - 1])
  }

  function FirstOf(ps: seq<Fragment>): Option<FragmentHeader> {
    if ps == [] then None
    else if ps[|ps| - 1].header.offset == 0 then Some(ps[|ps| - 1].header)
    else FirstOf(ps[..|ps| - 1])
  }

  ghost predicate Covered(ps: seq<Fragment>, i: int) {
    exists j :: 0 <= j < |ps| && ps[j].Covers(i)
  }

  ghost predicate Complete(ps: seq<Fragment>) {
    && FirstOf(ps).Some?
    && LengthOf(ps).Some?
    && forall i :: 0 <= i < LengthOf(ps).value ==> Covered(ps, i)
  }

  /** The byte the fragments put at `i`; the last to cover it, though none ever overlaps. */
  function ByteAt(ps: seq<Fragment>, i: nat): Byte {
    if ps == [] then 0
    else
      var p := ps[|ps| - 1];
      if p.Covers(i) then p.data[i - p.header.offset] else ByteAt(ps[..|ps| - 1], i)
  }

  datatype Whole = Whole(first: FragmentHeader, bytes: seq<Byte>)

  ghost function Assemble(ps: seq<Fragment>): Whole
    requires Complete(ps)
  {
    Whole(FirstOf(ps).value, seq(LengthOf(ps).value, i requires 0 <= i => ByteAt(ps, i)))
  }

  // ----- The datagram is exactly its fragments

  lemma {:induction false} ByteAtIsThePiece(ps: seq<Fragment>, j: nat, i: nat)
    requires Agree(ps) && j < |ps| && ps[j].Covers(i)
    ensures ByteAt(ps, i) == ps[j].data[i - ps[j].header.offset]
  {
    var n := |ps| - 1;
    if j < n {
      assert !Clash(ps[j], ps[n]);
      assert ps[..n][j] == ps[j];
      ByteAtIsThePiece(ps[..n], j, i);
    }
  }

  lemma {:induction false} LengthIsAnEnd(ps: seq<Fragment>)
    ensures LengthOf(ps).Some? <==> exists j :: 0 <= j < |ps| && !ps[j].header.more
    ensures Agree(ps) ==> forall j :: 0 <= j < |ps| && !ps[j].header.more ==> LengthOf(ps) == Some(ps[j].End())
  {
    if ps != [] {
      var n := |ps| - 1;
      var q := ps[..n];
      LengthIsAnEnd(q);
      assert forall j :: 0 <= j < n ==> q[j] == ps[j];
      if ps[n].header.more && (exists j :: 0 <= j < |ps| && !ps[j].header.more) {
        var j :| 0 <= j < |ps| && !ps[j].header.more;
        assert !q[j].header.more;
      }
      if Agree(ps) {
        assert Agree(q);
        forall j | 0 <= j < |ps| && !ps[j].header.more
          ensures LengthOf(ps) == Some(ps[j].End())
        {
          if j < n {
            assert !Clash(ps[j], ps[n]);
            assert !q[j].header.more;
          }
        }
      }
    }
  }

  lemma {:induction false} FirstIsAtZero(ps: seq<Fragment>)
    ensures FirstOf(ps).Some? <==> exists j :: 0 <= j < |ps| && ps[j].header.offset == 0
    ensures FirstOf(ps).Some? ==> exists j :: 0 <= j < |ps| && ps[j].header == FirstOf(ps).value && ps[j].header.offset == 0
  {
    if ps != [] {
      var n := |ps| - 1;
      var q := ps[..n];
      FirstIsAtZero(q);
      assert forall j :: 0 <= j < n ==> q[j] == ps[j];
      if ps[n].header.offset != 0 && (exists j :: 0 <= j < |ps| && ps[j].header.offset == 0) {
        var j :| 0 <= j < |ps| && ps[j].header.offset == 0;
        assert q[j].header.offset == 0;
      }
      if FirstOf(ps).Some? && ps[n].header.offset != 0 {
        var j :| 0 <= j < |q| && q[j].header == FirstOf(q).value && q[j].header.offset == 0;
        assert ps[j].header == FirstOf(ps).value;
      }
    }
  }

  /** No accepted fragment with data runs past the length. */
  lemma NothingPastTheEnd(ps: seq<Fragment>, j: nat)
    requires Agree(ps) && j < |ps| && LengthOf(ps).Some? && ps[j].data != []
    ensures ps[j].End() <= LengthOf(ps).value
  {
    LengthIsAnEnd(ps);
    var l :| 0 <= l < |ps| && !ps[l].header.more;
    if l < j {
      assert !Clash(ps[l], ps[j]);
    } else if j < l {
      assert !Clash(ps[j], ps[l]);
    }
  }

  /**
   The fragments tile the datagram: they lie inside it, each byte is covered by exactly one of
   them, and each fragment's data stands at its offset.
   */
  ghost predicate Tiles(ps: seq<Fragment>, bytes: seq<Byte>) {
    && (forall j :: 0 <= j < |ps| && ps[j].data != [] ==>
          ps[j].End() <= |bytes| && bytes[ps[j].header.offset..ps[j].End()] == ps[j].data)
    && (forall i :: 0 <= i < |bytes| ==> Covered(ps, i))
    && (forall j, l, i :: 0 <= j < l < |ps| && ps[j].Covers(i) ==> !ps[l].Covers(i))
  }

  lemma AssembledIsTiled(ps: seq<Fragment>)
    requires Agree(ps) && Complete(ps)
    ensures Tiles(ps, Assemble(ps).bytes)
    ensures UDP_HEADER_SIZE <= |Assemble(ps).bytes| <= MAX_DATAGRAM_LEN
    ensures exists j :: 0 <= j < |ps| && ps[j].header == Assemble(ps).first && ps[j].header.offset == 0
  {
    var bytes := Assemble(ps).bytes;
    forall j | 0 <= j < |ps| && ps[j].data != []
      ensures ps[j].End() <= |bytes| && bytes[ps[j].header.offset..ps[j].End()] == ps[j].data
    {
      NothingPastTheEnd(ps, j);
      forall i | ps[j].Covers(i)
        ensures bytes[i] == ps[j].data[i - ps[j].header.offset]
      {
        ByteAtIsThePiece(ps, j, i);
      }
    }
    forall j, l, i | 0 <= j < l < |ps| && ps[j].Covers(i)
      ensures !ps[l].Covers(i)
    {
      assert !Clash(ps[j], ps[l]);
    }
    FirstIsAtZero(ps);
    LengthIsAnEnd(ps);
  }

  lemma TilingReaches(ps: seq<Fragment>, a: seq<Byte>, b: seq<Byte>)
    requires Tiles(ps, a) && Tiles(ps, b)
    ensures |a| <= |b|
  {
    if a != [] {
      assert Covered(ps, |a| - 1);
      var j :| 0 <= j < |ps| && ps[j].Covers(|a| - 1);
    }
  }

  /** At most one byte string is tiled by given fragments. */
  lemma TilingIsUnique(ps: seq<Fragment>, a: seq<Byte>, b: seq<Byte>)
    requires Tiles(ps, a) && Tiles(ps, b)
    ensures a == b
  {
    TilingReaches(ps, a, b);
    TilingReaches(ps, b, a);
    forall i | 0 <= i < |a|
      ensures a[i] == b[i]
    {
      assert Covered(ps, i);
      var j :| 0 <= j < |ps| && ps[j].Covers(i);
      assert a[i] == a[ps[j].header.offset..ps[j].End()][i - ps[j].header.offset];
      assert b[i] == b[ps[j].header.offset..ps[j].End()][i - ps[j].header.offset];
    }
  }

  lemma AcceptKeepsAgreement(ps: seq<Fragment>, f: Fragment)
    requires Agree(ps) && Accept(ps, f).Success?
    ensures Agree(Accept(ps, f).value)
  {
    var r := Accept(ps, f).value;
    forall i, j | 0 <= i < j < |r|
      ensures !Clash(r[i], r[j])
    {
      if j < |ps| {
        assert !Clash(ps[i], ps[j]);
      } else {
        assert !Clash(ps[i], f);
      }
    }
  }

  // ----- What is refused could be part of no datagram

  /** `f`'s bytes stand in `d` at its offset, and the last fragment ends it. */
  predicate LiesIn(f: RawFragment, d: seq<Byte>) {
    f.End() <= |d| && d[f.header.offset..f.End()] == f.data && (!f.header.more ==> f.End() == |d|)
  }

  /** Some datagram holds all the fragments, no byte of it in two of them. */
  ghost predicate OfOneDatagram(ps: seq<Fragment>) {
    && (forall j, l, i :: 0 <= j < l < |ps| && ps[j].Covers(i) ==> !ps[l].Covers(i))
    && exists d: seq<Byte> :: |d| <= 9000 && forall j :: 0 <= j < |ps| ==> LiesIn(ps[j], d)
  }

  lemma AgreeingLieApart(ps: seq<Fragment>, j: nat, l: nat, i: nat)
    requires Agree(ps) && j < l < |ps| && ps[j].Covers(i)
    ensures !ps[l].Covers(i)
  {
    assert !Clash(ps[j], ps[l]);
  }

  lemma LiesInWhatItPuts(ps: seq<Fragment>, d: seq<Byte>, j: nat)
    requires Agree(ps) && j < |ps| && ps[j].End() <= |d| && (!ps[j].header.more ==> ps[j].End() == |d|)
    requires forall i :: 0 <= i < |d| ==> d[i] == ByteAt(ps, i)
    ensures LiesIn(ps[j], d)
  {
    hide ByteAt, Agree;
    var f := ps[j];
    var there := d[f.header.offset..f.End()];
    forall k | 0 <= k < |f.data|
      ensures there[k] == f.data[k]
    {
      ByteAtIsThePiece(ps, j, f.header.offset + k);
    }
    assert there == f.data;
  }

  /** The length the fragments give, or the most there can be. */
  function Room(ps: seq<Fragment>): nat {
    if LengthOf(ps).Some? then LengthOf(ps).value else MAX_DATAGRAM_LEN
  }

  lemma EndsInRoom(ps: seq<Fragment>, j: nat)
    requires Agree(ps) && j < |ps| && ps[j].data != []
    ensures ps[j].End() <= Room(ps) <= MAX_DATAGRAM_LEN && (!ps[j].header.more ==> ps[j].End() == Room(ps))
  {
    LengthIsAnEnd(ps);
    hide LengthOf, Clash;
    if LengthOf(ps).Some? {
      NothingPastTheEnd(ps, j);
      var l :| 0 <= l < |ps| && !ps[l].header.more;
      assert Sound(ps[l]);
    } else {
      assert Sound(ps[j]);
    }
  }

  lemma AgreeingLieInOne(ps: seq<Fragment>)
    requires Agree(ps) && ps != [] && forall j :: 0 <= j < |ps| ==> ps[j].data != []
    ensures OfOneDatagram(ps)
  {
    hide Agree, Room, ByteAt, LiesIn;
    EndsInRoom(ps, 0);
    var d := seq(Room(ps), i requires 0 <= i => ByteAt(ps, i));
    forall j | 0 <= j < |ps|
      ensures LiesIn(ps[j], d)
    {
      EndsInRoom(ps, j);
      LiesInWhatItPuts(ps, d, j);
    }
    assert |d| <= 9000;
    forall j, l, i | 0 <= j < l < |ps| && ps[j].Covers(i)
      ensures !ps[l].Covers(i)
    {
      AgreeingLieApart(ps, j, l, i);
    }
  }

  lemma OneDatagramHasNoClash(ps: seq<Fragment>, j: nat, l: nat)
    requires OfOneDatagram(ps) && j < l < |ps|
    ensures !Clash(ps[j], ps[l])
  {
    var d: seq<Byte> :| |d| <= 9000 && forall j :: 0 <= j < |ps| ==> LiesIn(ps[j], d);
    assert LiesIn(ps[j], d) && LiesIn(ps[l], d);
    if Overlap(ps[j], ps[l]) {
      var i := if ps[j].header.offset < ps[l].header.offset then ps[l].header.offset else ps[j].header.offset;
      assert ps[j].Covers(i) && ps[l].Covers(i);
    }
  }

  /**
   A fragment with data is accepted exactly when it is whole units unless it is the last, holds a
   UDP header if it is the first, and some datagram of at most 9000 bytes is made of it and all
   that was accepted before.
   */
  lemma AcceptedExactly(ps: seq<Fragment>, f: Fragment)
    requires Agree(ps) && f.data != [] && forall j :: 0 <= j < |ps| ==> ps[j].data != []
    ensures Accept(ps, f).Success? <==>
            && (f.header.more ==> |f.data| % 8 == 0)
            && (f.header.offset == 0 ==> |f.data| >= 8)
            && OfOneDatagram(ps + [f])
    ensures Accept(ps, f).Failure? ==>
              match Accept(ps, f).error
              case Malformed => (f.header.more && |f.data| % 8 != 0) || (f.header.offset == 0 && |f.data| < 8)
              case TooLarge(end) => end == f.header.offset + |f.data| > 9000
              case Inconsistent => !OfOneDatagram(ps + [f])
              case _ => false
  {
    var qs := ps + [f];
    if Accept(ps, f).Success? {
      AcceptKeepsAgreement(ps, f);
      AgreeingLieInOne(qs);
    }
    if OfOneDatagram(qs) {
      var d: seq<Byte> :| |d| <= 9000 && forall j :: 0 <= j < |qs| ==> LiesIn(qs[j], d);
      assert LiesIn(qs[|ps|], d);
      forall i | 0 <= i < |ps|
        ensures !Clash(ps[i], f)
      {
        OneDatagramHasNoClash(qs, i, |ps|);
      }
    }
  }

  // ----- Every arrangement of a tiling is accepted and completes on its last piece

  /** `f` carries the bytes of `d` from its offset on, and says whether they are the last. */
  predicate PieceOf(f: RawFragment, d: seq<Byte>) {
    && f.data != []
    && f.header.offset % FRAGMENT_UNIT == 0
    && f.End() <= |d|
    && d[f.header.offset..f.End()] == f.data
    && f.header.more == (f.End() < |d|)
  }

  /** `ps`, in any order, cut `d` into pieces, the first long enough for the UDP header. */
  ghost predicate Cut(ps: seq<Fragment>, d: seq<Byte>) {
    && 0 < |d| <= MAX_DATAGRAM_LEN
    && (forall j :: 0 <= j < |ps| ==> PieceOf(ps[j], d))
    && (forall j :: 0 <= j < |ps| && ps[j].header.offset == 0 ==> |ps[j].data| >= UDP_HEADER_SIZE)
    && Tiles(ps, d)
  }

  /** A piece that is not the last is followed by one, so it is a whole number of units long. */
  lemma CutPiecesAreSound(ps: seq<Fragment>, d: seq<Byte>, j: nat)
    requires Cut(ps, d) && j < |ps|
    ensures Sound(ps[j])
  {
    var p := ps[j];
    assert PieceOf(p, d);
    if p.header.more {
      var e := p.End();
      assert Covered(ps, e);
      var l :| 0 <= l < |ps| && ps[l].Covers(e);
      assert p.Covers(e - 1);
      assert !ps[l].Covers(e - 1);
      assert ps[l].header.offset == e;
      assert PieceOf(ps[l], d);
    }
  }

  lemma CutPiecesDoNotClash(ps: seq<Fragment>, d: seq<Byte>, j: nat, l: nat)
    requires Cut(ps, d) && j < l < |ps|
    ensures !Clash(ps[j], ps[l])
  {
    assert PieceOf(ps[j], d) && PieceOf(ps[l], d);
    if Overlap(ps[j], ps[l]) {
      var i := if ps[j].header.offset < ps[l].header.offset then ps[l].header.offset else ps[j].header.offset;
      assert ps[j].Covers(i) && ps[l].Covers(i);
    }
  }

  lemma CutAgrees(ps: seq<Fragment>, d: seq<Byte>, n: nat)
    requires Cut(ps, d) && n <= |ps|
    ensures Agree(ps[..n])
  {
    forall i | 0 <= i < n
      ensures Sound(ps[..n][i])
    {
      CutPiecesAreSound(ps, d, i);
    }
    forall i, j | 0 <= i < j < n
      ensures !Clash(ps[..n][i], ps[..n][j])
    {
      CutPiecesDoNotClash(ps, d, i, j);
    }
  }

  lemma NextPieceIsAccepted(ps: seq<Fragment>, d: seq<Byte>, n: nat)
    requires Cut(ps, d) && n < |ps|
    ensures Accept(ps[..n], ps[n]) == Success(ps[..n + 1])
  {
    CutPiecesAreSound(ps, d, n);
    if Clashes(ps[..n], ps[n]) {
      var i :| 0 <= i < n && Clash(ps[..n][i], ps[n]);
      CutPiecesDoNotClash(ps, d, i, n);
    }
    assert ps[..n] + [ps[n]] == ps[..n + 1];
  }

  lemma MissingPieceLeavesAGap(ps: seq<Fragment>, d: seq<Byte>, n: nat)
    requires Cut(ps, d) && n < |ps|
    ensures !Covered(ps[..n], ps[n].header.offset)
  {
    var i, q := ps[n].header.offset, ps[..n];
    assert PieceOf(ps[n], d);
    assert ps[n].Covers(i);
    assert forall j :: 0 <= j < n ==> q[j] == ps[j];
  }

  lemma IncompleteBeforeTheLast(ps: seq<Fragment>, d: seq<Byte>, n: nat)
    requires Cut(ps, d) && n < |ps|
    ensures !Complete(ps[..n])
  {
    var q := ps[..n];
    CutAgrees(ps, d, n);
    LengthIsAnEnd(q);
    MissingPieceLeavesAGap(ps, d, n);
    assert PieceOf(ps[n], d);
    if LengthOf(q).Some? {
      var l :| 0 <= l < |q| && !q[l].header.more;
      assert PieceOf(ps[l], d);
    }
  }

  lemma CompleteOnTheLast(ps: seq<Fragment>, d: seq<Byte>)
    requires Cut(ps, d)
    ensures Complete(ps) && Assemble(ps).bytes == d
  {
    CutAgrees(ps, d, |ps|);
    assert ps[..|ps|] == ps;
    LengthIsAnEnd(ps);
    FirstIsAtZero(ps);
    assert Covered(ps, 0) && Covered(ps, |d| - 1);
    var z :| 0 <= z < |ps| && ps[z].Covers(0);
    var l :| 0 <= l < |ps| && ps[l].Covers(|d| - 1);
    assert PieceOf(ps[z], d) && PieceOf(ps[l], d);
    assert LengthOf(ps) == Some(|d|);
    AssembledIsTiled(ps);
    TilingIsUnique(ps, Assemble(ps).bytes, d);
  }
}
