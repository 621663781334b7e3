/** Walking a batch of BPF records (src/capture/bpf.rs). */
module BpfBatches {
  import opened Wrappers
  import opened Primitives
  import Datagrams

  /** The two systems differ in the timestamp's size and the alignment; both are little-endian. */
  datatype Platform = MacOs | FreeBsd {
    function Word(): nat { if MacOs? then 4 else 8 }
    function CaplenAt(): nat { 2 * Word() }
    function DatalenAt(): nat { CaplenAt() + 4 }
    function HdrlenAt(): nat { CaplenAt() + 8 }

    /** The header's fields end two bytes past `HdrlenAt`; the structure is padded to a word. */
    function HeaderSize(): nat { WordAlign(HdrlenAt() + 2) }

    function WordAlign(n: nat): (r: nat)
      ensures n <= r < n + Word() && r % Word() == 0
    {
      if MacOs? then (n + 3) / 4 * 4 else (n + 7) / 8 * 8
    }
  }

  datatype BatchError = MidHeader | PastEnd | NoAdvance

  datatype Record = FrameAt(start: nat, end: nat) | OversizedOf(datalen: nat)

  function Le16(b: seq<Byte>): nat
    requires |b| == 2
  {
    var low: int, high: int := b[0], b[1];
    low + 0x100 * high
  }

  function Le32(b: seq<Byte>): nat
    requires |b| == 4
  {
    var low, high := Le16(b[..2]), Le16(b[2..]);
    low + 0x1_0000 * high
  }

  /** The record at the front: its frame's range, and how far the next one is. */
  function ParseRecord(p: Platform, b: seq<Byte>): (r: Result<(Record, nat), BatchError>)
    ensures r.Success? ==> 0 < r.value.1 < |b| + p.Word()
    ensures r.Success? && r.value.0.FrameAt? ==>
              r.value.0.start <= r.value.0.end <= |b| && r.value.0.end <= r.value.1 && r.value.0.end - r.value.0.start <= Datagrams.MAX_FRAME_LEN
  {
    if p.HeaderSize() > |b| then Failure(MidHeader)
    else
      var hdrlen := Le16(b[p.HdrlenAt()..p.HdrlenAt() + 2]);
      var caplen := Le32(b[p.CaplenAt()..p.CaplenAt() + 4]);
      var datalen := Le32(b[p.DatalenAt()..p.DatalenAt() + 4]);
      var end := hdrlen + caplen;
      if end > |b| then Failure(PastEnd)
      else if p.WordAlign(end) == 0 then Failure(NoAdvance)
      else if datalen > caplen || caplen > Datagrams.MAX_FRAME_LEN then Success((OversizedOf(datalen), p.WordAlign(end)))
      else Success((FrameAt(hdrlen, end), p.WordAlign(end)))
  }

  /** The header as the two systems lay it out: where its fields are, its size and the records' alignment. */
  lemma HeaderLayout(n: nat)
    ensures MacOs.CaplenAt() == 8 && MacOs.DatalenAt() == 12 && MacOs.HdrlenAt() == 16 && MacOs.HeaderSize() == 20
    ensures FreeBsd.CaplenAt() == 16 && FreeBsd.DatalenAt() == 20 && FreeBsd.HdrlenAt() == 24 && FreeBsd.HeaderSize() == 32
    ensures n <= MacOs.WordAlign(n) <= n + 3 && MacOs.WordAlign(n) % 4 == 0
    ensures n <= FreeBsd.WordAlign(n) <= n + 7 && FreeBsd.WordAlign(n) % 8 == 0
  {
  }

  /** A record is malformed exactly when its header or its frame runs past the bytes, or it is empty and headerless. */
  lemma MalformedExactly(p: Platform, b: seq<Byte>)
    ensures var r, size := ParseRecord(p, b), if p.MacOs? then 20 else 32;
            && (r == Failure(MidHeader) <==> |b| < size)
            && (|b| >= size ==>
                  var caplen, hdrlen := Le32(b[p.CaplenAt()..p.CaplenAt() + 4]), Le16(b[p.HdrlenAt()..p.HdrlenAt() + 2]);
                  && (r == Failure(PastEnd) <==> hdrlen + caplen > |b|)
                  && (r == Failure(NoAdvance) <==> hdrlen == 0 && caplen == 0))
  {
    HeaderLayout(|b|);
    if |b| >= p.HeaderSize() {
      HeaderLayout(Le16(b[p.HdrlenAt()..p.HdrlenAt() + 2]) + Le32(b[p.CaplenAt()..p.CaplenAt() + 4]));
    }
    hide Le16, Le32, Platform.WordAlign;
  }

  /** What one batch gives in turn; a malformed record ends it. */
  datatype Read = Frame(bytes: seq<Byte>) | Oversized | Malformed(error: BatchError)

  function ReadOf(b: seq<Byte>, record: Record): Read
    requires record.FrameAt? ==> record.start <= record.end <= |b|
  {
    match record
    case FrameAt(start, end) => Frame(b[start..end])
    case OversizedOf(_) => Oversized
  }

  function After(b: seq<Byte>, advance: nat): seq<Byte> {
    if advance >= |b| then [] else b[advance..]
  }

  function Walk(p: Platform, b: seq<Byte>): seq<Read>
    decreases |b|
  {
    if b == [] then []
    else
      match ParseRecord(p, b)
      case Failure(error) => [Malformed(error)]
      case Success((record, advance)) => [ReadOf(b, record)] + Walk(p, After(b, advance))
  }

  lemma WalkStep(p: Platform, b: seq<Byte>)
    requires b != []
    ensures Walk(p, b) != []
    ensures var parsed := ParseRecord(p, b);
            if parsed.Failure? then Walk(p, b) == [Malformed(parsed.error)]
            else
              var record, advance := parsed.value.0, parsed.value.1;
              && 0 < advance && (record.FrameAt? ==> record.start <= record.end <= |b|)
              && Walk(p, b)[0] == ReadOf(b, record)
              && Walk(p, b)[1..] == Walk(p, After(b, advance))
  {
    var r := ParseRecord(p, b);
    assert r.Success? ==> 0 < r.value.1 && (r.value.0.FrameAt? ==> r.value.0.start <= r.value.0.end <= |b|);
    hide ParseRecord, ReadOf, After;
  }

  lemma NothingLeft(p: Platform)
    ensures Walk(p, []) == []
  {
  }

  /** On any bytes the walk is no longer than the batch, and only its last read can be malformed. */
  lemma {:induction false} WalkEnds(p: Platform, b: seq<Byte>)
    ensures |Walk(p, b)| <= |b|
    ensures forall i :: 0 <= i < |Walk(p, b)| - 1 ==> !Walk(p, b)[i].Malformed?
    decreases |b|
  {
    if b != [] && ParseRecord(p, b).Success? {
      WalkEnds(p, After(b, ParseRecord(p, b).value.1));
    }
  }

  // ----- What the kernel lays out

  /** A packet as captured: `data` is the part the kernel kept of its `datalen` bytes. */
  datatype Captured = Captured(stamp: seq<Byte>, datalen: nat, extra: seq<Byte>, data: seq<Byte>, pad: seq<Byte>) {
    function Hdrlen(p: Platform): nat { p.HdrlenAt() + 2 + |extra| }

    predicate Fits(p: Platform) {
      |stamp| == p.CaplenAt() && datalen < 0x1_0000_0000 && Hdrlen(p) < 0x1_0000 && |data| < 0x1_0000_0000
    }

    /** Padded to a word; the last record of a batch may stop short of it, but not of a header. */
    predicate Padded(p: Platform, last: bool) {
      var n := Hdrlen(p) + |data|;
      n + |pad| == p.WordAlign(n) || (last && p.HeaderSize() <= n + |pad| <= p.WordAlign(n))
    }

    function Laid(p: Platform): seq<Byte>
      requires Fits(p)
    {
      stamp + Bytes32(|data|) + Bytes32(datalen) + Bytes16(Hdrlen(p)) + extra + data + pad
    }

    /** The frame, if it is whole and within the limit. */
    function Due(): Read {
      if datalen > |data| || |data| > Datagrams.MAX_FRAME_LEN then Oversized else Frame(data)
    }
  }

  function Bytes16(n: nat): (r: seq<Byte>)
    requires n < 0x1_0000
    ensures |r| == 2
  {
    [n % 0x100, n / 0x100]
  }

  function Bytes32(n: nat): (r: seq<Byte>)
    requires n < 0x1_0000_0000
    ensures |r| == 4
  {
    Bytes16(n % 0x1_0000) + Bytes16(n / 0x1_0000)
  }

  lemma Bytes16Back(n: nat)
    requires n < 0x1_0000
    ensures Le16(Bytes16(n)) == n
  {
  }

  lemma Bytes32Back(n: nat)
    requires n < 0x1_0000_0000
    ensures Le32(Bytes32(n)) == n
  {
    Bytes16Back(n % 0x1_0000);
    Bytes16Back(n / 0x1_0000);
    assert Bytes32(n)[..2] == Bytes16(n % 0x1_0000) && Bytes32(n)[2..] == Bytes16(n / 0x1_0000);
  }

  predicate WellLaid(p: Platform, ps: seq<Captured>) {
    forall i :: 0 <= i < |ps| ==> ps[i].Fits(p) && ps[i].Padded(p, i == |ps| - 1)
  }

  function Batch(p: Platform, ps: seq<Captured>): seq<Byte>
    requires WellLaid(p, ps)
  {
    if ps == [] then [] else ps[0].Laid(p) + Batch(p, ps[1..])
  }

  function AllDue(ps: seq<Captured>): seq<Read> {
    if ps == [] then [] else [ps[0].Due()] + AllDue(ps[1..])
  }

  /** A record's header fields, where the walk looks for them. */
  ghost predicate Holds(p: Platform, b: seq<Byte>, hdrlen: nat, caplen: nat, datalen: nat) {
    && p.HeaderSize() <= |b|
    && Le16(b[p.HdrlenAt()..p.HdrlenAt() + 2]) == hdrlen
    && Le32(b[p.CaplenAt()..p.CaplenAt() + 4]) == caplen
    && Le32(b[p.DatalenAt()..p.DatalenAt() + 4]) == datalen
  }

  /** The fields come back from where they were laid, whatever follows. */
  lemma FieldsBack(p: Platform, c: Captured, rest: seq<Byte>)
    requires c.Fits(p) && c.Padded(p, rest == [])
    ensures var b := c.Laid(p) + rest;
            && Holds(p, b, c.Hdrlen(p), |c.data|, c.datalen)
            && 0 < c.Hdrlen(p) && c.Hdrlen(p) + |c.data| <= |b|
            && b[c.Hdrlen(p)..c.Hdrlen(p) + |c.data|] == c.data
  {
    hide Platform.WordAlign, Captured.Laid, Bytes16, Bytes32, Le16, Le32;
    LaidSlices(p, c, rest);
    AlignGrows(p, p.HdrlenAt() + 2, c.Hdrlen(p) + |c.data|);
    Bytes16Back(c.Hdrlen(p));
    Bytes32Back(|c.data|);
    Bytes32Back(c.datalen);
  }

  lemma LaidSlices(p: Platform, c: Captured, rest: seq<Byte>)
    requires c.Fits(p)
    ensures var b := c.Laid(p) + rest;
            && |b| == c.Hdrlen(p) + |c.data| + |c.pad| + |rest|
            && b[p.CaplenAt()..p.CaplenAt() + 4] == Bytes32(|c.data|)
            && b[p.DatalenAt()..p.DatalenAt() + 4] == Bytes32(c.datalen)
            && b[p.HdrlenAt()..p.HdrlenAt() + 2] == Bytes16(c.Hdrlen(p))
            && b[c.Hdrlen(p)..c.Hdrlen(p) + |c.data|] == c.data
  {
    var caplen, datalen, hdrlen := Bytes32(|c.data|), Bytes32(c.datalen), Bytes16(c.Hdrlen(p));
    FieldSlices(c.stamp, caplen, datalen, hdrlen, c.extra, c.data, c.pad + rest);
    assert c.Laid(p) + rest == c.stamp + caplen + datalen + hdrlen + c.extra + c.data + (c.pad + rest);
    hide Bytes16, Bytes32, Captured.Laid;
  }

  lemma FieldSlices(stamp: seq<Byte>, x: seq<Byte>, y: seq<Byte>, z: seq<Byte>, extra: seq<Byte>, data: seq<Byte>, tail: seq<Byte>)
    ensures var b := stamp + x + y + z + extra + data + tail;
            var n := |stamp| + |x| + |y| + |z| + |extra|;
            && b[|stamp|..|stamp| + |x|] == x
            && b[|stamp| + |x|..|stamp| + |x| + |y|] == y
            && b[|stamp| + |x| + |y|..|stamp| + |x| + |y| + |z|] == z
            && b[n..n + |data|] == data
  {
  }

  lemma RecordBack(p: Platform, c: Captured, rest: seq<Byte>)
    requires c.Fits(p) && c.Padded(p, rest == [])
    ensures var b := c.Laid(p) + rest;
            var r := ParseRecord(p, b);
            r.Success? && ReadOf(b, r.value.0) == c.Due() && After(b, r.value.1) == rest
  {
    hide *;
    FieldsBack(p, c, rest);
    LaidThen(p, c, rest);
    ReadAs(c, c.Laid(p) + rest, c.Hdrlen(p));
    ParsedAs(p, c.Laid(p) + rest, c.Hdrlen(p), |c.data|, c.datalen);
  }

  lemma ReadAs(c: Captured, b: seq<Byte>, hdrlen: nat)
    requires hdrlen + |c.data| <= |b| && b[hdrlen..hdrlen + |c.data|] == c.data
    ensures ReadOf(b, if c.datalen > |c.data| || |c.data| > Datagrams.MAX_FRAME_LEN then OversizedOf(c.datalen)
                      else FrameAt(hdrlen, hdrlen + |c.data|)) == c.Due()
  {
  }

  lemma ParsedAs(p: Platform, b: seq<Byte>, hdrlen: nat, caplen: nat, datalen: nat)
    requires Holds(p, b, hdrlen, caplen, datalen) && 0 < hdrlen && hdrlen + caplen <= |b|
    ensures ParseRecord(p, b) == Success((
              if datalen > caplen || caplen > Datagrams.MAX_FRAME_LEN then OversizedOf(datalen) else FrameAt(hdrlen, hdrlen + caplen),
              p.WordAlign(hdrlen + caplen)))
  {
    hide Le16, Le32, Platform.WordAlign;
  }

  lemma LaidThen(p: Platform, c: Captured, rest: seq<Byte>)
    requires c.Fits(p) && c.Padded(p, rest == [])
    ensures After(c.Laid(p) + rest, p.WordAlign(c.Hdrlen(p) + |c.data|)) == rest
  {
    assert |c.Laid(p)| == c.Hdrlen(p) + |c.data| + |c.pad|;
    hide Platform.WordAlign, Captured.Laid;
  }

  lemma AlignGrows(p: Platform, a: nat, b: nat)
    requires a <= b
    ensures p.WordAlign(a) <= p.WordAlign(b)
  {
  }

  /**
   Any batch the kernel lays out is read as exactly its packets in order: a frame for each whole one
   within the limit, one oversized read for each other.
   */
  lemma {:induction false} WalkOfBatch(p: Platform, ps: seq<Captured>)
    requires WellLaid(p, ps)
    ensures Walk(p, Batch(p, ps)) == AllDue(ps)
  {
    if ps != [] {
      var rest := Batch(p, ps[1..]);
      BatchIsEmpty(p, ps[1..]);
      RecordBack(p, ps[0], rest);
      WalkOfBatch(p, ps[1..]);
      hide ParseRecord, ReadOf;
      assert Batch(p, ps) == ps[0].Laid(p) + rest != [];
    }
  }

  lemma BatchIsEmpty(p: Platform, ps: seq<Captured>)
    requires WellLaid(p, ps)
    ensures Batch(p, ps) == [] <==> ps == []
  {
  }

  lemma SliceOfSlice(b: seq<Byte>, start: nat, end: nat, s: nat, e: nat)
    requires s <= e <= end - start && end <= |b|
    ensures b[start..end][s..e] == b[start + s..start + e]
  {
    var inner, outer := b[start..end][s..e], b[start + s..start + e];
    assert forall i :: 0 <= i < e - s ==> inner[i] == b[start + s + i];
    assert inner == outer;
  }

  /** The bytes from `offset` on, of which there may be none. */
  function Rest(b: seq<Byte>, offset: nat, filled: nat): seq<Byte>
    requires filled <= |b|
  {
    if offset < filled then b[offset..filled] else []
  }

  /** The next read of what is left of a batch, in the batch's own positions. */
  lemma TakeStep(p: Platform, b: seq<Byte>, start: nat, filled: nat)
    requires start < filled <= |b|
    ensures var told := Walk(p, Rest(b, start, filled));
            var parsed := ParseRecord(p, b[start..filled]);
            told != [] &&
            if parsed.Failure? then told == [Malformed(parsed.error)]
            else
              var record, advance := parsed.value.0, parsed.value.1;
              && 0 < advance && told[1..] == Walk(p, Rest(b, start + advance, filled))
              && if record.FrameAt? then
                   record.start <= record.end && start + record.end <= filled && told[0] == Frame(b[start + record.start..start + record.end])
                 else told[0] == Oversized
  {
    hide ParseRecord, Walk, After;
    var from := b[start..filled];
    WalkStep(p, from);
    var parsed := ParseRecord(p, from);
    if parsed.Success? {
      var record := parsed.value.0;
      RestAfter(b, start, filled, parsed.value.1);
      if record.FrameAt? {
        SliceOfSlice(b, start, filled, record.start, record.end);
      }
    }
  }

  lemma RestAfter(b: seq<Byte>, start: nat, filled: nat, advance: nat)
    requires start < filled <= |b|
    ensures After(b[start..filled], advance) == Rest(b, start + advance, filled)
  {
    assert start + advance < filled ==> b[start..filled][advance..] == b[start + advance..filled];
  }

  // ----- The capture

  datatype KernelRead = Ready(bytes: seq<Byte>) | WouldBlock | ReadFailed

  datatype FrameError = Io | Bad(error: BatchError)

  datatype Found = FoundFrame(start: nat, end: nat) | FoundOversized

  class Capture {
    const platform: Platform
    const buf: array<Byte>
    var filled: nat
    var offset: nat

    /** The next record may start past the end: the last one's padding is not part of the batch. */
    ghost predicate Valid()
      reads this
    {
      filled <= buf.Length
    }

    ghost function Remaining(): seq<Byte>
      reads this, buf
      requires Valid()
    {
      Rest(buf[..], offset, filled)
    }

    constructor (platform: Platform, capacity: nat)
      ensures Valid() && Remaining() == [] && fresh(buf) && buf.Length == capacity && this.platform == platform
    {
      this.platform := platform;
      buf := new Byte[capacity](_ => 0);
      filled, offset := 0, 0;
    }

    predicate HasBuffered()
      reads this
    {
      offset < filled
    }

    /** One read of the kernel; false when there was nothing. */
    method Refill(kernel: KernelRead) returns (r: Result<bool, FrameError>)
      requires Valid() && !HasBuffered()
      requires kernel.Ready? ==> |kernel.bytes| <= buf.Length
      modifies this`filled, this`offset, buf
      ensures Valid()
      ensures r == if kernel.ReadFailed? then Failure(Io) else Success(kernel.Ready? && kernel.bytes != [])
      ensures Remaining() == if kernel.Ready? then kernel.bytes else []
    {
      match kernel
      case ReadFailed => return Failure(Io);
      case WouldBlock => return Success(false);
      case Ready(bytes) =>
        for i := 0 to |bytes|
          invariant buf[..i] == bytes[..i]
          modifies buf
        {
          buf[i] := bytes[i];
        }
        if |bytes| == 0 {
          return Success(false);
        }
        assert buf[..|bytes|] == bytes[..|bytes|] == bytes;
        filled, offset := |bytes|, 0;
        return Success(true);
    }

    /** The next read of the batch, refilled first if it is used up. */
    method NextFrame(kernel: KernelRead) returns (r: Result<Option<Found>, FrameError>)
      requires Valid()
      requires kernel.Ready? ==> |kernel.bytes| <= buf.Length
      modifies this`filled, this`offset, buf
      ensures Valid()
      ensures old(HasBuffered()) ==> buf[..] == old(buf[..]) && filled == old(filled)
      ensures var from := if old(HasBuffered()) then old(Remaining()) else if kernel.Ready? then kernel.bytes else [];
              var told := Walk(platform, from);
              if from == [] then r == (if kernel.ReadFailed? then Failure(Io) else Success(None)) && Remaining() == []
              else told != [] && Told(r, told[0]) && Walk(platform, Remaining()) == told[1..] && |Remaining()| < |from|
    {
      if offset >= filled {
        var more := Refill(kernel);
        if more.Failure? {
          return Failure(more.error);
        }
        if !more.value {
          return Success(None);
        }
      }
      r := Take();
    }

    method Take() returns (r: Result<Option<Found>, FrameError>)
      requires Valid() && HasBuffered()
      modifies this`offset
      ensures Valid()
      ensures var told := Walk(platform, old(Remaining()));
              told != [] && Told(r, told[0]) && Walk(platform, Remaining()) == told[1..] && |Remaining()| < |old(Remaining())|
    {
      hide ParseRecord, Walk;
      var start := offset;
      TakeStep(platform, buf[..], start, filled);
      assert buf[..][start..filled] == buf[start..filled];
      var parsed := ParseRecord(platform, buf[start..filled]);
      if parsed.Failure? {
        offset := filled;
        NothingLeft(platform);
        return Failure(Bad(parsed.error));
      }
      var (record, advance) := parsed.value;
      offset := start + advance;
      match record
      case FrameAt(s, e) =>
        assert buf[..][start + s..start + e] == buf[start + s..start + e];
        return Success(Some(FoundFrame(start + s, start + e)));
      case OversizedOf(_) => return Success(Some(FoundOversized));
    }

    /** A result tells of a read: a frame's range lies inside the batch and holds its bytes. */
    ghost predicate Told(r: Result<Option<Found>, FrameError>, read: Read)
      reads this, buf
    {
      match read
      case Malformed(error) => r == Failure(Bad(error))
      case Oversized => r == Success(Some(FoundOversized))
      case Frame(bytes) =>
        && r.Success? && r.value.Some? && r.value.value.FoundFrame?
        && var f := r.value.value; f.start <= f.end <= filled <= buf.Length && buf[f.start..f.end] == bytes
    }
  }
}
