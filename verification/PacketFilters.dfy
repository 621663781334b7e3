/**
 The classic-BPF virtual machine and the classifiers installed on captures
 (src/capture/filter.rs). Registers hold u32 values; every jump is forward and relative.
 */
module PacketFilters {
  import opened Wrappers
  import opened Primitives

  type Frame = seq<Byte>

  const ANCILLARY_OFF: nat := 0xffff_f000

  datatype Insn = Insn(code: nat, jt: nat, jf: nat, k: nat)

  /** `Faults`: an unknown opcode, a fall off the program's end, or an index past 32 bits. */
  datatype Verdict = Returns(k: nat) | Faults

  const ACCEPT := Returns(U32_MAX)
  const DROP := Returns(0)

  /** Bitwise and. */
  function And(a: nat, k: nat): nat {
    if k == 0 then 0 else 2 * And(a / 2, k / 2) + if a % 2 == 1 && k % 2 == 1 then 1 else 0
  }

  function Pair(high: nat, low: nat): nat { 0x100 * high + low }

  /** A big-endian load of 1, 2 or 4 bytes, or nothing past the frame's end. */
  function Load(frame: Frame, offset: nat, size: nat): Option<nat> {
    if offset + size > |frame| then None
    else if size == 1 then Some(frame[offset])
    else if size == 2 then Some(Pair(frame[offset], frame[offset + 1]))
    else if size == 4 then
      Some(0x1_0000 * Pair(frame[offset], frame[offset + 1]) + Pair(frame[offset + 2], frame[offset + 3]))
    else None
  }

  predicate IsAbs(code: nat) { code == 0x20 || code == 0x28 || code == 0x30 }

  predicate IsInd(code: nat) { code == 0x48 || code == 0x50 }

  function SizeOf(code: nat): nat {
    if code == 0x20 then 4 else if code == 0x28 || code == 0x48 then 2 else 1
  }

  function LoadAbs(i: Insn, frame: Frame, ancillary: nat -> Option<nat>): Option<nat> {
    if i.k >= ANCILLARY_OFF then ancillary(i.k) else Load(frame, i.k, SizeOf(i.code))
  }

  /** The rest of a run from `pc`, with the accumulator and index register given. */
  function Run(p: seq<Insn>, frame: Frame, ancillary: nat -> Option<nat>, pc: nat, a: nat, x: nat): Verdict
    decreases |p| - pc
  {
    if pc >= |p| then Faults
    else
      var i := p[pc];
      if IsAbs(i.code) then
        var v := LoadAbs(i, frame, ancillary);
        if v.None? then DROP else Run(p, frame, ancillary, pc + 1, v.value, x)
      else if IsInd(i.code) then
        if x + i.k > U32_MAX then Faults
        else
          var v := Load(frame, x + i.k, SizeOf(i.code));
          if v.None? then DROP else Run(p, frame, ancillary, pc + 1, v.value, x)
      else if i.code == 0x01 then Run(p, frame, ancillary, pc + 1, a, i.k)
      else if i.code == 0x54 then Run(p, frame, ancillary, pc + 1, And(a, i.k), x)
      else if i.code == 0x15 then Run(p, frame, ancillary, pc + 1 + (if a == i.k then i.jt else i.jf), a, x)
      else if i.code == 0x45 then Run(p, frame, ancillary, pc + 1 + (if And(a, i.k) != 0 then i.jt else i.jf), a, x)
      else if i.code == 0x06 then Returns(i.k)
      else Faults
  }

  /** The machine as a loop over its registers; it stops on every program and frame. */
  method RunWith(p: seq<Insn>, frame: Frame, ancillary: nat -> Option<nat>) returns (r: Verdict)
    ensures r == Run(p, frame, ancillary, 0, 0, 0)
  {
    var a: nat, x: nat, pc: nat := 0, 0, 0;
    while pc < |p|
      invariant Run(p, frame, ancillary, pc, a, x) == Run(p, frame, ancillary, 0, 0, 0)
      decreases |p| - pc
    {
      var i := p[pc];
      pc := pc + 1;
      var loaded: Option<nat> := None;
      if IsAbs(i.code) {
        loaded := LoadAbs(i, frame, ancillary);
      } else if IsInd(i.code) {
        if x + i.k > U32_MAX {
          return Faults;
        }
        loaded := Load(frame, x + i.k, SizeOf(i.code));
      } else if i.code == 0x01 {
        x := i.k;
        continue;
      } else if i.code == 0x54 {
        loaded := Some(And(a, i.k));
      } else if i.code == 0x15 {
        pc := pc + if a == i.k then i.jt else i.jf;
        continue;
      } else if i.code == 0x45 {
        pc := pc + if And(a, i.k) != 0 then i.jt else i.jf;
        continue;
      } else if i.code == 0x06 {
        return Returns(i.k);
      } else {
        return Faults;
      }
      if loaded.None? {
        return DROP;
      }
      a := loaded.value;
    }
    return Faults;
  }

  // ----- Masks

  lemma {:induction false} AndLowBits(a: nat, n: nat)
    ensures Pow2(n) >= 1 && And(a, Pow2(n) - 1) == a % Pow2(n)
    decreases n
  {
    if n > 0 {
      AndLowBits(a / 2, n - 1);
      var m := Pow2(n - 1);
      AndOdd(a, m - 1);
      ModDouble(a, m);
    }
  }

  lemma AndOdd(a: nat, k: nat)
    ensures And(a, 2 * k + 1) == 2 * And(a / 2, k) + a % 2
  {
    assert (2 * k + 1) / 2 == k && (2 * k + 1) % 2 == 1;
  }

  lemma ModDouble(a: nat, m: nat)
    requires m >= 1
    ensures a % (2 * m) == 2 * ((a / 2) % m) + a % 2
  {
    var q, r := (a / 2) / m, (a / 2) % m;
    assert a == 2 * (q * m + r) + a % 2;
    assert a == (2 * m) * q + (2 * r + a % 2);
    DivModUnique(a, 2 * m, q, 2 * r + a % 2);
  }

  lemma MulGrows(m: int, d: int)
    requires m >= 1 && d >= 1
    ensures m * d >= m
  {
    assert m * (d - 1) >= 0;
  }

  lemma NoSmallMultiple(m: int, d: int)
    requires m >= 1 && -m < m * d < m
    ensures d == 0
  {
    if d >= 1 {
      MulGrows(m, d);
    } else if d <= -1 {
      MulGrows(m, -d);
    }
  }

  lemma DivModUnique(a: nat, m: nat, q: nat, r: nat)
    requires m >= 1 && r < m && a == m * q + r
    ensures a % m == r
  {
    assert a == m * (a / m) + a % m;
    assert m * (a / m - q) == r - a % m;
    NoSmallMultiple(m, a / m - q);
  }

  /** A VLAN ID is the low 12 bits of the tag. */
  lemma AndVlanId(a: nat)
    ensures And(a, 0xfff) == a % 0x1000
  {
    AndLowBits(a, 12);
    assert Pow2(12) == 0x1000 by {
      assert Pow2(4) == 16 && Pow2(8) == 256;
    }
  }

  /** The IP version is the high nibble of the first byte. */
  lemma AndVersion(a: Byte)
    ensures And(a, 0xf0) == (a / 16) * 16
  {
    hide And;
    AndShifted(a, 0x78);
    AndShifted(a / 2, 0x3c);
    AndShifted(a / 4, 0x1e);
    AndShifted(a / 8, 0xf);
    AndNibble(a / 16);
  }

  lemma AndNibble(a: nat)
    ensures And(a, 0xf) == a % 16
  {
    AndLowBits(a, 4);
    assert Pow2(4) == 16;
  }

  lemma AndShifted(a: nat, k: nat)
    ensures And(a, 2 * k) == 2 * And(a / 2, k)
  {
    assert (2 * k) / 2 == k && (2 * k) % 2 == 0;
  }

  // ----- Relocation

  /** Jumps are relative, so a program runs the same wherever it is placed. */
  lemma {:induction false} Relocates(
      q: seq<Insn>, p: seq<Insn>, frame: Frame, ancillary: nat -> Option<nat>, pc: nat, a: nat, x: nat)
    ensures Run(q + p, frame, ancillary, |q| + pc, a, x) == Run(p, frame, ancillary, pc, a, x)
    decreases |p| - pc
  {
    hide And, Load, LoadAbs;
    if pc < |p| {
      var i := p[pc];
      assert (q + p)[|q| + pc] == i;
      if IsAbs(i.code) {
        var v := LoadAbs(i, frame, ancillary);
        if v.Some? {
          Relocates(q, p, frame, ancillary, pc + 1, v.value, x);
        }
      } else if IsInd(i.code) {
        var v := Load(frame, x + i.k, SizeOf(i.code));
        if v.Some? {
          Relocates(q, p, frame, ancillary, pc + 1, v.value, x);
        }
      } else if i.code == 0x01 {
        Relocates(q, p, frame, ancillary, pc + 1, a, i.k);
      } else if i.code == 0x54 {
        Relocates(q, p, frame, ancillary, pc + 1, And(a, i.k), x);
      } else if i.code == 0x15 || i.code == 0x45 {
        Relocates(q, p, frame, ancillary, pc + 1 + i.jt, a, x);
        Relocates(q, p, frame, ancillary, pc + 1 + i.jf, a, x);
      }
    }
  }

  // ----- The prologues

  const PKTTYPE: nat := ANCILLARY_OFF + 4
  const VLAN_TAG: nat := ANCILLARY_OFF + 44
  const VLAN_TAG_PRESENT: nat := ANCILLARY_OFF + 48
  const PACKET_OUTGOING: nat := 4

  const DROP_OUTGOING_PROLOGUE: seq<Insn> := [
    Insn(0x30, 0, 0, PKTTYPE),
    Insn(0x15, 0, 1, PACKET_OUTGOING),
    Insn(0x06, 0, 0, 0)]

  const DROP_VLAN_TAGGED_PROLOGUE: seq<Insn> := [
    Insn(0x20, 0, 0, VLAN_TAG_PRESENT),
    Insn(0x15, 4, 0, 0),
    Insn(0x20, 0, 0, VLAN_TAG),
    Insn(0x54, 0, 0, 0xfff),
    Insn(0x15, 1, 0, 0),
    Insn(0x06, 0, 0, 0)]

  /** The host sent the frame, or the kernel cannot say. */
  predicate Outgoing(ancillary: nat -> Option<nat>) {
    ancillary(PKTTYPE).None? || ancillary(PKTTYPE).value == PACKET_OUTGOING
  }

  /**
   Exactly what the outgoing prologue makes of any program: a frame the host sent is dropped, and
   any other runs the program with the packet type left in the accumulator.
   */
  lemma OutgoingPrologue(p: seq<Insn>, frame: Frame, ancillary: nat -> Option<nat>)
    ensures Run(DROP_OUTGOING_PROLOGUE + p, frame, ancillary, 0, 0, 0) ==
            match ancillary(PKTTYPE)
            case None => DROP
            case Some(t) => if t == PACKET_OUTGOING then DROP else Run(p, frame, ancillary, 0, t, 0)
  {
    var q := DROP_OUTGOING_PROLOGUE;
    var all := q + p;
    assert all[0] == q[0] && all[1] == q[1] && all[2] == q[2];
    if ancillary(PKTTYPE).Some? {
      var t := ancillary(PKTTYPE).value;
      assert Run(all, frame, ancillary, 0, 0, 0) == Run(all, frame, ancillary, 1, t, 0);
      assert Run(all, frame, ancillary, 2, t, 0) == DROP;
      Relocates(q, p, frame, ancillary, 0, t, 0);
    }
  }

  /** A jump that takes the same way for any accumulator but the outgoing type. */
  predicate Passes(i: Insn) {
    (i.code == 0x15 && (i.jt == i.jf || i.k == PACKET_OUTGOING)) || (i.code == 0x45 && (i.jt == i.jf || i.k == 0))
  }

  /**
   The first instruction on the way from `pc` whose effect depends on what the accumulator held, a
   packet type other than outgoing. Until a load or a return the way does not depend on the frame.
   */
  function TouchedAt(p: seq<Insn>, pc: nat): Option<nat>
    decreases |p| - pc
  {
    if pc >= |p| then None
    else
      var i := p[pc];
      if i.code == 0x01 then TouchedAt(p, pc + 1)
      else if i.code == 0x54 then if i.k == 0 then None else Some(pc)
      else if Passes(i) then TouchedAt(p, pc + 1 + i.jf)
      else if i.code == 0x15 || i.code == 0x45 then Some(pc)
      else None
  }

  predicate Transparent(p: seq<Insn>, frame: Frame, ancillary: nat -> Option<nat>) {
    Run(DROP_OUTGOING_PROLOGUE + p, frame, ancillary, 0, 0, 0) ==
    if Outgoing(ancillary) then DROP else Run(p, frame, ancillary, 0, 0, 0)
  }

  lemma {:induction false} AccumulatorIgnored(
      p: seq<Insn>, frame: Frame, ancillary: nat -> Option<nat>, pc: nat, a: nat, b: nat, x: nat)
    requires TouchedAt(p, pc).None? && a != PACKET_OUTGOING && b != PACKET_OUTGOING
    ensures Run(p, frame, ancillary, pc, a, x) == Run(p, frame, ancillary, pc, b, x)
    decreases |p| - pc
  {
    if pc < |p| {
      var i := p[pc];
      if i.code == 0x01 {
        AccumulatorIgnored(p, frame, ancillary, pc + 1, a, b, i.k);
      } else if i.code == 0x15 || i.code == 0x45 {
        AccumulatorIgnored(p, frame, ancillary, pc + 1 + i.jf, a, b, x);
      }
    }
  }

  /** A program that never touches what the accumulator held is otherwise unchanged by the prologue. */
  lemma OutgoingPrologueIsTransparent(p: seq<Insn>, frame: Frame, ancillary: nat -> Option<nat>)
    requires TouchedAt(p, 0).None?
    ensures Transparent(p, frame, ancillary)
  {
    OutgoingPrologue(p, frame, ancillary);
    if !Outgoing(ancillary) {
      AccumulatorIgnored(p, frame, ancillary, 0, ancillary(PKTTYPE).value, 0, 0);
    }
  }

  /** `q` is `p`, or `p` up to and including the instruction that touches, and then anything. */
  predicate SameUntilTouched(p: seq<Insn>, q: seq<Insn>) {
    match TouchedAt(p, 0)
    case None => q == p
    case Some(n) => n < |p| && n < |q| && q[..n + 1] == p[..n + 1]
  }

  /**
   The condition is exact for what a program does until then: the prologue is transparent for every
   program that starts like `p`, on all frames, if and only if `p` never touches.
   */
  lemma OutgoingPrologueExactly(p: seq<Insn>)
    ensures TouchedAt(p, 0).None? <==>
              forall q, frame, ancillary :: SameUntilTouched(p, q) ==> Transparent(q, frame, ancillary)
  {
    if TouchedAt(p, 0).None? {
      forall q, frame, ancillary | SameUntilTouched(p, q)
        ensures Transparent(q, frame, ancillary)
      {
        OutgoingPrologueIsTransparent(p, frame, ancillary);
      }
    } else {
      var q, ancillary := TouchShows(p, []);
    }
  }

  /** Reaching the instruction that touches takes the same steps whatever the accumulator holds. */
  lemma {:induction false} ReachesTouch(
      p: seq<Insn>, q: seq<Insn>, frame: Frame, ancillary: nat -> Option<nat>, pc: nat, a: nat, b: nat, x: nat) returns (x': nat)
    requires TouchedAt(p, pc).Some? && a != PACKET_OUTGOING && b != PACKET_OUTGOING
    requires TouchedAt(p, pc).value < |p| ==> TouchedAt(p, pc).value < |q| && q[..TouchedAt(p, pc).value + 1] == p[..TouchedAt(p, pc).value + 1]
    ensures var n := TouchedAt(p, pc).value;
            && pc <= n < |p| && n < |q| && q[n] == p[n]
            && Run(q, frame, ancillary, pc, a, x) == Run(q, frame, ancillary, n, a, x')
            && Run(q, frame, ancillary, pc, b, x) == Run(q, frame, ancillary, n, b, x')
    decreases |p| - pc
  {
    hide And, Load, LoadAbs, IsAbs, IsInd;
    var n := TouchedAt(p, pc).value;
    TouchIsAhead(p, pc);
    PrefixAt(p, q, n + 1, pc);
    PrefixAt(p, q, n + 1, n);
    var i := p[pc];
    x' := x;
    if i.code == 0x01 {
      PassesImmediate(q, frame, ancillary, pc, a, x);
      PassesImmediate(q, frame, ancillary, pc, b, x);
      x' := ReachesTouch(p, q, frame, ancillary, pc + 1, a, b, i.k);
    } else if Passes(i) {
      PassesJump(q, frame, ancillary, pc, a, x);
      PassesJump(q, frame, ancillary, pc, b, x);
      x' := ReachesTouch(p, q, frame, ancillary, pc + 1 + i.jf, a, b, x);
    }
  }

  lemma PassesImmediate(q: seq<Insn>, frame: Frame, ancillary: nat -> Option<nat>, pc: nat, a: nat, x: nat)
    requires pc < |q| && q[pc].code == 0x01
    ensures Run(q, frame, ancillary, pc, a, x) == Run(q, frame, ancillary, pc + 1, a, q[pc].k)
  {
  }

  lemma PassesJump(q: seq<Insn>, frame: Frame, ancillary: nat -> Option<nat>, pc: nat, a: nat, x: nat)
    requires pc < |q| && Passes(q[pc]) && a != PACKET_OUTGOING
    ensures Run(q, frame, ancillary, pc, a, x) == Run(q, frame, ancillary, pc + 1 + q[pc].jf, a, x)
  {
  }

  lemma PrefixAt(p: seq<Insn>, q: seq<Insn>, n: nat, j: nat)
    requires j < n <= |p| && n <= |q| && q[..n] == p[..n]
    ensures q[j] == p[j]
  {
    assert q[..n][j] == p[..n][j];
  }

  lemma {:induction false} TouchIsAhead(p: seq<Insn>, pc: nat)
    requires TouchedAt(p, pc).Some?
    ensures pc <= TouchedAt(p, pc).value < |p|
    decreases |p| - pc
  {
    if p[pc].code == 0x01 {
      TouchIsAhead(p, pc + 1);
    } else if Passes(p[pc]) {
      TouchIsAhead(p, pc + 1 + p[pc].jf);
    }
  }

  lemma {:induction false} AndSelf(k: nat)
    ensures And(k, k) == k && And(0, k) == 0
  {
    if k > 0 {
      AndSelf(k / 2);
    }
  }

  /** A packet type that shares a bit with the mask and is not outgoing. */
  lemma SharingBit(k: nat) returns (t: nat)
    requires k > 0
    ensures t != PACKET_OUTGOING && And(t, k) != 0 && And(0, k) == 0
  {
    AndSelf(k);
    t := k;
    if k == PACKET_OUTGOING {
      t := 12;
      assert And(12, 4) == 4 by {
        assert And(3, 1) == 1;
        assert And(6, 2) == 2;
      }
    }
  }

  /** Whatever a program does when it touches, some continuation tells the packet type from 0. */
  lemma TouchShows(p: seq<Insn>, frame: Frame) returns (q: seq<Insn>, ancillary: nat -> Option<nat>)
    requires TouchedAt(p, 0).Some?
    ensures SameUntilTouched(p, q) && !Transparent(q, frame, ancillary)
  {
    var x := ReachesTouch(p, p, frame, k => None, 0, 0, 0, 0);
    var n := TouchedAt(p, 0).value;
    var i := TouchIs(p, 0);
    var t: nat;
    var rest: seq<Insn>;
    if i.code == 0x54 {
      t := SharingBit(i.k);
      rest := [Insn(0x15, 0, 1, 0), Insn(0x06, 0, 0, U32_MAX), Insn(0x06, 0, 0, 0)];
    } else {
      rest := Landing(i);
      if i.code == 0x15 {
        t := if i.k == 0 then 1 else i.k;
      } else {
        t := SharingBit(i.k);
      }
    }
    q := p[..n + 1] + rest;
    ancillary := k => Some(t);
    assert q[..n + 1] == p[..n + 1];
    x := ReachesTouch(p, q, frame, ancillary, 0, t, 0, 0);
    TouchTells(q, frame, ancillary, n, rest, t, x);
    OutgoingPrologue(q, frame, ancillary);
  }

  lemma {:induction false} TouchIs(p: seq<Insn>, pc: nat) returns (i: Insn)
    requires TouchedAt(p, pc).Some?
    ensures TouchedAt(p, pc).value < |p| && i == p[TouchedAt(p, pc).value] && Touches(i)
    decreases |p| - pc
  {
    i := p[pc];
    if i.code == 0x01 {
      i := TouchIs(p, pc + 1);
    } else if Passes(i) {
      i := TouchIs(p, pc + 1 + i.jf);
    }
  }

  predicate Touches(i: Insn) {
    || (i.code == 0x54 && i.k > 0)
    || (i.code == 0x15 && i.jt != i.jf && i.k != PACKET_OUTGOING)
    || (i.code == 0x45 && i.jt != i.jf && i.k > 0)
  }

  /** A landing for a jump: it accepts where the test holds and drops elsewhere. */
  function Landing(i: Insn): (q: seq<Insn>)
    ensures |q| > i.jt && |q| > i.jf
    ensures forall j :: 0 <= j < |q| ==> q[j] == Insn(0x06, 0, 0, if j == i.jt then U32_MAX else 0)
  {
    seq((if i.jt > i.jf then i.jt else i.jf) + 1, j => Insn(0x06, 0, 0, if j == i.jt then U32_MAX else 0))
  }

  lemma TouchTells(q: seq<Insn>, frame: Frame, ancillary: nat -> Option<nat>, n: nat, rest: seq<Insn>, t: nat, x: nat)
    requires n < |q| && q[n + 1..] == rest && Touches(q[n])
    requires if q[n].code == 0x54 then
               And(t, q[n].k) != 0 && And(0, q[n].k) == 0 && rest == [Insn(0x15, 0, 1, 0), Insn(0x06, 0, 0, U32_MAX), Insn(0x06, 0, 0, 0)]
             else
               && rest == Landing(q[n])
               && if q[n].code == 0x15 then (t == q[n].k) != (0 == q[n].k) else And(t, q[n].k) != 0 && And(0, q[n].k) == 0
    ensures Run(q, frame, ancillary, n, t, x) != Run(q, frame, ancillary, n, 0, x)
  {
    var i := q[n];
    assert forall j :: 0 <= j < |rest| ==> q[n + 1 + j] == rest[j];
    if i.code == 0x54 {
      var a := And(t, i.k);
      assert Run(q, frame, ancillary, n + 1, 0, x) == Run(q, frame, ancillary, n + 2, 0, x) == ACCEPT;
      assert Run(q, frame, ancillary, n + 1, a, x) == Run(q, frame, ancillary, n + 3, a, x) == DROP;
    } else {
      assert q[n + 1 + i.jt] == rest[i.jt] && q[n + 1 + i.jf] == rest[i.jf];
      assert Run(q, frame, ancillary, n + 1 + i.jt, t, x) == ACCEPT == Run(q, frame, ancillary, n + 1 + i.jt, 0, x);
      assert Run(q, frame, ancillary, n + 1 + i.jf, t, x) == DROP == Run(q, frame, ancillary, n + 1 + i.jf, 0, x);
    }
  }

  /** The prologue does show: a program testing the accumulator first answers differently. */
  lemma OutgoingPrologueShows(frame: Frame) returns (p: seq<Insn>, ancillary: nat -> Option<nat>)
    ensures TouchedAt(p, 0) == Some(0) && ancillary(PKTTYPE) == Some(1)
    ensures Run(p, frame, ancillary, 0, 0, 0) == ACCEPT
    ensures Run(DROP_OUTGOING_PROLOGUE + p, frame, ancillary, 0, 0, 0) == DROP
  {
    p := [Insn(0x15, 0, 1, 0), Insn(0x06, 0, 0, U32_MAX), Insn(0x06, 0, 0, 0)];
    ancillary := k => Some(1);
    assert Run(p, frame, ancillary, 1, 0, 0) == ACCEPT && Run(p, frame, ancillary, 2, 1, 0) == DROP;
    OutgoingPrologue(p, frame, ancillary);
  }

  /** The kernel holds a VLAN tag for the frame whose VLAN ID is not 0. */
  predicate VlanTagged(ancillary: nat -> Option<nat>) {
    match ancillary(VLAN_TAG_PRESENT)
    case None => true
    case Some(0) => false
    case Some(_) => ancillary(VLAN_TAG).None? || ancillary(VLAN_TAG).value % 0x1000 != 0
  }

  /** The VLAN prologue leaves 0 in the accumulator, so it is exact for every program. */
  lemma VlanPrologue(p: seq<Insn>, frame: Frame, ancillary: nat -> Option<nat>, a: nat)
    ensures Run(DROP_VLAN_TAGGED_PROLOGUE + p, frame, ancillary, 0, a, 0) ==
            if VlanTagged(ancillary) then DROP else Run(p, frame, ancillary, 0, 0, 0)
  {
    var q := DROP_VLAN_TAGGED_PROLOGUE;
    var all := q + p;
    assert forall i :: 0 <= i < 6 ==> all[i] == q[i];
    Relocates(q, p, frame, ancillary, 0, 0, 0);
    if ancillary(VLAN_TAG_PRESENT).Some? {
      var present := ancillary(VLAN_TAG_PRESENT).value;
      assert Run(all, frame, ancillary, 0, a, 0) == Run(all, frame, ancillary, 1, present, 0);
      if present == 0 {
        assert Run(all, frame, ancillary, 1, 0, 0) == Run(all, frame, ancillary, 6, 0, 0);
      } else if ancillary(VLAN_TAG).None? {
        assert Run(all, frame, ancillary, 2, present, 0) == DROP;
      } else {
        var tci := ancillary(VLAN_TAG).value;
        AndVlanId(tci);
        assert Run(all, frame, ancillary, 1, present, 0) == Run(all, frame, ancillary, 2, present, 0);
        assert Run(all, frame, ancillary, 2, present, 0) == Run(all, frame, ancillary, 3, tci, 0);
        assert Run(all, frame, ancillary, 3, tci, 0) == Run(all, frame, ancillary, 4, tci % 0x1000, 0);
        assert Run(all, frame, ancillary, 5, tci % 0x1000, 0) == DROP;
        assert tci % 0x1000 == 0 ==> Run(all, frame, ancillary, 4, 0, 0) == Run(all, frame, ancillary, 6, 0, 0);
      }
    }
  }

  /**
   Both prologues, as the capture prepends them: the second loads first and leaves 0, so together
   they are exact for every program.
   */
  lemma BothPrologues(p: seq<Insn>, frame: Frame, ancillary: nat -> Option<nat>)
    ensures Run(DROP_OUTGOING_PROLOGUE + (DROP_VLAN_TAGGED_PROLOGUE + p), frame, ancillary, 0, 0, 0) ==
            if Outgoing(ancillary) || VlanTagged(ancillary) then DROP else Run(p, frame, ancillary, 0, 0, 0)
  {
    var tagged := DROP_VLAN_TAGGED_PROLOGUE + p;
    assert tagged[0].code == 0x20;
    OutgoingPrologueIsTransparent(tagged, frame, ancillary);
    VlanPrologue(p, frame, ancillary, 0);
  }
}
