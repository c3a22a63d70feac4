/**
 Frame sizes, waiting times and the answer to select (ISO/IEC 14443-4 sections 5.1, 5.2 and 7.2).
 */
module TclAts {
  import opened Common
  import opened TclBlocks


  // ----- frame sizes -----

  const FSD_TABLE: seq<nat> := [16, 24, 32, 40, 48, 64, 96, 128, 256]

  /** Frame sizes by code, from section 5.1 of ISO/IEC 14443-4. */
  function SizeOfCode(code: nat): nat
    requires code <= 8
  {
    if code <= 4 then 16 + 8 * code else if code == 8 then 256 else 32 * (code - 3)
  }

  lemma TableIsStandard()
    ensures |FSD_TABLE| == 9 && forall code: nat :: code <= 8 ==> FSD_TABLE[code] == SizeOfCode(code)
  {
  }

  /** Reads the table; nine is let through by the bounds test although it lies past the end. */
  method FsdiToFsd(fsdi: nat, old_fsd: nat) returns (fsd: nat)
    requires fsdi != |FSD_TABLE|
    ensures fsd == if fsdi < |FSD_TABLE| then FSD_TABLE[fsdi] else old_fsd
    ensures fsd == if fsdi <= 8 then SizeOfCode(fsdi) else old_fsd
  {
    fsd := if fsdi > |FSD_TABLE| then old_fsd else FSD_TABLE[fsdi];
  }

  /** Finds the code of a frame size, if it has one. */
  method FsdToFsdi(fsd: nat) returns (fsdi: Option<nat>)
    ensures fsdi.Some? <==> fsd in FSD_TABLE
    ensures fsdi.Some? ==> fsdi.value < |FSD_TABLE| && FSD_TABLE[fsdi.value] == fsd
  {
    for i := 0 to |FSD_TABLE|
      invariant fsd !in FSD_TABLE[..i]
    {
      if FSD_TABLE[i] == fsd {
        return Some(i);
      }
    }
    fsdi := None;
  }

  /** The largest frame size that has a code and does not exceed `fsd`, or the smallest one there is. */
  method FsdApprox(fsd: nat) returns (r: nat)
    ensures r in FSD_TABLE
    ensures fsd >= 16 ==> r <= fsd && forall x <- FSD_TABLE :: x <= fsd ==> x <= r
    ensures fsd < 16 ==> r == 16
  {
    var i: nat := |FSD_TABLE|;
    while i > 0
      invariant i <= |FSD_TABLE|
      invariant forall k: nat :: i <= k < |FSD_TABLE| ==> FSD_TABLE[k] > fsd
    {
      i := i - 1;
      if FSD_TABLE[i] <= fsd {
        return FSD_TABLE[i];
      }
    }
    r := FSD_TABLE[0];
  }

  /** The frame size a reader announces always has a code, and the code stands for that size. */
  method Announce(mru: nat) returns (fsdi: nat, fsd: nat)
    ensures fsdi < |FSD_TABLE| && FSD_TABLE[fsdi] == fsd
    ensures mru >= 16 ==> fsd <= mru && forall x <- FSD_TABLE :: x <= mru ==> x <= fsd
  {
    var approx := FsdApprox(mru);
    var code := FsdToFsdi(approx);
    fsdi := code.value;
    fsd := FsdiToFsd(fsdi, 0);
  }

  // ----- waiting time -----

  /** Frame waiting time in microseconds, in 32-bit arithmetic. */
  function FwiToFwt(fwi: nat): nat {
    (1000000 * 256 * 16 % WORD / FC) * Pow2(if fwi > 14 then 14 else fwi) % WORD
  }

  lemma FwtBounds(fwi: nat)
    ensures var n := if fwi > 14 then 14 else fwi;
            FwiToFwt(fwi) == 302 * Pow2(n) && Pow2(n) <= 16384
  {
    var n := if fwi > 14 then 14 else fwi;
    assert Pow2(14) == 16384 by { assert Pow2(7) == 128; }
    Pow2Monotone(n, 14);
  }

  /** The longest waiting time any answer can ask for. */
  const MAX_FWT := 4947968

  lemma FwtInRange(fwi: nat)
    ensures 302 <= FwiToFwt(fwi) <= MAX_FWT == FwiToFwt(14)
  {
    FwtBounds(fwi);
    FwtBounds(14);
    assert Pow2(14) == 16384 by { assert Pow2(7) == 128; }
  }

  /** The waiting time is 302 us times a power of two, and neither it nor its product with any
      accepted extension wraps 32 bits. */
  lemma WaitingTimeFits(fwi: nat, wtxm: nat)
    requires 1 <= wtxm <= 59
    ensures FwiToFwt(fwi) == 302 * Pow2(if fwi > 14 then 14 else fwi)
    ensures FwiToFwt(fwi) * wtxm % WORD == FwiToFwt(fwi) * wtxm < WORD
  {
    FwtBounds(fwi);
    hide FwiToFwt;
    MulMono(FwiToFwt(fwi), wtxm, 59);
  }

  // ----- the answer to select -----

  /** Handle fields derived from the answer to select; the historical bytes are a slice of it. */
  datatype Params = Params(
    fsc: nat, fwt: nat, ta: bv8, nadSupported: bool, cidSupported: bool,
    historicalAt: nat, historicalLen: nat)

  /** The fields of a handle that has not seen an answer. */
  const FRESH := Params(0, 0, 0, false, false, 0, 0)

  /** The length byte, or what arrived if that is less. */
  function AtsLength(ats: Frame): (n: nat)
    ensures n <= |ats| && n <= At(ats, 0) as nat && (n == |ats| || n == At(ats, 0) as nat)
  {
    var tl := At(ats, 0) as nat;
    if |ats| < tl then |ats| else tl
  }

  function Fsci(ats: Frame): nat { (At(ats, 1) & 0x0f) as nat }

  predicate HasTa(t0: bv8) { t0 & 0x10 != 0 }
  predicate HasTb(t0: bv8) { t0 & 0x20 != 0 }
  predicate HasTc(t0: bv8) { t0 & 0x40 != 0 }

  /** Frame waiting time integer, the upper half of TB. */
  function Fwi(tb: bv8): nat { (tb >> 4) as nat }

  /** FSCI 9 would read past the table. */
  predicate Parsable(ats: Frame) { AtsLength(ats) >= 2 ==> Fsci(ats) != |FSD_TABLE| }

  function CardFrameSize(ats: Frame, fsc: nat, mtu: nat): nat
    requires Fsci(ats) != |FSD_TABLE|
  {
    var size := if Fsci(ats) < |FSD_TABLE| then FSD_TABLE[Fsci(ats)] else fsc;
    if size > mtu then mtu else size
  }

  /** What parsing makes of the handle; None when there is nothing to parse. */
  function Parsed(p: Params, ats: Frame, mtu: nat): Option<Params>
    requires Parsable(ats)
  {
    var len := AtsLength(ats);
    if len == 0 then None
    else if len == 1 then Some(p.(fsc := 32, ta := 0x80, fwt := FwiToFwt(4)))
    else
      var t0 := At(ats, 1);
      var taLen := if HasTa(t0) then 1 else 0;
      var tbLen := if HasTb(t0) then 1 else 0;
      var tcLen := if HasTc(t0) then 1 else 0;
      var tb, tc := At(ats, 2 + taLen), At(ats, 2 + taLen + tbLen);
      var cur := 2 + taLen + tbLen + tcLen;
      Some(p.(
        fsc := CardFrameSize(ats, p.fsc, mtu),
        ta := if HasTa(t0) then At(ats, 2) else 0,
        fwt := if HasTb(t0) then FwiToFwt(Fwi(tb)) else p.fwt,
        nadSupported := p.nadSupported || (HasTc(t0) && tc & 0x01 != 0),
        cidSupported := p.cidSupported || (HasTc(t0) && tc & 0x02 != 0),
        historicalAt := cur,
        historicalLen := (len - cur) % WORD))
  }

  /** An answer to select: its length byte, frame size code, optional interface bytes and historical bytes. */
  datatype Ats = Ats(tl: bv8, fsci: bv8, ta: Option<bv8>, tb: Option<Tb>, tc: Option<bv8>, historical: Frame)

  /** The interface byte TB: frame waiting time integer and start-up frame guard time integer. */
  datatype Tb = Tb(fwi: bv8, sfgi: bv8)

  function TbByte(tb: Option<Tb>): Option<bv8> {
    if tb.Some? then Some(16 * tb.value.fwi + tb.value.sfgi) else None
  }

  function Optional(b: Option<bv8>): Frame { if b.Some? then [b.value] else [] }

  function Interface(a: Ats): Frame { Optional(a.ta) + Optional(TbByte(a.tb)) + Optional(a.tc) }

  predicate WellFormed(a: Ats) {
    && a.fsci <= 8 && a.tl as nat == 2 + |Interface(a)| + |a.historical|
    && (a.tb.Some? ==> a.tb.value.fwi < 16 && a.tb.value.sfgi < 16)
  }

  function T0(a: Ats): bv8 {
    a.fsci | (if a.ta.Some? then 0x10 else 0) | (if a.tb.Some? then 0x20 else 0) | (if a.tc.Some? then 0x40 else 0)
  }

  function Encode(a: Ats): Frame
    requires WellFormed(a)
  {
    [a.tl, T0(a)] + Interface(a) + a.historical
  }

  lemma T0Bits(a: Ats)
    requires a.fsci <= 8
    ensures T0(a) & 0x0f == a.fsci && a.fsci as nat <= 8
    ensures HasTa(T0(a)) == a.ta.Some? && HasTb(T0(a)) == a.tb.Some? && HasTc(T0(a)) == a.tc.Some?
  {
  }

  lemma Layout(tl: bv8, t0: bv8, i: Frame, h: Frame, trailer: Frame)
    ensures var ats := [tl, t0] + i + h + trailer;
            && At(ats, 0) == tl && At(ats, 1) == t0
            && (forall k :: 0 <= k < |i| ==> At(ats, 2 + k) == i[k])
            && ats[2 + |i|..2 + |i| + |h|] == h
  {
  }

  /** Where the parts of an encoded answer end up. */
  lemma EncodedAt(a: Ats, trailer: Frame)
    requires WellFormed(a)
    ensures var ats := Encode(a) + trailer;
            var n := 2 + |Interface(a)| + |a.historical|;
            && n <= |ats| && AtsLength(ats) == n && At(ats, 1) == T0(a) && Fsci(ats) == a.fsci as nat <= 8
            && (forall k :: 0 <= k < |Interface(a)| ==> At(ats, 2 + k) == Interface(a)[k])
            && ats[2 + |Interface(a)|..n] == a.historical
  {
    T0Bits(a);
    hide T0;
    hide Interface;
    Layout(a.tl, T0(a), Interface(a), a.historical, trailer);
    hide At;
  }

  lemma InterfaceAt(a: Ats)
    ensures var i := Interface(a);
            var tb := TbByte(a.tb);
            && |i| == |Optional(a.ta)| + |Optional(tb)| + |Optional(a.tc)|
            && (a.ta.Some? ==> i[0] == a.ta.value)
            && (a.tb.Some? ==> i[|Optional(a.ta)|] == tb.value)
            && (a.tc.Some? ==> i[|Optional(a.ta)| + |Optional(tb)|] == a.tc.value)
  {
  }

  /** The handle fields `q` say what the answer `a` says, over the previous fields `p`. Without TB
      the waiting time keeps the value it had. */
  ghost predicate Recovered(a: Ats, p: Params, mtu: nat, q: Params)
    requires a.fsci as nat <= 8
  {
    && q.fsc == (if SizeOfCode(a.fsci as nat) > mtu then mtu else SizeOfCode(a.fsci as nat))
    && q.ta == (if a.ta.Some? then a.ta.value else 0)
    && q.fwt == (if a.tb.None? then p.fwt
                 else 302 * Pow2(if a.tb.value.fwi as nat > 14 then 14 else a.tb.value.fwi as nat))
    && q.nadSupported == (p.nadSupported || (a.tc.Some? && a.tc.value & 0x01 != 0))
    && q.cidSupported == (p.cidSupported || (a.tc.Some? && a.tc.value & 0x02 != 0))
  }

  /** The waiting time integer is the upper half of TB. */
  lemma TbRecovered(tb: Tb)
    requires tb.fwi < 16 && tb.sfgi < 16
    ensures var n := tb.fwi as nat;
            FwiToFwt(Fwi(TbByte(Some(tb)).value)) == 302 * Pow2(if n > 14 then 14 else n)
  {
    var b := 16 * tb.fwi + tb.sfgi;
    assert b >> 4 == tb.fwi;
    FwtBounds(tb.fwi as nat);
    hide FwiToFwt;
  }

  lemma SizeRecovered(ats: Frame, code: nat, fsc: nat, mtu: nat)
    requires Fsci(ats) == code <= 8
    ensures CardFrameSize(ats, fsc, mtu) == (if SizeOfCode(code) > mtu then mtu else SizeOfCode(code))
  {
    TableIsStandard();
  }

  /** Where the interface bytes of an encoded answer end up. */
  lemma InterfaceIn(a: Ats, trailer: Frame)
    requires WellFormed(a)
    ensures var ats := Encode(a) + trailer;
            var tb := TbByte(a.tb);
            && |Interface(a)| == |Optional(a.ta)| + |Optional(tb)| + |Optional(a.tc)|
            && (a.ta.Some? ==> At(ats, 2) == a.ta.value)
            && (a.tb.Some? ==> At(ats, 2 + |Optional(a.ta)|) == tb.value)
            && (a.tc.Some? ==> At(ats, 2 + |Optional(a.ta)| + |Optional(tb)|) == a.tc.value)
  {
    EncodedAt(a, trailer);
    InterfaceAt(a);
    hide Encode;
    hide Interface;
    hide At;
    hide T0;
  }

  lemma FieldsRecovered(a: Ats, p: Params, trailer: Frame, mtu: nat)
    requires WellFormed(a)
    ensures var ats := Encode(a) + trailer;
            && Parsable(ats) && AtsLength(ats) == 2 + |Interface(a)| + |a.historical|
            && var q := Parsed(p, ats, mtu);
               q.Some? && Recovered(a, p, mtu, q.value) && q.value.historicalAt == 2 + |Interface(a)|
  {
    var ats, tb := Encode(a) + trailer, TbByte(a.tb);
    T0Bits(a);
    EncodedAt(a, trailer);
    InterfaceIn(a, trailer);
    SizeRecovered(ats, a.fsci as nat, p.fsc, mtu);
    assert tb.Some? <==> a.tb.Some?;
    if a.tb.Some? {
      TbRecovered(a.tb.value);
    }
    hide CardFrameSize;
    hide T0;
    hide SizeOfCode;
    hide TbByte;
    hide Pow2;
    hide FwiToFwt;
    hide Encode;
    hide Interface;
    hide At;
    hide AtsLength;
    hide HasTa;
    hide HasTb;
    hide HasTc;
    hide Fsci;
    hide Fwi;
  }

  /** Parsing what a card encodes, followed by anything, recovers every field and exactly the
      historical bytes. */
  lemma ParseRecovers(a: Ats, p: Params, trailer: Frame, mtu: nat)
    requires WellFormed(a)
    ensures var ats := Encode(a) + trailer;
            && Parsable(ats)
            && var q := Parsed(p, ats, mtu);
               && q.Some? && Recovered(a, p, mtu, q.value)
               && q.value.historicalAt + q.value.historicalLen <= |ats|
               && ats[q.value.historicalAt..q.value.historicalAt + q.value.historicalLen] == a.historical
  {
    var ats := Encode(a) + trailer;
    FieldsRecovered(a, p, trailer, mtu);
    EncodedAt(a, trailer);
    HistoricalLength(p, ats, mtu);
    hide Parsed;
    hide Recovered;
    hide Encode;
    hide Interface;
    hide AtsLength;
  }

  lemma HistoricalLength(p: Params, ats: Frame, mtu: nat)
    requires 2 <= AtsLength(ats) && Parsable(ats)
    ensures var q := Parsed(p, ats, mtu);
            q.Some? && (q.value.historicalAt <= AtsLength(ats) ==> q.value.historicalLen == AtsLength(ats) - q.value.historicalAt)
  {
  }

  /** A bare TL stands for a frame size of 32, the same divisor in both directions and waiting time
      integer 4, and leaves everything else alone. */
  lemma BareAnswer(p: Params, ats: Frame, mtu: nat)
    requires Parsable(ats) && AtsLength(ats) == 1
    ensures Parsed(p, ats, mtu) == Some(p.(fsc := 32, ta := 0x80, fwt := 4832))
  {
    WaitingTimeFits(4, 1);
    assert Pow2(4) == 16;
    hide FwiToFwt;
  }

  /** Length of the part of an answer that T0 announces: TL, T0 and the interface bytes. */
  function AnnouncedLength(ats: Frame): nat {
    var t0 := At(ats, 1);
    2 + (if t0 & 0x10 != 0 then 1 else 0) + (if t0 & 0x20 != 0 then 1 else 0) + (if t0 & 0x40 != 0 then 1 else 0)
  }

  /** The slice of historical bytes lies within the answer, and ends where it ends, exactly when the
      interface bytes announced by T0 fit into it; otherwise its length has wrapped around. */
  lemma HistoricalInBoundsIff(p: Params, ats: Frame, mtu: nat)
    requires 2 <= AtsLength(ats) && |ats| <= 256 && Parsable(ats)
    ensures var q := Parsed(p, ats, mtu).value;
            && (q.historicalAt + q.historicalLen == AtsLength(ats) <==> AnnouncedLength(ats) <= AtsLength(ats))
            && (q.historicalAt + q.historicalLen <= |ats| <==> AnnouncedLength(ats) <= AtsLength(ats))
            && (AnnouncedLength(ats) > AtsLength(ats) ==>
                  q.historicalLen == WORD - (AnnouncedLength(ats) - AtsLength(ats)))
  {
    HistoricalFields(p, ats, mtu);
    hide Parsed;
    hide Parsable;
    hide AnnouncedLength;
    hide AtsLength;
    Wraps(AtsLength(ats) - AnnouncedLength(ats));
  }

  lemma HistoricalFields(p: Params, ats: Frame, mtu: nat)
    requires 2 <= AtsLength(ats) && Parsable(ats)
    ensures var q := Parsed(p, ats, mtu);
            && q.Some? && q.value.historicalAt == AnnouncedLength(ats) <= 5
            && q.value.historicalLen == (AtsLength(ats) - AnnouncedLength(ats)) % WORD
  {
    hide FwiToFwt;
    hide At;
    hide AtsLength;
    hide CardFrameSize;
  }

  lemma Wraps(x: int)
    requires -WORD <= x < WORD
    ensures x % WORD == if x >= 0 then x else x + WORD
  {
  }

  /** A two-byte answer that announces TA, TB and TC: the historical bytes number 2^32 - 3. */
  lemma HistoricalWraps(p: Params, mtu: nat)
    ensures var ats := [0x02, 0x75];
            Parsable(ats) && Parsed(p, ats, mtu).value.historicalLen == WORD - 3
  {
    var ats: Frame := [0x02, 0x75];
    assert At(ats, 0) == 0x02 && At(ats, 1) == 0x75;
    assert AtsLength(ats) == 2 && Fsci(ats) == 5;
  }

  /** On a new handle parsing leaves a waiting time exactly when the answer is a bare TL or has a TB. */
  lemma WaitingTimeSetIff(ats: Frame, mtu: nat)
    requires Parsable(ats) && AtsLength(ats) >= 1
    ensures Parsed(FRESH, ats, mtu).value.fwt > 0 <==> AtsLength(ats) == 1 || At(ats, 1) & 0x20 != 0
  {
    assert HasTb(At(ats, 1)) <==> At(ats, 1) & 0x20 != 0;
    FwtInRange(4);
    FwtInRange(Fwi(At(ats, 2)));
    FwtInRange(Fwi(At(ats, 3)));
    hide FwiToFwt;
    hide HasTa;
    hide HasTb;
    hide HasTc;
    hide Fwi;
    hide At;
    hide AtsLength;
  }

  /** A two-byte answer without interface bytes: a usable frame size, and no waiting time at all. */
  lemma WaitingTimeMissing()
    ensures var ats := [0x02, 0x05];
            && Parsable(ats)
            && var q := Parsed(FRESH, ats, 64).value; q.fsc == 64 && q.fwt == 0 != FwiToFwt(4)
  {
    var ats: Frame := [0x02, 0x05];
    assert At(ats, 0) == 0x02 && At(ats, 1) == 0x05;
    assert AtsLength(ats) == 2 && Fsci(ats) == 5;
    FwtInRange(4);
    hide FwiToFwt;
  }

  /** Parsing keeps the frame size within the driver's buffers and the waiting time within its range. */
  lemma ParsedBounds(p: Params, ats: Frame, mtu: nat)
    requires Parsable(ats) && AtsLength(ats) >= 1 && mtu <= MAX_FRAMELEN
    requires p.fsc <= MAX_FRAMELEN && p.fwt <= MAX_FWT
    ensures var q := Parsed(p, ats, mtu).value; q.fsc <= MAX_FRAMELEN && q.fwt <= MAX_FWT
  {
    FwtInRange(4);
    FwtInRange(Fwi(At(ats, 2)));
    FwtInRange(Fwi(At(ats, 3)));
    hide FwiToFwt;
    hide HasTa;
    hide HasTb;
    hide HasTc;
    hide Fwi;
    hide At;
    hide AtsLength;
  }

  lemma ParsedSomeIff(p: Params, ats: Frame, mtu: nat)
    requires Parsable(ats)
    ensures Parsed(p, ats, mtu).Some? <==> AtsLength(ats) >= 1
  {
  }

  /** An answer that yields a frame size: a bare TL, or an FSCI in the table. */
  predicate SizedAnswer(ats: Frame) { AtsLength(ats) == 1 || (AtsLength(ats) >= 2 && Fsci(ats) <= 8) }

  /** On a fresh handle the negotiated frame size is usable exactly when the answer is a bare TL or
      its FSCI is in the table. */
  lemma FrameSizeIff(p: Params, ats: Frame, mtu: nat)
    requires Parsable(ats) && AtsLength(ats) >= 1 && p.fsc == 0 && mtu >= 32
    ensures 16 <= Parsed(p, ats, mtu).value.fsc <= mtu <==> SizedAnswer(ats)
  {
  }
}
