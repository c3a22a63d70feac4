/**
 Block formats of ISO/IEC 14443-4 section 7.1, as used by the T=CL protocol driver:
 one prologue byte (PCB), neither CID nor NAD in frames sent by the reader.
 */
module TclBlocks {

  type Frame = seq<bv8>

  /** Size of the driver's frame buffers. */
  const MAX_FRAMELEN := 256

  /** What was put on the air: the frame, the time allowed for the reply, and the
      handle's block number while the reply is awaited. */
  datatype Sent = Sent(frame: Frame, timeout: nat, toggle: bool)

  predicate IsI(pcb: bv8) { pcb & 0xc0 == 0x00 }
  predicate IsR(pcb: bv8) { pcb & 0xc0 == 0x80 }
  predicate IsS(pcb: bv8) { pcb & 0xc0 == 0xc0 }

  predicate BlockNumber(pcb: bv8) { pcb & 0x01 != 0 }
  predicate Chained(pcb: bv8) { pcb & 0x10 != 0 }
  predicate HasCid(pcb: bv8) { pcb & 0x08 != 0 }
  predicate HasNad(pcb: bv8) { pcb & 0x04 != 0 }

  /** Where the fields of a PCB lie: the kind in the upper two bits, then, downwards from bit 5,
      chaining, CID and NAD flags, and the block number in the lowest bit. */
  lemma PcbFields(pcb: bv8)
    ensures IsI(pcb) <==> pcb < 0x40
    ensures IsR(pcb) <==> 0x80 <= pcb < 0xc0
    ensures IsS(pcb) <==> 0xc0 <= pcb
    ensures Chained(pcb) <==> pcb % 32 >= 16
    ensures HasCid(pcb) <==> pcb % 16 >= 8
    ensures HasNad(pcb) <==> pcb % 8 >= 4
    ensures BlockNumber(pcb) <==> pcb % 2 == 1
  {
  }

  function IPcb(bn: bool, more: bool): (pcb: bv8)
    ensures IsI(pcb) && !IsR(pcb) && !IsS(pcb) && !HasCid(pcb) && !HasNad(pcb)
    ensures BlockNumber(pcb) == bn && Chained(pcb) == more && pcb & 0xee == 0x02
  {
    0x02 | (if bn then 0x01 else 0x00) | (if more then 0x10 else 0x00)
  }

  function AckPcb(bn: bool): (pcb: bv8)
    ensures IsR(pcb) && !IsI(pcb) && !IsS(pcb) && !HasCid(pcb) && BlockNumber(pcb) == bn && pcb & 0xfe == 0xa2
  {
    0xa2 | (if bn then 0x01 else 0x00)
  }

  const WTX_PCB: bv8 := 0xf2

  /** The receive buffer is cleared before every exchange, so bytes beyond the frame read as zero. */
  function At(r: Frame, i: nat): bv8 { if i < |r| then r[i] else 0 }

  /** Length of the prologue announced by a received PCB. */
  function HeaderLen(pcb: bv8): nat {
    1 + (if HasCid(pcb) then 1 else 0) + (if HasNad(pcb) then 1 else 0)
  }

  /** A received I-block is at least as long as the prologue it announces. */
  predicate Whole(r: Frame) {
    IsI(At(r, 0)) ==> |r| >= HeaderLen(At(r, 0))
  }

  function Payload(r: Frame): Frame
    requires IsI(At(r, 0)) && Whole(r)
  {
    r[HeaderLen(r[0])..]
  }

  /** A received I-block put together from a PCB, a CID and a NAD where its flags announce them, and an
      information field is whole, and its payload is that field. */
  lemma PayloadRecovers(pcb: bv8, cid: Frame, nad: Frame, inf: Frame)
    requires pcb & 0xc0 == 0
    requires |cid| == (if pcb & 0x08 != 0 then 1 else 0) && |nad| == (if pcb & 0x04 != 0 then 1 else 0)
    ensures var r := [pcb] + cid + nad + inf; Whole(r) && IsI(At(r, 0)) && Payload(r) == inf
  {
    var r := [pcb] + cid + nad + inf;
    assert At(r, 0) == pcb;
    assert r[1 + |cid| + |nad|..] == inf;
  }

  predicate CidOk(cid: bv8, r: Frame) { HasCid(At(r, 0)) ==> At(r, 1) == cid }
}
