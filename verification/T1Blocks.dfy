/**
 T=1 blocks (ISO/IEC 7816-3 section 11.3): node address, protocol control byte, length,
 information field, and a longitudinal redundancy check.
 */
module T1Blocks {

  type Tpdu = seq<bv8>

  /** Exclusive or of all bytes. */
  function Xor(s: seq<bv8>): bv8 {
    if s == [] then 0 else Xor(s[..|s| - 1]) ^ s[|s| - 1]
  }

  lemma XorSnoc(s: seq<bv8>, b: bv8)
    ensures Xor(s + [b]) == Xor(s) ^ b
  {
    assert (s + [b])[..|s|] == s;
  }

  predicate IsBit(m: bv8) {
    m == 0x01 || m == 0x02 || m == 0x04 || m == 0x08 || m == 0x10 || m == 0x20 || m == 0x40 || m == 0x80
  }

  /** Number of bytes in which a bit is set. */
  function Ones(s: seq<bv8>, bit: bv8): nat {
    if s == [] then 0 else Ones(s[..|s| - 1], bit) + (if s[|s| - 1] & bit != 0 then 1 else 0)
  }

  /** Every bit is set in an even number of bytes. */
  ghost predicate EvenParity(s: seq<bv8>) { forall bit :: IsBit(bit) ==> Ones(s, bit) % 2 == 0 }

  /** A bit of the exclusive or is the parity of the number of bytes that have it. */
  lemma {:induction false} XorIsParity(s: seq<bv8>, bit: bv8)
    requires IsBit(bit)
    ensures Xor(s) & bit != 0 <==> Ones(s, bit) % 2 == 1
    decreases |s|
  {
    if s != [] {
      var front, last := s[..|s| - 1], s[|s| - 1];
      XorIsParity(front, bit);
      XorBit(Xor(front), last, bit);
    }
  }

  lemma XorIsParityAll(s: seq<bv8>)
    ensures forall bit :: IsBit(bit) ==> (Xor(s) & bit != 0 <==> Ones(s, bit) % 2 == 1)
  {
    forall bit | IsBit(bit) ensures Xor(s) & bit != 0 <==> Ones(s, bit) % 2 == 1 {
      XorIsParity(s, bit);
    }
  }

  lemma XorBit(a: bv8, b: bv8, bit: bv8)
    requires IsBit(bit)
    ensures (a ^ b) & bit != 0 <==> (a & bit != 0) != (b & bit != 0)
  {
  }

  /** The LEN byte counts the information field, and every bit is set in an even number of bytes. */
  ghost predicate WellFormed(t: Tpdu) {
    4 <= |t| <= 258 && t[2] == (|t| - 4) as bv8 && EvenParity(t)
  }

  function Inf(t: Tpdu): seq<bv8>
    requires |t| >= 4
  {
    t[3..|t| - 1]
  }

  function Prologue(nad: bv8, pcb: bv8, inf: seq<bv8>): seq<bv8>
    requires |inf| <= 254
  {
    [nad, pcb, |inf| as bv8] + inf
  }

  /** A complete block. */
  function Block(nad: bv8, pcb: bv8, inf: seq<bv8>): Tpdu
    requires |inf| <= 254
  {
    var body := Prologue(nad, pcb, inf);
    body + [Xor(body)]
  }

  /** Every block put together this way is well formed and can be taken apart again. */
  lemma BlockWellFormed(nad: bv8, pcb: bv8, inf: seq<bv8>)
    requires |inf| <= 254
    ensures var t := Block(nad, pcb, inf);
            WellFormed(t) && t[0] == nad && t[1] == pcb && Inf(t) == inf
  {
    var body := Prologue(nad, pcb, inf);
    var t := Block(nad, pcb, inf);
    XorSnoc(body, Xor(body));
    XorIsParityAll(t);
    hide Xor;
    hide Ones;
    assert t[..|body|] == body;
    assert body[3..] == inf;
  }

  predicate IsI(pcb: bv8) { pcb & 0x80 == 0 }
  predicate IsR(pcb: bv8) { pcb & 0xc0 == 0x80 }
  predicate SendNumber(pcb: bv8) { pcb & 0x40 != 0 }
  predicate More(pcb: bv8) { pcb & 0x20 != 0 }
  predicate ReceiveNumber(pcb: bv8) { pcb & 0x10 != 0 }

  /** Where the fields of a PCB lie: I-blocks below 0x80 with the send number in bit 6 and the more bit
      in bit 5, R-blocks from 0x80 to 0xbf with the receive number in bit 4. */
  lemma PcbFields(pcb: bv8)
    ensures IsI(pcb) <==> pcb < 0x80
    ensures IsR(pcb) <==> 0x80 <= pcb < 0xc0
    ensures SendNumber(pcb) <==> pcb % 128 >= 64
    ensures More(pcb) <==> pcb % 64 >= 32
    ensures ReceiveNumber(pcb) <==> pcb % 32 >= 16
  {
  }

  function IPcb(ns: bool, more: bool): (pcb: bv8)
    ensures IsI(pcb) && SendNumber(pcb) == ns && More(pcb) == more && pcb & 0x9f == 0x00
  {
    (if ns then 0x40 else 0x00) | (if more then 0x20 else 0x00)
  }

  function RPcb(nr: bool, error: bv8): (pcb: bv8)
    requires error <= 2
    ensures !IsI(pcb) && IsR(pcb) && ReceiveNumber(pcb) == nr && pcb & 0x0f == error && pcb & 0xe0 == 0x80
  {
    0x80 | (if nr then 0x10 else 0x00) | error
  }

  const WTX_REQUEST: bv8 := 0xc3
  const WTX_RESPONSE: bv8 := 0xe3
  const IFSD_REQUEST: bv8 := 0xc1

  /** An R-block whose error bits ask for the last block again. */
  predicate IsRejection(t: Tpdu) { |t| >= 4 && t[1] & 0xc0 == 0x80 && t[1] & 0x0f != 0 }

  /** An S-block that is not a request for more time. */
  predicate OtherSupervisory(t: Tpdu) {
    |t| >= 4 && t[1] & 0xc0 == 0xc0 && (t[1] != 0xc3 || t[2] == 0)
  }
}
