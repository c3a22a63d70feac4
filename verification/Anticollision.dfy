/**
 Type A anticollision and selection (ISO/IEC 14443-3 section 6.4): bit-exact completion of a
 cascade level's frame, and assembly of the UID over up to three cascade levels.
 */
module Anticollision {
  import opened Common

  type Bytes = seq<bv8>

  // ----- completing one cascade level -----

  /** Whole bytes and extra bits of the sent part, as coded in a "number of valid bits" byte. */
  function NvbBytes(nvb: bv8): nat { ((nvb >> 4) & 0x07) as nat }
  function NvbBits(nvb: bv8): (k: nat)
    ensures k < 8
  {
    assert nvb & 0x07 <= 7;
    (nvb & 0x07) as nat
  }

  method CodeNvb(bits: nat) returns (nvb: Option<bv8>)
    ensures nvb.Some? <==> 2 <= bits / 8 <= 7
    ensures nvb.Some? ==> NvbBytes(nvb.value) == bits / 8 && NvbBits(nvb.value) == bits % 8
    ensures nvb.Some? ==> nvb.value as nat == 16 * (bits / 8) + bits % 8
  {
    var bytes, extra := bits / 8, bits % 8;
    if bytes < 2 || bytes > 7 {
      return None;
    }
    NvbRoundTrip(bytes, extra);
    nvb := Some((((bytes as bv8) & 0xf) << 4) | (extra as bv8));
  }

  lemma NvbRoundTrip(bytes: nat, extra: nat)
    requires 2 <= bytes <= 7 && extra < 8
    ensures var nvb: bv8 := (((bytes as bv8) & 0xf) << 4) | (extra as bv8);
            NvbBytes(nvb) == bytes && NvbBits(nvb) == extra && nvb as nat == 16 * bytes + extra
  {
    assert bytes == 2 || bytes == 3 || bytes == 4 || bytes == 5 || bytes == 6 || bytes == 7;
    assert extra == 0 || extra == 1 || extra == 2 || extra == 3 || extra == 4 || extra == 5 || extra == 6 || extra == 7;
  }

  /** Bits 0..k-1 of a byte. */
  function LowMask(k: nat): (m: bv8)
    requires k <= 8
    ensures m == [0x00, 0x01, 0x03, 0x07, 0x0f, 0x1f, 0x3f, 0x7f, 0xff][k]
  {
    0xff >> (8 - k)
  }

  /** `uid` starts with the first `known` bits of `card`, least significant bit first. */
  predicate KnownBits(uid: Bytes, card: Bytes, known: nat)
    requires |uid| == |card| == 5 && known < 40
  {
    && uid[..known / 8] == card[..known / 8]
    && uid[known / 8] & LowMask(known % 8) == card[known / 8] & LowMask(known % 8)
  }

  /** Bits k..7 of a byte, the others zero. */
  function HighBits(b: bv8, k: nat): (h: bv8)
    requires k <= 8
    ensures h & LowMask(k) == 0 && h | (b & LowMask(k)) == b
  {
    b & (0xff << k)
  }

  /** What the chip receives from a single card after sending `known` bits: the rest of its frame,
      the split byte aligned at the bit where the reader stopped. */
  function Remainder(card: Bytes, known: nat): Bytes
    requires |card| == 5 && known < 40
  {
    [HighBits(card[known / 8], known % 8)] + card[known / 8 + 1..]
  }

  /** A byte of which the low `k` bits were known, completed with received bits. */
  function Joined(mine: bv8, k: nat, received: bv8): bv8
    requires k <= 8
  {
    (mine & LowMask(k)) | received
  }

  lemma SplitByte(mine: bv8, card: bv8, k: nat)
    requires k < 8 && mine & LowMask(k) == card & LowMask(k)
    ensures Joined(mine, k, HighBits(card, k)) == card
  {
  }

  /** The frame after splicing `rx` in at byte `at`, of which the low `k` bits were already there.
      Nothing received leaves the later bytes as they were. */
  function Merged(uid: Bytes, at: nat, k: nat, rx: Bytes): Bytes
    requires k <= 8 && at < |uid| && at + |rx| <= |uid|
  {
    if rx == [] then uid[at := Joined(uid[at], k, 0)]
    else uid[..at] + [Joined(uid[at], k, rx[0])] + rx[1..] + uid[at + |rx|..]
  }

  method CopyInto(uid: array<bv8>, at: nat, src: Bytes)
    requires at + |src| <= uid.Length
    modifies uid
    ensures uid[..] == old(uid[..at]) + src + old(uid[at + |src|..])
  {
    forall i | 0 <= i < |src| {
      uid[at + i] := src[i];
    }
  }

  /** Splices the received bits into the frame at the position coded in `nvb`. */
  method Merge(uid: array<bv8>, nvb: bv8, rx: Bytes)
    requires uid.Length == 5 && 2 <= NvbBytes(nvb) <= 6 && |rx| <= 7 - NvbBytes(nvb)
    modifies uid
    ensures uid[..] == Merged(old(uid[..]), NvbBytes(nvb) - 2, NvbBits(nvb), rx)
  {
    hide NvbBytes;
    hide NvbBits;
    hide Joined;
    ghost var before := uid[..];
    var at, k := NvbBytes(nvb) - 2, NvbBits(nvb);
    uid[at] := Joined(uid[at], k, if rx == [] then 0 else rx[0]);
    if rx != [] {
      assert uid[..at + 1] == before[..at] + [uid[at]];
      CopyInto(uid, at + 1, rx[1..]);
    }
  }

  /** Splicing in the remainder of a single card's frame gives the card's frame. */
  lemma RemainderCompletes(uid: Bytes, card: Bytes, known: nat)
    requires |uid| == |card| == 5 && known < 40 && KnownBits(uid, card, known)
    ensures Merged(uid, known / 8, known % 8, Remainder(card, known)) == card
  {
    var at, k := known / 8, known % 8;
    SplitByte(uid[at], card[at], k);
    hide LowMask;
    hide HighBits;
    hide Joined;
    var rx := Remainder(card, known);
    assert rx[1..] == card[at + 1..] && uid[at + |rx|..] == [];
    assert card == card[..at] + [card[at]] + card[at + 1..];
  }

  /** One anticollision exchange with a single card: whatever prefix of the card's frame is known,
      afterwards the frame is the card's, bit for bit. */
  method Complete(uid: array<bv8>, card: Bytes, known: nat)
    requires uid.Length == |card| == 5 && known < 40 && KnownBits(uid[..], card, known)
    modifies uid
    ensures uid[..] == card
  {
    hide NvbBytes;
    hide NvbBits;
    hide KnownBits;
    hide Merged;
    RemainderCompletes(uid[..], card, known);
    var nvb := CodeNvb(16 + known);
    assert (16 + known) / 8 == 2 + known / 8 && (16 + known) % 8 == known % 8;
    Merge(uid, nvb.value, Remainder(card, known));
  }
}
