/**
 Handing a frame to the RC632: its 64-byte FIFO is loaded once, and topped up while the rest of
 a longer frame is on its way.
 */
module Rc632Fifo {
  import opened Common
  import opened TclBlocks

  const FIFO := 64

  /** Part of `tx` written by a burst of `len` bytes at `cur`; bytes past the end are not modelled. */
  function Burst(tx: Frame, cur: nat, len: nat): Frame {
    var end := if cur + len > |tx| then |tx| else cur + len;
    if cur > |tx| then [] else tx[cur..end]
  }

  /** The FIFO levels read back leave room for `need` more bytes before one of them reports a full
      FIFO or reading them fails. */
  ghost predicate Drains(fills: seq<nat>, need: int) {
    need <= 0 || (fills != [] && fills[0] < 64 && Drains(fills[1..], need - (64 - fills[0])))
  }

  /** The writes carry the first `cur` bytes of `tx`, as far as it has them. */
  ghost predicate Carry(tx: Frame, writes: seq<Frame>, cur: nat) {
    Flatten(writes) == Burst(tx, 0, cur) && forall w <- writes :: |w| <= FIFO
  }

  lemma BurstJoins(tx: Frame, writes: seq<Frame>, cur: nat, len: nat)
    requires Carry(tx, writes, cur) && len <= FIFO
    ensures Carry(tx, writes + [Burst(tx, cur, len)], cur + len)
  {
    FlattenSnoc(writes, Burst(tx, cur, len));
    hide Flatten;
  }

  lemma Carried(tx: Frame, writes: seq<Frame>, cur: nat)
    requires Carry(tx, writes, cur) && writes != []
    ensures Flatten(writes) <= tx && (Flatten(writes) == tx <==> cur >= |tx|)
    ensures writes == [tx] <==> |tx| <= FIFO && |writes| == 1 && cur >= |tx|
    ensures forall w <- writes :: |w| <= FIFO
  {
    FlattenSnoc([], writes[0]);
    hide Flatten;
    assert |writes| == 1 ==> writes == [writes[0]];
    assert writes == [tx] ==> tx in writes;
  }

  lemma DrainsStep(fills: seq<nat>, k: nat, need: int)
    requires k <= |fills|
    ensures k < |fills| ==> fills[k] in fills
    ensures Drains(fills[k..], need) <==>
              need <= 0 || (k < |fills| && fills[k] < FIFO && Drains(fills[k + 1..], need - (FIFO - fills[k])))
  {
    if k < |fills| {
      assert fills[k..][1..] == fills[k + 1..];
    }
  }

  /** The writes of one transceive. The frame length is truncated to a byte on entry; `fills` are the
      FIFO levels read back, and reading more of them than there are ends the loop with an error. */
  method WriteFifo(tx: Frame, fills: seq<nat>) returns (writes: seq<Frame>)
    requires forall f <- fills :: f <= FIFO
    ensures writes == [tx] <==> |tx| <= 64
    ensures 1 <= |writes| <= |fills| + 1 && forall w <- writes :: |w| <= 64
    ensures Flatten(writes) <= tx
    ensures |tx| < 256 ==> (Flatten(writes) == tx <==> Drains(fills, |tx| - 64))
  {
    var total := |tx| % 256;
    var len, cur: nat, k: nat, more := if total > FIFO then FIFO else total, 0, 0, true;
    writes := [];
    assert fills[0..] == fills;
    ghost var drains := Drains(fills, total - FIFO);
    assert drains <==> Drains(fills[0..], total - len);
    assert Carry(tx, writes, cur);
    hide Carry;
    hide Burst;
    hide Flatten;
    hide Drains;
    while more
      invariant k <= |fills| && 0 <= len <= FIFO && (k > 0 ==> total > FIFO)
      invariant if more then |writes| == k else 1 <= |writes| <= k + 1
      invariant more && k == 0 ==> cur == 0 && len == (if total > FIFO then FIFO else total)
      invariant Carry(tx, writes, cur)
      invariant drains <==> if more then Drains(fills[k..], total - cur - len) else cur >= total
      decreases |fills| - k, more
    {
      BurstJoins(tx, writes, cur, len);
      writes := writes + [Burst(tx, cur, len)];
      cur := cur + len;
      more := false;
      DrainsStep(fills, k, total - cur);
      if cur < total && k < |fills| {
        len := FIFO - fills[k];
        k := k + 1;
        more := len != 0;
      }
    }
    Carried(tx, writes, cur);
  }
}
