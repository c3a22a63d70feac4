/**
 Outgoing segmentation: what repeated refills make of one message.
 */
module TclSegments {
  import opened Common
  import opened TclBlocks
  import opened TclSpec

  /** Number of I-blocks needed for `n` bytes. */
  function Segments(cfg: Config, n: nat): nat
    requires 2 <= cfg.fsc
    decreases n
  {
    if n == 0 then 0 else 1 + Segments(cfg, n - if n > cfg.fsc - 1 then cfg.fsc - 1 else n)
  }

  lemma {:induction false} SegmentsBounds(cfg: Config, n: nat)
    requires 2 <= cfg.fsc
    ensures var d, q := cfg.fsc - 1, Segments(cfg, n); d * q <= n + d - 1 < d * q + d
    decreases n
  {
    var d := cfg.fsc - 1;
    if n > 0 {
      var rest := if n > d then n - d else 0;
      SegmentsBounds(cfg, rest);
      assert d * (1 + Segments(cfg, rest)) == d + d * Segments(cfg, rest);
    }
  }

  /** The number of I-blocks is the quotient of the length by the net frame size, rounded up. */
  lemma SegmentsIsCeiling(cfg: Config, n: nat)
    requires 2 <= cfg.fsc
    ensures Segments(cfg, n) == (n + cfg.fsc - 2) / (cfg.fsc - 1)
  {
    SegmentsBounds(cfg, n);
    QuotientUnique(n + cfg.fsc - 2, cfg.fsc - 1, Segments(cfg, n));
  }

  /** The frames obtained by refilling until the message is used up. */
  function Refills(cfg: Config, toggle: bool, todo: Frame): seq<Sent>
    requires 2 <= cfg.fsc
    decreases |todo|
  {
    match Refill(cfg, toggle, todo, [])
    case Stop(_, _, _, _) => []
    case Send(s) => [Sent(s.frame, s.timeout, s.toggle)] + Refills(cfg, s.toggle, s.todo)
  }

  /** The data a frame carries towards the card. */
  function Carries(frame: Frame): Frame { if frame != [] && IsI(frame[0]) then frame[1..] else [] }

  /** The information fields of the I-blocks among `sent`, in order. */
  function Outgoing(sent: seq<Sent>): Frame {
    if sent == [] then [] else Carries(sent[0].frame) + Outgoing(sent[1..])
  }

  /** Frame `i` of `n`, when the block number before the first one was `toggle`. */
  predicate SegmentOk(cfg: Config, toggle: bool, i: nat, n: nat, x: Sent) {
    && 2 <= |x.frame| <= cfg.fsc
    && x.frame[0] == 0x02 | (if toggle != (i % 2 == 0) then 0x01 else 0x00) | (if i + 1 < n then 0x10 else 0x00)
    && x.timeout == cfg.fwt
  }

  lemma RefillOk(cfg: Config, toggle: bool, todo: Frame)
    requires 2 <= cfg.fsc && todo != []
    ensures var s := Refill(cfg, toggle, todo, []).state;
            && 2 <= |s.frame| <= cfg.fsc && s.frame[0] == IPcb(!toggle, s.todo != []) && s.timeout == cfg.fwt
            && s.toggle == !toggle && s.frame[1..] + s.todo == todo
            && Segments(cfg, |todo|) == 1 + Segments(cfg, |s.todo|)
  {
  }

  ghost predicate AllSegmentsOk(cfg: Config, toggle: bool, fs: seq<Sent>) {
    forall i :: 0 <= i < |fs| ==> SegmentOk(cfg, toggle, i, |fs|, fs[i])
  }

  lemma SegmentsCons(cfg: Config, toggle: bool, x: Sent, rest: seq<Sent>)
    requires SegmentOk(cfg, toggle, 0, 1 + |rest|, x) && AllSegmentsOk(cfg, !toggle, rest)
    ensures AllSegmentsOk(cfg, toggle, [x] + rest)
  {
    var fs := [x] + rest;
    forall i | 0 <= i < |fs|
      ensures SegmentOk(cfg, toggle, i, |fs|, fs[i])
    {
      if i > 0 {
        assert SegmentOk(cfg, !toggle, i - 1, |rest|, rest[i - 1]);
      }
    }
  }

  /** Without a frame size a message of any length the driver can count goes out in one piece. */
  lemma UnsizedRefill(cfg: Config, toggle: bool, msg: Frame)
    requires cfg.fsc == 0 && 1 <= |msg| < WORD
    ensures Refill(cfg, toggle, msg, []) == Send(State(!toggle, [], [], [if toggle then 0x02 else 0x03] + msg, cfg.fwt))
  {
    assert msg[|msg|..] == [] && msg[..|msg|] == msg;
  }

  /** Segmentation of a whole message: nothing lost, added or reordered; no frame over `fsc`; the
      chaining bit on all frames but the last; alternating block numbers; and as many frames as
      `SegmentsIsCeiling` counts. */
  lemma {:induction false} Segmentation(cfg: Config, toggle: bool, msg: Frame)
    requires 2 <= cfg.fsc
    ensures var fs := Refills(cfg, toggle, msg);
            |fs| == Segments(cfg, |msg|) && AllSegmentsOk(cfg, toggle, fs) && Outgoing(fs) == msg
    decreases |msg|
  {
    if msg != [] {
      RefillOk(cfg, toggle, msg);
      var s := Refill(cfg, toggle, msg, []).state;
      Segmentation(cfg, s.toggle, s.todo);
      var fs, rest := Refills(cfg, toggle, msg), Refills(cfg, s.toggle, s.todo);
      var x := Sent(s.frame, s.timeout, s.toggle);
      assert fs == [x] + rest && Carries(x.frame) == s.frame[1..];
      hide Refill;
      hide AllSegmentsOk;
      hide Carries;
      assert |rest| == 0 <==> s.todo == [];
      SegmentsCons(cfg, toggle, x, rest);
      assert fs[1..] == rest;
    }
  }
}
