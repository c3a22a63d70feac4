/**
 What the T=CL driver, the answer to select and the reader chip promise one another.
 */
module CrossLayer {
  import opened Common
  import opened TclBlocks
  import opened TclSpec
  import opened TclSafety
  import opened TclSession
  import opened TclAts
  import opened TclDriver
  import opened Rc632Fifo
  import opened Rc632Timer

  // ----- frames and the FIFO -----

  /** Each frame was handed to the chip in exactly one write that carries exactly its bytes. */
  ghost predicate Written(writes: seq<seq<Frame>>, sent: seq<Sent>) {
    |writes| == |sent| && forall i :: 0 <= i < |sent| ==> writes[i] == [sent[i].frame]
  }

  /** With a frame size within the chip's limit, every frame of every call fits the FIFO. */
  lemma FramesFitFifo(cfg: Config, toggle: bool, tx: Frame, replies: seq<Frame>)
    requires 2 <= cfg.fsc <= FIFO && AllWhole(replies)
    ensures forall x <- Call(cfg, toggle, tx, replies).sent :: 1 <= |x.frame| <= FIFO
  {
    CallIsSafe(cfg, toggle, tx, replies);
  }

  /** Every frame of every call on such a connection reaches the chip in exactly one FIFO write that
      carries exactly its bytes, whatever FIFO levels the chip would report. */
  method FramesReachChip(cfg: Config, toggle: bool, tx: Frame, replies: seq<Frame>, fills: seq<nat>)
    returns (writes: seq<seq<Frame>>)
    requires 2 <= cfg.fsc <= FIFO && AllWhole(replies) && forall f <- fills :: f <= FIFO
    ensures Written(writes, Call(cfg, toggle, tx, replies).sent)
  {
    FramesFitFifo(cfg, toggle, tx, replies);
    var sent := Call(cfg, toggle, tx, replies).sent;
    hide Call;
    writes := [];
    for i := 0 to |sent|
      invariant |writes| == i && forall k :: 0 <= k < i ==> writes[k] == [sent[k].frame]
    {
      assert sent[i] in sent;
      var w := WriteFifo(sent[i].frame, fills);
      writes := writes + [w];
    }
  }

  /** One call on a live handle, with what it makes the chip write. */
  method CallAndWrite(h: Handle, tx: Frame, replies: seq<Frame>, fills: seq<nat>)
    returns (rx: Frame, writes: seq<seq<Frame>>)
    requires h.Valid() && 2 <= h.fsc <= FIFO && AllWhole(replies) && forall f <- fills :: f <= FIFO
    modifies h`toggle, h`blockSent
    ensures h.Valid() && h.Cfg() == old(h.Cfg())
    ensures var out := Call(h.Cfg(), old(h.toggle), tx, replies);
            rx == out.rx && h.toggle == out.toggle && Written(writes, out.sent)
  {
    hide Call;
    writes := FramesReachChip(h.Cfg(), h.toggle, tx, replies, fills);
    var link := new Link(replies);
    var ret;
    ret, rx := h.Transceive(link, tx);
  }

  /** From a new handle on a chip whose FIFO bounds its frames, through activation, to any number of
      calls. If activation succeeds, the negotiated frame size lies between 16 and the FIFO's size;
      the calls return what the step machine returns from block number 1 on; every frame of every
      call reaches the chip in exactly one write of exactly its bytes; and for any conforming card,
      which rule C starts with block number 1 too, that keeps the link, the card's log of commands
      and answers is the callers' log. */
  method ActivateAndCall(link: Link, pps: int, calls: seq<Exchanges>, fills: seq<nat>)
    returns (ret: int, results: seq<Exchange>, writes: seq<seq<seq<Frame>>>, ghost cfg: Config)
    requires link.replies != [] ==>
               Parsable(link.replies[0]) && (AtsLength(link.replies[0]) >= 1 ==> SizedAnswer(link.replies[0]))
    requires (forall call <- calls :: AllWhole(call.replies)) && forall f <- fills :: f <= FIFO
    modifies link
    ensures ret >= 0 <==>
              && old(link.replies) != [] && AtsLength(old(link.replies)[0]) >= 1
              && (Parsed(FRESH, old(link.replies)[0], FIFO).value.ta & 0x77 == 0 || pps >= 0)
    ensures ret >= 0 ==> 16 <= cfg.fsc <= FIFO && cfg.fwt <= MAX_FWT && |results| == |writes| == |calls|
    ensures ret >= 0 ==>
              var outs := Outcomes(cfg, true, calls);
              forall i :: 0 <= i < |calls| ==>
                results[i] == Exchange(calls[i].tx, outs[i].rx) && Written(writes[i], outs[i].sent)
    ensures ret >= 0 ==>
              forall card :: Idle(card) && card.bn && Session(cfg, true, card, calls) ==>
                var (t, c, done) := After(cfg, true, card, calls);
                Idle(c) && c.bn == t && done == results && c.log == card.log + results
  {
    hide Call;
    hide Parsed;
    results, writes := [], [];
    var h := new Handle(FIFO, FIFO);
    ret := h.Connect(link, pps);
    cfg := h.Cfg();
    if ret < 0 {
      return;
    }
    h.EstablishedFrameSize();
    results, writes := CallAll(h, calls, fills);
    forall card | Idle(card) && card.bn && Session(cfg, true, card, calls)
      ensures var (t, c, done) := After(cfg, true, card, calls);
              Idle(c) && c.bn == t && done == results && c.log == card.log + results
    {
      SessionDelivers(cfg, true, card, calls);
      AfterIsOutcomes(cfg, true, card, calls);
    }
  }

  /** Successive calls on one handle. */
  method CallAll(h: Handle, calls: seq<Exchanges>, fills: seq<nat>)
    returns (results: seq<Exchange>, writes: seq<seq<seq<Frame>>>)
    requires h.Valid() && 2 <= h.fsc <= FIFO
    requires (forall call <- calls :: AllWhole(call.replies)) && forall f <- fills :: f <= FIFO
    modifies h`toggle, h`blockSent
    ensures h.Valid() && h.Cfg() == old(h.Cfg()) && |results| == |writes| == |calls|
    ensures var outs := Outcomes(h.Cfg(), old(h.toggle), calls);
            forall i :: 0 <= i < |calls| ==>
              results[i] == Exchange(calls[i].tx, outs[i].rx) && Written(writes[i], outs[i].sent)
  {
    hide Call;
    ghost var outs, cfg := Outcomes(h.Cfg(), h.toggle, calls), h.Cfg();
    results, writes := [], [];
    for i := 0 to |calls|
      invariant h.Valid() && h.Cfg() == cfg && |results| == |writes| == i
      invariant outs[i..] == Outcomes(cfg, h.toggle, calls[i..])
      invariant forall k :: 0 <= k < i ==>
                  results[k] == Exchange(calls[k].tx, outs[k].rx) && Written(writes[k], outs[k].sent)
    {
      assert calls[i] in calls && calls[i..][1..] == calls[i + 1..] && outs[i..][1..] == outs[i + 1..];
      var rx, w := CallAndWrite(h, calls[i].tx, calls[i].replies, fills);
      assert outs[i..][0] == outs[i];
      results, writes := results + [Exchange(calls[i].tx, rx)], writes + [w];
    }
  }

  // ----- waiting times and the timer -----

  /** The multiplier of an exchange: 1 for I- and R-blocks, the granted WTXM for S(WTX) responses. */
  ghost predicate Multiplier(x: Sent, m: nat) {
    if Numbered(x) then m == 1 else |x.frame| == 2 && x.frame[0] == 0xf2 && m == x.frame[1] as nat && 1 <= m <= 59
  }

  /** The exchange waits the waiting time times its multiplier, computed without wrap-around. */
  ghost predicate WaitsRight(fwt: nat, x: Sent) {
    exists m: nat :: Multiplier(x, m) && x.timeout == fwt * m < WORD
  }

  /** Over every call, also on a connection without a waiting time: I- and R-blocks wait exactly FWT,
      and only the exchange that grants an extension waits FWT times the multiplier it grants. */
  lemma CallWaits(cfg: Config, toggle: bool, tx: Frame, replies: seq<Frame>)
    requires cfg.fwt <= MAX_FWT && AllWhole(replies)
    ensures forall x <- Call(cfg, toggle, tx, replies).sent :: WaitsRight(cfg.fwt, x)
  {
    CallIsSafe(cfg, toggle, tx, replies);
    var sent := Call(cfg, toggle, tx, replies).sent;
    hide Call;
    forall i | 0 <= i < |sent| ensures WaitsRight(cfg.fwt, sent[i]) {
      assert Sound(cfg, sent[i]);
      SoundWaits(cfg, sent[i]);
    }
  }

  lemma SoundWaits(cfg: Config, x: Sent)
    requires cfg.fwt <= MAX_FWT && Sound(cfg, x)
    ensures WaitsRight(cfg.fwt, x)
  {
    if Numbered(x) {
      assert Multiplier(x, 1);
    } else {
      var w: bv8 :| 1 <= w <= 59 && x.frame == [0xf2, w] && x.timeout == cfg.fwt * w as nat % WORD;
      var m: nat := w as nat;
      assert Multiplier(x, m);
      hide Multiplier;
      ExtensionFits(cfg.fwt, m);
    }
  }

  lemma ExtensionFits(fwt: nat, m: nat)
    requires fwt <= MAX_FWT && m <= 59
    ensures fwt * m < WORD && fwt * m % WORD == fwt * m
  {
    MulMono(fwt, m, 59);
  }

  /** Factor by which the chip driver stretches every timeout. */
  const TIMER_RELAX := 10

  /** The chip's timer has a setting for a timeout; without one its divisor is undefined. */
  ghost predicate Served(timeout: nat) {
    exists i: nat :: i < PRESCALERS && Eligible(i, TIMER_RELAX * timeout)
  }

  lemma ServedIff(timeout: nat)
    requires timeout < WORD
    ensures Served(timeout) <==> TIMER_RELAX * timeout < USEC
  {
    EligibleIff(TIMER_RELAX * timeout);
  }

  /** The timer serves an exchange of a connection exactly when its stretched timeout stays below one
      second, a condition on the waiting time and on the multiplier the card asks for. */
  lemma TimerServesIff(cfg: Config, toggle: bool, tx: Frame, replies: seq<Frame>)
    requires cfg.fwt <= MAX_FWT && AllWhole(replies)
    ensures forall x <- Call(cfg, toggle, tx, replies).sent ::
              exists m: nat :: Multiplier(x, m) && x.timeout == cfg.fwt * m && (Served(x.timeout) <==> 10 * x.timeout < 1000000)
  {
    CallWaits(cfg, toggle, tx, replies);
    var sent := Call(cfg, toggle, tx, replies).sent;
    hide Call;
    hide Served;
    hide Multiplier;
    forall x | x in sent
      ensures exists m: nat :: Multiplier(x, m) && x.timeout == cfg.fwt * m && (Served(x.timeout) <==> 10 * x.timeout < 1000000)
    {
      assert WaitsRight(cfg.fwt, x);
      var m: nat :| Multiplier(x, m) && x.timeout == cfg.fwt * m < WORD;
      ServedIff(x.timeout);
    }
  }

  /** The same in terms of the waiting time integer and the multiplier. */
  lemma TimerServesFwiIff(fwi: nat, m: nat)
    requires 1 <= m <= 59
    ensures Served(FwiToFwt(fwi) * m) <==> 3020 * Pow2(if fwi > 14 then 14 else fwi) * m < 1000000
  {
    WaitingTimeFits(fwi, m);
    ServedIff(FwiToFwt(fwi) * m);
    hide FwiToFwt;
    hide Served;
    hide Pow2;
    Regroup(Pow2(if fwi > 14 then 14 else fwi), m);
  }

  lemma Regroup(p: nat, m: nat)
    ensures TIMER_RELAX * (302 * p * m) == 3020 * p * m
  {
  }

  /** Within the standard's default waiting time, a card that asks for an extension by 21 makes the
      driver send a frame the timer cannot be set for. */
  lemma ExtensionUnserved(toggle: bool, tx: Frame)
    requires tx != []
    ensures var cfg := Config(64, FwiToFwt(4), 0);
            var request := [0xf2, 21];
            && AllWhole([request])
            && var sent := Call(cfg, toggle, tx, [request]).sent;
               && |sent| == 2 && sent[1].frame == request
               && Served(sent[0].timeout) && !Served(sent[1].timeout)
  {
    var cfg := Config(64, FwiToFwt(4), 0);
    var request: Frame := [0xf2, 21];
    assert At(request, 0) == WTX_PCB && At(request, 1) == 21;
    assert Pow2(4) == 16;
    WaitingTimeFits(4, 21);
    assert FwiToFwt(4) == 4832;
    hide FwiToFwt;
    ServedIff(4832);
    ServedIff(4832 * 21);
    hide Served;
    var s := Refill(cfg, toggle, tx, []).state;
    assert OnReply(cfg, s, request) == Send(s.(frame := request, timeout := 4832 * 21));
    var next := OnReply(cfg, s, request).state;
    assert [request][1..] == [];
    assert Run(cfg, next, []).sent == [Sent(next.frame, next.timeout, next.toggle)];
  }
}
