/**
 What every run of the T=CL driver keeps, whatever the card replies.
 */
module TclSafety {
  import opened Common
  import opened TclBlocks
  import opened TclSpec
  import opened TclSegments

  /** A reply without a CID, or with the reader's. */
  predicate Addressed(cid: bv8, r: Frame) { At(r, 0) & 0x08 != 0 ==> At(r, 1) == cid }

  /** A reply that carries data the driver may hand to its caller. */
  predicate Matching(cid: bv8, toggle: bool, r: Frame) {
    At(r, 0) & 0xc0 == 0x00 && (At(r, 0) & 0x01 != 0) == toggle && Addressed(cid, r)
  }

  /** Reference reading of a trace: the information fields of the matching I-blocks, in order. */
  function Collected(cid: bv8, sent: seq<Sent>, replies: seq<Frame>): Frame
    requires AllWhole(replies)
  {
    if sent == [] || replies == [] then []
    else (if Matching(cid, sent[0].toggle, replies[0]) then Payload(replies[0]) else [])
         + Collected(cid, sent[1..], replies[1..])
  }

  /** I- and R-blocks carry a block number, S-blocks do not. */
  predicate Numbered(x: Sent) { x.frame != [] && x.frame[0] & 0xc0 != 0xc0 }

  function NumberedCount(sent: seq<Sent>): nat {
    if sent == [] then 0 else (if Numbered(sent[0]) then 1 else 0) + NumberedCount(sent[1..])
  }

  /** The block number after `n` further numbered blocks. */
  predicate Flipped(toggle: bool, n: nat) { toggle != (n % 2 == 1) }

  /** Per-frame promises: length (on a frame size that leaves room for data), block number, waiting
      time, and the exact PCB: 0x02, 0x03, 0x12 or 0x13 for data, 0xa2 or 0xa3 for an
      acknowledgement, 0xf2 for a granted extension. */
  ghost predicate Sound(cfg: Config, x: Sent) {
    && 1 <= |x.frame| && (2 <= cfg.fsc ==> |x.frame| <= cfg.fsc)
    && (Numbered(x) ==> BlockNumber(x.frame[0]) == x.toggle && x.timeout == cfg.fwt)
    && (Numbered(x) ==> x.frame[0] & 0xee == 0x02 || x.frame == [if x.toggle then 0xa3 else 0xa2])
    && (!Numbered(x) ==> exists w :: 1 <= w <= 59 && x.frame == [0xf2, w] && x.timeout == cfg.fwt * w as nat % WORD)
  }

  function RxOf(n: Next): Frame { if n.Send? then n.state.rx else n.rx }

  /** One reply adds its information field exactly when it is a matching I-block, and the driver
      declares the call complete exactly when that block does not announce another. */
  lemma ReplyCollects(cfg: Config, s: State, r: Frame)
    requires Whole(r)
    ensures var n := OnReply(cfg, s, r);
            && RxOf(n) == s.rx + (if Matching(cfg.cid, s.toggle, r) then Payload(r) else [])
            && (n.Stop? && n.why == Complete <==> Matching(cfg.cid, s.toggle, r) && At(r, 0) & 0x10 == 0)
  {
    assert forall x: Frame :: x + [] == x;
  }

  /** Peeling one exchange off a run. */
  lemma Peel(cfg: Config, s: State, replies: seq<Frame>)
    requires AllWhole(replies) && replies != []
    ensures var out := Run(cfg, s, replies);
            var next := OnReply(cfg, s, replies[0]);
            && out.sent[0] == Sent(s.frame, s.timeout, s.toggle)
            && if next.Stop? then out.sent[1..] == [] && out.rx == next.rx && out.toggle == next.toggle
                 && out.why == next.why && out.ret == next.ret
               else var rest := Run(cfg, next.state, replies[1..]);
                 && out.sent[1..] == rest.sent && out.rx == rest.rx && out.toggle == rest.toggle
                 && out.why == rest.why && out.ret == rest.ret
  {
  }

  lemma {:induction false} RunCollects(cfg: Config, s: State, replies: seq<Frame>)
    requires AllWhole(replies)
    ensures var out := Run(cfg, s, replies);
            out.rx == s.rx + Collected(cfg.cid, out.sent, replies)
    decreases |replies|
  {
    hide OnReply;
    hide Matching;
    if replies != [] {
      Peel(cfg, s, replies);
      ReplyCollects(cfg, s, replies[0]);
      var next := OnReply(cfg, s, replies[0]);
      if next.Send? {
        RunCollects(cfg, next.state, replies[1..]);
      }
    }
  }

  /** A refill takes the front of what is left into the next frame. */
  lemma RefillSound(cfg: Config, toggle: bool, todo: Frame, rx: Frame)
    requires todo != []
    ensures var n := Refill(cfg, toggle, todo, rx);
            && n.Send? && n.state.toggle == !toggle && n.state.rx == rx
            && var x := Sent(n.state.frame, n.state.timeout, n.state.toggle);
               Sound(cfg, x) && Numbered(x) && Carries(x.frame) + n.state.todo == todo
  {
  }

  /** One reply toggles the block number exactly when the next frame is numbered; that frame keeps
      the per-frame promises and takes its data from the front of what is left to send. */
  lemma ReplySound(cfg: Config, s: State, r: Frame)
    requires Whole(r)
    ensures var n := OnReply(cfg, s, r);
            if n.Stop? then n.toggle == s.toggle
            else
              var x := Sent(n.state.frame, n.state.timeout, n.state.toggle);
              && Sound(cfg, x) && x.toggle == Flipped(s.toggle, if Numbered(x) then 1 else 0)
              && Carries(x.frame) + n.state.todo == s.todo
  {
    var n := OnReply(cfg, s, r);
    if n.Send? {
      if IsS(At(r, 0)) {
        var w := n.state.frame[1];
        assert 1 <= w <= 59 && n.state.frame == [WTX_PCB, w];
      } else if IsR(At(r, 0)) {
        RefillSound(cfg, s.toggle, s.todo, s.rx);
      }
    }
  }

  ghost predicate AllSound(cfg: Config, sent: seq<Sent>) {
    forall i :: 0 <= i < |sent| ==> Sound(cfg, sent[i])
  }

  /** The block number during exchange `i` is the initial one flipped by every I- and R-block built so far. */
  ghost predicate Toggles(toggle: bool, sent: seq<Sent>) {
    forall i :: 0 <= i < |sent| ==> sent[i].toggle == Flipped(toggle, NumberedCount(sent[..i + 1]))
  }

  ghost predicate Start(cfg: Config, toggle: bool, s: State) {
    var x := Sent(s.frame, s.timeout, s.toggle);
    Sound(cfg, x) && x.toggle == Flipped(toggle, if Numbered(x) then 1 else 0)
  }

  lemma FlippedCons(toggle: bool, x: Sent, rest: seq<Sent>)
    requires x.toggle == Flipped(toggle, if Numbered(x) then 1 else 0)
    ensures Flipped(toggle, NumberedCount([x] + rest)) == Flipped(x.toggle, NumberedCount(rest))
  {
    assert ([x] + rest)[1..] == rest;
  }

  lemma TogglesCons(toggle: bool, x: Sent, rest: seq<Sent>)
    requires x.toggle == Flipped(toggle, if Numbered(x) then 1 else 0)
    requires Toggles(x.toggle, rest)
    ensures Toggles(toggle, [x] + rest)
  {
    var sent := [x] + rest;
    forall i | 0 <= i < |sent|
      ensures sent[i].toggle == Flipped(toggle, NumberedCount(sent[..i + 1]))
    {
      FlippedCons(toggle, x, rest[..i]);
      assert sent[..i + 1] == [x] + rest[..i];
      if i > 0 {
        assert rest[i - 1].toggle == Flipped(x.toggle, NumberedCount(rest[..i - 1 + 1]));
      }
    }
  }

  lemma {:induction false} RunSound(cfg: Config, toggle: bool, s: State, replies: seq<Frame>)
    requires AllWhole(replies) && Start(cfg, toggle, s)
    ensures var out := Run(cfg, s, replies);
            && AllSound(cfg, out.sent) && Toggles(toggle, out.sent)
            && out.toggle == Flipped(toggle, NumberedCount(out.sent))
    decreases |replies|
  {
    var out := Run(cfg, s, replies);
    var x := Sent(s.frame, s.timeout, s.toggle);
    TogglesCons(toggle, x, []);
    FlippedCons(toggle, x, []);
    if replies == [] {
      assert out.sent == [x] + [];
    } else {
      Peel(cfg, s, replies);
      ReplySound(cfg, s, replies[0]);
      hide OnReply;
      hide Sound;
      var next := OnReply(cfg, s, replies[0]);
      if next.Stop? {
        assert out.sent == [x] + [];
      } else {
        RunSound(cfg, s.toggle, next.state, replies[1..]);
        var rest := Run(cfg, next.state, replies[1..]);
        assert out.sent == [x] + rest.sent;
        TogglesCons(toggle, x, rest.sent);
        FlippedCons(toggle, x, rest.sent);
      }
    }
  }

  /** I-blocks of a run carry a prefix of what was left to send. */
  lemma {:induction false} RunSendsPrefix(cfg: Config, s: State, replies: seq<Frame>)
    requires AllWhole(replies)
    ensures Outgoing(Run(cfg, s, replies).sent) <= Carries(s.frame) + s.todo
    decreases |replies|
  {
    var out := Run(cfg, s, replies);
    if replies == [] {
      assert out.sent[1..] == [];
    } else {
      Peel(cfg, s, replies);
      ReplySound(cfg, s, replies[0]);
      hide OnReply;
      hide Run;
      hide Carries;
      hide Sound;
      var next := OnReply(cfg, s, replies[0]);
      if next.Send? {
        RunSendsPrefix(cfg, next.state, replies[1..]);
        PrefixCons(Carries(s.frame), Outgoing(out.sent[1..]), s.todo);
      }
    }
  }

  lemma PrefixCons(head: Frame, a: Frame, b: Frame)
    requires a <= b
    ensures head + a <= head + b
  {
  }

  /** The reply that completes an answer. */
  predicate Final(cid: bv8, toggle: bool, r: Frame) { Matching(cid, toggle, r) && At(r, 0) & 0x10 == 0 }

  /** A reply the driver drops without an error code: an I- or R-block with the wrong number, any
      block with another card's CID, or a PCB of the form 01xx xxxx. */
  predicate Refused(cid: bv8, toggle: bool, r: Frame) {
    var pcb := At(r, 0);
    || (pcb & 0x40 == 0 && (pcb & 0x01 != 0) != toggle)
    || (pcb & 0xc0 != 0x40 && !Addressed(cid, r))
    || pcb & 0xc0 == 0x40
  }

  /** The multiplier an S-block asks for. */
  function Wtxm(r: Frame): bv8 { At(r, if At(r, 0) & 0x08 != 0 then 2 else 1) & 0x3f }

  /** A request for a waiting time extension that is granted: S(WTX), for this card, by 1 to 59. */
  predicate Request(cid: bv8, r: Frame) {
    && At(r, 0) & 0xf0 == 0xf0 && Addressed(cid, r) && (At(r, 0) & 0x08 != 0 ==> |r| >= 3)
    && 1 <= Wtxm(r) <= 59
  }

  /** Any other S-block for this card. */
  predicate BadRequest(cid: bv8, r: Frame) { At(r, 0) & 0xc0 == 0xc0 && Addressed(cid, r) && !Request(cid, r) }

  /** An R-block with the current number. */
  predicate Acknowledges(cid: bv8, toggle: bool, r: Frame) {
    At(r, 0) & 0xc0 == 0x80 && (At(r, 0) & 0x01 != 0) == toggle && Addressed(cid, r)
  }

  /** What a reply calls for, when `toggle` is the number of the last I- or R-block sent: a request for
      time is granted, an acknowledgement lets the next data out, and a chained I-block is acknowledged
      under the next number. */
  ghost predicate Provokes(cfg: Config, toggle: bool, r: Frame, x: Sent) {
    if At(r, 0) & 0xc0 == 0xc0 then
      && Request(cfg.cid, r) && x.frame == [0xf2, Wtxm(r)] && x.toggle == toggle
      && x.timeout == cfg.fwt * Wtxm(r) as nat % WORD
    else
      && x.toggle == !toggle && x.timeout == cfg.fwt && x.frame != []
      && if At(r, 0) & 0xc0 == 0x80 then Acknowledges(cfg.cid, toggle, r) && x.frame[0] & 0xee == 0x02
         else Matching(cfg.cid, toggle, r) && At(r, 0) & 0x10 != 0 && x.frame == [if x.toggle then 0xa3 else 0xa2]
  }

  /** A request for time without its multiplier byte reads as one for none, and ends the call with -1. */
  lemma BareRequest(cfg: Config, s: State)
    ensures BadRequest(cfg.cid, [0xf2]) && Whole([0xf2])
    ensures var n := OnReply(cfg, s, [0xf2]); n.Stop? && n.ret == -1 && n.rx == s.rx
  {
    var r: Frame := [0xf2];
    assert At(r, 0) == 0xf2;
  }

  /** One reply goes on exactly when it calls for another frame, and then with that frame. */
  lemma ReplyProvokes(cfg: Config, s: State, r: Frame)
    requires Whole(r)
    ensures var n := OnReply(cfg, s, r);
            && (n.Send? <==> || Request(cfg.cid, r) || (Acknowledges(cfg.cid, s.toggle, r) && s.todo != [])
                             || (Matching(cfg.cid, s.toggle, r) && At(r, 0) & 0x10 != 0))
            && (n.Send? ==> Provokes(cfg, s.toggle, r, Sent(n.state.frame, n.state.timeout, n.state.toggle)))
  {
  }

  /** Every frame but the first is what the reply before it calls for, and every request for time
      that is looked at is granted. */
  ghost predicate Answers(cfg: Config, sent: seq<Sent>, replies: seq<Frame>) {
    && (forall i :: 0 <= i < |replies| && i + 1 < |sent| ==> Provokes(cfg, sent[i].toggle, replies[i], sent[i + 1]))
    && (forall i :: 0 <= i < |replies| && i < |sent| && Request(cfg.cid, replies[i]) ==> i + 1 < |sent|)
  }

  lemma AnswersCons(cfg: Config, sent: seq<Sent>, replies: seq<Frame>)
    requires |sent| >= 2 && replies != [] && Provokes(cfg, sent[0].toggle, replies[0], sent[1])
    requires Answers(cfg, sent[1..], replies[1..])
    ensures Answers(cfg, sent, replies)
  {
    var ss, rs := sent[1..], replies[1..];
    forall i | 0 <= i < |replies| && i + 1 < |sent|
      ensures Provokes(cfg, sent[i].toggle, replies[i], sent[i + 1])
    {
      if i > 0 { assert Provokes(cfg, ss[i - 1].toggle, rs[i - 1], ss[i - 1 + 1]); }
    }
    forall i | 0 <= i < |replies| && i < |sent| && Request(cfg.cid, replies[i]) ensures i + 1 < |sent| {
      if i > 0 { assert rs[i - 1] == replies[i]; }
    }
  }

  lemma {:induction false} RunAnswers(cfg: Config, s: State, replies: seq<Frame>)
    requires AllWhole(replies)
    ensures Answers(cfg, Run(cfg, s, replies).sent, replies)
    decreases |replies|
  {
    if replies != [] {
      Peel(cfg, s, replies);
      ReplyProvokes(cfg, s, replies[0]);
      hide OnReply;
      hide Provokes;
      hide Request;
      var next := OnReply(cfg, s, replies[0]);
      if next.Send? {
        RunAnswers(cfg, next.state, replies[1..]);
        assert Run(cfg, next.state, replies[1..]).sent[0] == Sent(next.state.frame, next.state.timeout, next.state.toggle);
        AnswersCons(cfg, Run(cfg, s, replies).sent, replies);
      }
    }
  }

  /** Over every call: an S-block goes out exactly after a request for time that can be granted, with
      the multiplier asked for; and every other frame is the one its reply calls for. */
  lemma ExtensionGrantedIff(cfg: Config, toggle: bool, tx: Frame, replies: seq<Frame>)
    requires AllWhole(replies)
    ensures var sent := Call(cfg, toggle, tx, replies).sent;
            && Answers(cfg, sent, replies)
            && forall i :: 0 <= i < |sent| && i < |replies| ==>
                 (Request(cfg.cid, replies[i]) <==> i + 1 < |sent| && !Numbered(sent[i + 1]))
  {
    if tx != [] {
      RunAnswers(cfg, Refill(cfg, toggle, tx, []).state, replies);
    }
    hide Call;
    hide Request;
    var sent := Call(cfg, toggle, tx, replies).sent;
    forall i | 0 <= i < |sent| && i < |replies|
      ensures Request(cfg.cid, replies[i]) <==> i + 1 < |sent| && !Numbered(sent[i + 1])
    {
      RequestIsSupervisory(cfg.cid, replies[i]);
      if i + 1 < |sent| {
        assert Provokes(cfg, sent[i].toggle, replies[i], sent[i + 1]);
      }
    }
  }

  lemma RequestIsSupervisory(cid: bv8, r: Frame)
    ensures Request(cid, r) ==> At(r, 0) & 0xc0 == 0xc0
  {
    var pcb := At(r, 0);
    assert pcb & 0xf0 == 0xf0 ==> pcb & 0xc0 == 0xc0;
  }

  /** One reply ends the call with 0 exactly when it completes the answer or is refused, and with -1
      exactly when it is an S-block that cannot be granted or acknowledges the last data. */
  lemma ReplyReturns(cfg: Config, s: State, r: Frame)
    requires Whole(r)
    ensures var n := OnReply(cfg, s, r);
            && (n.Stop? && n.ret == 0 <==> Final(cfg.cid, s.toggle, r) || Refused(cfg.cid, s.toggle, r))
            && (n.Stop? && n.ret != 0 ==> n.ret == -1 && (BadRequest(cfg.cid, r) || Acknowledges(cfg.cid, s.toggle, r)))
            && (n.Stop? && n.why == Complete <==> Final(cfg.cid, s.toggle, r))
            && (n.Stop? && n.why == Complete ==> n.ret == 0)
            && !(Final(cfg.cid, s.toggle, r) && Refused(cfg.cid, s.toggle, r))
            && (n.Stop? ==> n.toggle == s.toggle && n.why != LinkLost)
  {
    var pcb := At(r, 0);
    assert IsI(pcb) || IsR(pcb) || IsS(pcb) || pcb & 0xc0 == 0x40;
    assert pcb & 0xf0 == 0xf0 <==> pcb & 0xc0 == 0xc0 && pcb & 0x30 == 0x30;
  }

  /** `p` holds of the last reply a run has looked at, and of the block number it was compared with. */
  ghost predicate LastReply(out: Outcome, replies: seq<Frame>, p: (bool, Frame) -> bool) {
    1 <= |out.sent| <= |replies| && p(out.toggle, replies[|out.sent| - 1])
  }

  lemma {:induction false} RunEnds(cfg: Config, s: State, replies: seq<Frame>)
    requires AllWhole(replies)
    ensures var out := Run(cfg, s, replies);
            && 1 <= |out.sent| <= |replies| + 1
            && (out.why == LinkLost <==> |out.sent| == |replies| + 1)
            && (out.why == Complete <==> LastReply(out, replies, (t, r) => Final(cfg.cid, t, r)))
            && (out.ret == 0 <==> LastReply(out, replies, (t, r) => Final(cfg.cid, t, r) || Refused(cfg.cid, t, r)))
            && (out.ret == -5 <==> out.why == LinkLost)
            && (out.ret != 0 && out.ret != -5 ==>
                  out.ret == -1 && LastReply(out, replies, (t, r) => BadRequest(cfg.cid, r) || Acknowledges(cfg.cid, t, r)))
    decreases |replies|
  {
    var out := Run(cfg, s, replies);
    if replies != [] {
      Peel(cfg, s, replies);
      ReplyReturns(cfg, s, replies[0]);
      hide OnReply;
      hide Final;
      hide Refused;
      hide BadRequest;
      hide Acknowledges;
      var next := OnReply(cfg, s, replies[0]);
      if next.Send? {
        RunEnds(cfg, next.state, replies[1..]);
        assert |out.sent| >= 2 && (|out.sent| <= |replies| ==> replies[1..][|out.sent| - 2] == replies[|out.sent| - 1]);
      }
    }
  }

  /** Every call, whatever the card replies: the caller gets exactly the information fields of the
      matching I-blocks, in order; the I-blocks sent carry a prefix of the caller's message; every
      frame fits the card, carries the current block number and waits FWT, or FWT times a WTXM in
      1..59 when it grants an extension; and the block number counts the I- and R-blocks built. */
  lemma CallIsSafe(cfg: Config, toggle: bool, tx: Frame, replies: seq<Frame>)
    requires AllWhole(replies)
    ensures var out := Call(cfg, toggle, tx, replies);
            && out.rx == Collected(cfg.cid, out.sent, replies)
            && AllSound(cfg, out.sent) && Toggles(toggle, out.sent)
            && out.toggle == Flipped(toggle, NumberedCount(out.sent))
            && Outgoing(out.sent) <= tx
  {
    if tx != [] {
      RefillSound(cfg, toggle, tx, []);
      var s := Refill(cfg, toggle, tx, []).state;
      RunCollects(cfg, s, replies);
      RunSound(cfg, toggle, s, replies);
      RunSendsPrefix(cfg, s, replies);
    }
  }

  /** A call has a complete answer exactly when the last reply it looked at is a matching I-block
      that announces no successor, and then returns 0. */
  lemma CompleteIff(cfg: Config, toggle: bool, tx: Frame, replies: seq<Frame>)
    requires AllWhole(replies)
    ensures var out := Call(cfg, toggle, tx, replies);
            && |out.sent| <= |replies| + 1 && (out.why == Complete ==> out.ret == 0)
            && (out.why == Complete <==> LastReply(out, replies, (t, r) => Final(cfg.cid, t, r)))
  {
    if tx != [] {
      RunEnds(cfg, Refill(cfg, toggle, tx, []).state, replies);
    }
  }

  /** What a return of 0 means: the last reply completed the answer or was refused; and the answer is
      incomplete in spite of the 0 exactly when it was refused, by its block number, its CID or its
      kind, the block number it is held against being the one of the last I- or R-block sent. */
  lemma ZeroIff(cfg: Config, toggle: bool, tx: Frame, replies: seq<Frame>)
    requires AllWhole(replies)
    ensures var out := Call(cfg, toggle, tx, replies);
            var number := Flipped(toggle, NumberedCount(out.sent));
            var looked := 1 <= |out.sent| <= |replies|;
            && (out.ret == 0 <==>
                  looked && var r := replies[|out.sent| - 1]; Final(cfg.cid, number, r) || Refused(cfg.cid, number, r))
            && (out.ret == 0 && out.why != Complete <==>
                  looked && Refused(cfg.cid, number, replies[|out.sent| - 1]))
  {
    CallIsSafe(cfg, toggle, tx, replies);
    if tx != [] {
      var s := Refill(cfg, toggle, tx, []).state;
      RunEnds(cfg, s, replies);
      var out := Run(cfg, s, replies);
      if 1 <= |out.sent| <= |replies| {
        FinalOrRefused(cfg.cid, out.toggle, replies[|out.sent| - 1]);
      }
      hide Final;
      hide Refused;
      hide Run;
    }
  }

  /** How a call fails: with -5 exactly when the transport does, and otherwise with -1, exactly when
      there is no message or the last reply is an S-block that cannot be granted or an acknowledgement
      when nothing is left to send. */
  lemma ErrorIff(cfg: Config, toggle: bool, tx: Frame, replies: seq<Frame>)
    requires AllWhole(replies)
    ensures var out := Call(cfg, toggle, tx, replies);
            var number := Flipped(toggle, NumberedCount(out.sent));
            var looked := 1 <= |out.sent| <= |replies|;
            && (out.ret == -5 <==> |out.sent| == |replies| + 1)
            && (out.ret == -1 <==>
                  || tx == []
                  || (looked && var r := replies[|out.sent| - 1]; BadRequest(cfg.cid, r) || Acknowledges(cfg.cid, number, r)))
            && (out.ret == 0 || out.ret == -1 || out.ret == -5)
  {
    CallIsSafe(cfg, toggle, tx, replies);
    if tx != [] {
      var s := Refill(cfg, toggle, tx, []).state;
      RunEnds(cfg, s, replies);
      var out := Run(cfg, s, replies);
      if 1 <= |out.sent| <= |replies| {
        FailsOrNot(cfg.cid, out.toggle, replies[|out.sent| - 1]);
      }
      hide Final;
      hide Refused;
      hide BadRequest;
      hide Acknowledges;
      hide Run;
    }
  }

  lemma FailsOrNot(cid: bv8, toggle: bool, r: Frame)
    ensures !((BadRequest(cid, r) || Acknowledges(cid, toggle, r)) && (Final(cid, toggle, r) || Refused(cid, toggle, r)))
  {
  }

  lemma FinalOrRefused(cid: bv8, toggle: bool, r: Frame)
    ensures !(Final(cid, toggle, r) && Refused(cid, toggle, r))
  {
  }

  /** The return value does not tell: a reply with the wrong block number ends the call with the
      transport's 0 and nothing received. */
  lemma ZeroIsNotComplete(cfg: Config, toggle: bool, tx: Frame)
    requires tx != []
    ensures var r := [IPcb(toggle, false), 0x90, 0x00];
            && AllWhole([r])
            && var out := Call(cfg, toggle, tx, [r]);
               out.ret == 0 && out.rx == [] && out.why == WrongBlock
  {
    var r := [IPcb(toggle, false), 0x90, 0x00];
    assert At(r, 0) == IPcb(toggle, false);
  }
}
