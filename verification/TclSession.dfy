/**
 The T=CL driver composed with a card. The card is any automaton that follows the block
 numbering rules C to E and the block handling rules for the PICC (sections 7.5.3 and 7.5.4 of
 ISO/IEC 14443-4) on an error-free link. It may answer in any number of blocks and may ask
 for a waiting time extension wherever it owes a block. A block the card has no reason to
 expect leaves it free to do anything, so every result below also says that the driver never
 sends such a block.
 */
module TclSession {
  import opened Common
  import opened TclBlocks
  import opened TclSpec
  import opened TclSegments

  /** What the card still has to say after accepting a block. */
  datatype Owed = OwesAck | OwesBlock

  /** What the card is waiting for. */
  datatype Phase = WaitCommand | WaitAck | WaitWtx(wtxm: bv8, owed: Owed)

  datatype Exchange = Exchange(command: Frame, answer: Frame)

  datatype Card = Card(
    bn: bool, phase: Phase, command: Frame, answer: Frame,
    log: seq<Exchange>, blocks: nat, wtxs: nat)

  predicate Idle(c: Card) { c.phase == WaitCommand && c.command == [] && c.answer == [] }

  datatype Accepted = Accepted(card: Card, owed: Owed) | Unexpected

  /** The PCB of an I-block without CID and NAD, as section 7.1.1.1 of ISO/IEC 14443-4 codes it. */
  predicate InfoBlock(pcb: bv8, bn: bool, more: bool) {
    pcb & 0xee == 0x02 && (pcb & 0x01 != 0) == bn && (pcb & 0x10 != 0) == more
  }

  /** R(ACK) without CID. */
  function Ack(bn: bool): Frame { [if bn then 0xa3 else 0xa2] }

  /** The driver's PCBs are the standard's. */
  lemma Coded(pcb: bv8, bn: bool, more: bool)
    ensures InfoBlock(pcb, bn, more) <==> pcb == IPcb(bn, more)
    ensures Ack(bn) == [AckPcb(bn)]
  {
  }

  /** The card takes in a block from the reader, toggling its block number where the rules say so. */
  function Accept(c: Card, tx: Frame): Accepted {
    match c.phase
    case WaitCommand =>
      if tx != [] && InfoBlock(tx[0], !c.bn, tx[0] & 0x10 != 0) then
        Accepted(c.(bn := !c.bn, command := c.command + tx[1..]), if tx[0] & 0x10 != 0 then OwesAck else OwesBlock)
      else Unexpected
    case WaitAck =>
      if tx == Ack(!c.bn) then Accepted(c.(bn := !c.bn), OwesBlock) else Unexpected
    case WaitWtx(wtxm, owed) =>
      if tx == [0xf2, wtxm] then Accepted(c, owed) else Unexpected
  }

  /** S(WTX) request; the two upper bits of the INF byte carry a power level indication. */
  predicate WtxRequest(r: Frame) {
    |r| == 2 && r[0] == 0xf2 && 1 <= r[1] & 0x3f <= 59
  }

  ghost predicate Replies(c: Card, owed: Owed, r: Frame, c': Card) {
    || (WtxRequest(r) && c' == c.(phase := WaitWtx(r[1] & 0x3f, owed), wtxs := c.wtxs + 1))
    || (owed == OwesAck && r == Ack(c.bn) && c' == c.(phase := WaitCommand))
    || (owed == OwesBlock && r != [] && InfoBlock(r[0], c.bn, true)
        && c' == c.(phase := WaitAck, answer := c.answer + r[1..], blocks := c.blocks + 1))
    || (owed == OwesBlock && r != [] && InfoBlock(r[0], c.bn, false)
        && c' == c.(phase := WaitCommand, command := [], answer := [], blocks := c.blocks + 1,
                    log := c.log + [Exchange(c.command, c.answer + r[1..])]))
  }

  ghost predicate CardStep(c: Card, tx: Frame, r: Frame, c': Card) {
    match Accept(c, tx)
    case Unexpected => true
    case Accepted(a, owed) => Replies(a, owed, r, c')
  }

  /** `cards` is a history of a card that produced `replies` to the frames in `sent`. */
  ghost predicate Obeys(cards: seq<Card>, sent: seq<Sent>, replies: seq<Frame>) {
    && |cards| == |replies| + 1
    && forall i :: 0 <= i < |replies| && i < |sent| ==> CardStep(cards[i], sent[i].frame, replies[i], cards[i + 1])
  }

  /** The relation between driver and card each time the driver hands over a frame. */
  ghost predicate InStep(tx: Frame, log: seq<Exchange>, s: State, c: Card) {
    && c.log == log
    && match c.phase
       case WaitCommand =>
         && s.toggle == !c.bn && s.rx == c.answer == []
         && s.frame != [] && s.frame[0] == IPcb(s.toggle, s.todo != [])
         && c.command + s.frame[1..] + s.todo == tx
       case WaitAck =>
         && s.toggle == !c.bn && s.rx == c.answer && s.todo == []
         && s.frame == [AckPcb(s.toggle)] && c.command == tx
       case WaitWtx(wtxm, OwesAck) =>
         && s.toggle == c.bn && s.rx == c.answer == []
         && s.frame == [WTX_PCB, wtxm] && s.todo != [] && c.command + s.todo == tx
       case WaitWtx(wtxm, OwesBlock) =>
         && s.toggle == c.bn && s.rx == c.answer
         && s.frame == [WTX_PCB, wtxm] && s.todo == [] && c.command == tx
  }

  /** The very first frame of a call meets an idle card whose block number equals `toggle`. */
  lemma FirstFrame(cfg: Config, toggle: bool, tx: Frame, c: Card)
    requires 2 <= cfg.fsc && tx != [] && Idle(c) && c.bn == toggle
    ensures var next := Refill(cfg, toggle, tx, []);
            && next.Send? && InStep(tx, c.log, next.state, c)
            && Segments(cfg, |tx|) == 1 + Segments(cfg, |next.state.todo|)
  {
  }

  /** How many blocks and extension requests the card has sent so far. */
  ghost function Said(c: Card): nat { c.blocks + c.wtxs }

  /** The frame the driver sends is one the card expects, and the card then agrees on the block number. */
  lemma Expected(tx: Frame, log: seq<Exchange>, s: State, c: Card)
    requires InStep(tx, log, s, c)
    ensures var a := Accept(c, s.frame);
            && a.Accepted? && a.card.bn == s.toggle && a.card.answer == s.rx && a.card.log == log
            && a.card.command + s.todo == tx && (a.owed == OwesAck <==> s.todo != [])
            && (a.owed == OwesAck ==> s.rx == []) && Said(a.card) == Said(c)
  {
    match c.phase
    case WaitCommand =>
      assert Accept(c, s.frame).card.command == c.command + s.frame[1..];
    case WaitAck =>
    case WaitWtx(wtxm, owed) =>
      match owed { case OwesAck => case OwesBlock => }
  }

  /** A step ends with both ends in step, or with the call complete and both messages delivered. */
  ghost predicate StepOk(cfg: Config, tx: Frame, log: seq<Exchange>, s: State, said: nat, next: Next, c': Card)
    requires 2 <= cfg.fsc
  {
    if next.Send? then
      && InStep(tx, log, next.state, c')
      && Said(c') + Segments(cfg, |s.todo|) == said + 1 + Segments(cfg, |next.state.todo|)
    else
      && next.why == Complete && next.ret == 0 && next.toggle == c'.bn && Idle(c') && s.todo == []
      && c'.log == log + [Exchange(tx, next.rx)] && Said(c') == said + 1
  }

  /** The card `a` has accepted a frame, owes `owed`, and agrees with the driver's state `s`. */
  ghost predicate Agreed(tx: Frame, log: seq<Exchange>, s: State, a: Card, owed: Owed) {
    && a.bn == s.toggle && a.answer == s.rx && a.log == log && a.command + s.todo == tx
    && (owed == OwesAck <==> s.todo != []) && (owed == OwesAck ==> s.rx == [])
  }

  lemma Extension(cfg: Config, tx: Frame, log: seq<Exchange>, s: State, a: Card, owed: Owed, r: Frame)
    requires 2 <= cfg.fsc && Whole(r) && Agreed(tx, log, s, a, owed) && WtxRequest(r)
    ensures var c' := a.(phase := WaitWtx(r[1] & 0x3f, owed), wtxs := a.wtxs + 1);
            StepOk(cfg, tx, log, s, Said(a), OnReply(cfg, s, r), c')
  {
    assert At(r, 0) == WTX_PCB && At(r, 1) == r[1];
    assert owed == OwesBlock ==> a.command + s.todo == a.command;
  }

  lemma Acknowledged(cfg: Config, tx: Frame, log: seq<Exchange>, s: State, a: Card)
    requires 2 <= cfg.fsc && Agreed(tx, log, s, a, OwesAck)
    ensures var r := [AckPcb(a.bn)];
            Whole(r) && StepOk(cfg, tx, log, s, Said(a), OnReply(cfg, s, r), a.(phase := WaitCommand))
  {
    var r := [AckPcb(a.bn)];
    assert At(r, 0) == AckPcb(s.toggle);
    RefillOk(cfg, s.toggle, s.todo);
    var s1 := OnReply(cfg, s, r).state;
    assert a.command + s1.frame[1..] + s1.todo == tx;
  }

  lemma Answered(cfg: Config, tx: Frame, log: seq<Exchange>, s: State, a: Card, r: Frame, c': Card)
    requires 2 <= cfg.fsc && Whole(r) && Agreed(tx, log, s, a, OwesBlock)
    requires r != [] && r[0] == IPcb(a.bn, Chained(r[0])) && Replies(a, OwesBlock, r, c')
    ensures StepOk(cfg, tx, log, s, Said(a), OnReply(cfg, s, r), c')
  {
    assert At(r, 0) == r[0] && Payload(r) == r[1..];
    assert a.command + s.todo == a.command;
  }

  /** One exchange keeps driver and card in step, or ends the call with both messages delivered. */
  lemma ExchangeStep(cfg: Config, tx: Frame, log: seq<Exchange>, s: State, c: Card, r: Frame, c': Card)
    requires 2 <= cfg.fsc && Whole(r)
    requires InStep(tx, log, s, c) && CardStep(c, s.frame, r, c')
    ensures s.toggle == c'.bn && StepOk(cfg, tx, log, s, Said(c), OnReply(cfg, s, r), c')
  {
    Expected(tx, log, s, c);
    var Accepted(a, owed) := Accept(c, s.frame);
    hide Accept;
    hide OnReply;
    hide StepOk;
    hide InStep;
    assert Agreed(tx, log, s, a, owed);
    if WtxRequest(r) && c' == a.(phase := WaitWtx(r[1] & 0x3f, owed), wtxs := a.wtxs + 1) {
      Extension(cfg, tx, log, s, a, owed, r);
    } else if owed == OwesAck {
      Acknowledged(cfg, tx, log, s, a);
    } else {
      Answered(cfg, tx, log, s, a, r, c');
    }
  }

  lemma ObeysTail(cards: seq<Card>, sent: seq<Sent>, replies: seq<Frame>)
    requires Obeys(cards, sent, replies) && replies != [] && sent != []
    ensures CardStep(cards[0], sent[0].frame, replies[0], cards[1])
    ensures Obeys(cards[1..], sent[1..], replies[1..])
  {
    var cs, ss, rs := cards[1..], sent[1..], replies[1..];
    forall i | 0 <= i < |rs| && i < |ss|
      ensures CardStep(cs[i], ss[i].frame, rs[i], cs[i + 1])
    {
      assert CardStep(cards[i + 1], sent[i + 1].frame, replies[i + 1], cards[i + 1 + 1]);
    }
  }

  /** Driver and card agree on the block number whenever a reply is examined. */
  ghost predicate NumbersAgree(cards: seq<Card>, sent: seq<Sent>, replies: seq<Frame>)
    requires |cards| == |replies| + 1
  {
    forall i :: 0 <= i < |replies| && i < |sent| ==> sent[i].toggle == cards[i + 1].bn
  }

  lemma AgreeCons(cards: seq<Card>, sent: seq<Sent>, replies: seq<Frame>)
    requires |cards| == |replies| + 1 && replies != [] && sent != [] && sent[0].toggle == cards[1].bn
    requires NumbersAgree(cards[1..], sent[1..], replies[1..])
    ensures NumbersAgree(cards, sent, replies)
  {
    forall i | 0 <= i < |replies| && i < |sent| ensures sent[i].toggle == cards[i + 1].bn {
      if i > 0 { assert sent[1..][i - 1].toggle == cards[1..][i - 1 + 1].bn; }
    }
  }

  /** A finished call: the card `c` has logged the command it received and the answer the caller got. */
  ghost predicate Delivered(tx: Frame, log: seq<Exchange>, out: Outcome, c: Card) {
    && out.why == Complete && out.ret == 0
    && out.toggle == c.bn && Idle(c)
    && c.log == log + [Exchange(tx, out.rx)]
  }

  lemma {:induction false} RunInStep(cfg: Config, tx: Frame, log: seq<Exchange>, s: State,
                                     replies: seq<Frame>, cards: seq<Card>)
    requires 2 <= cfg.fsc && AllWhole(replies)
    requires var out := Run(cfg, s, replies); Obeys(cards, out.sent, replies)
    requires InStep(tx, log, s, cards[0])
    ensures var out := Run(cfg, s, replies);
            && NumbersAgree(cards, out.sent, replies)
            && if out.why == LinkLost
               then |out.sent| == |replies| + 1
                    && |replies| + Said(cards[0]) <= Said(cards[|replies|]) + Segments(cfg, |s.todo|)
               else |out.sent| <= |replies| && Delivered(tx, log, out, cards[|out.sent|])
                    && |out.sent| + Said(cards[0]) == Said(cards[|out.sent|]) + Segments(cfg, |s.todo|)
    decreases |replies|
  {
    var out := Run(cfg, s, replies);
    if replies != [] {
      ObeysTail(cards, out.sent, replies);
      ExchangeStep(cfg, tx, log, s, cards[0], replies[0], cards[1]);
      hide OnReply;
      hide InStep;
      hide CardStep;
      hide NumbersAgree;
      match OnReply(cfg, s, replies[0])
      case Stop(_, _, _, _) =>
      case Send(s1) =>
        var rest := Run(cfg, s1, replies[1..]);
        assert out.sent[1..] == rest.sent;
        RunInStep(cfg, tx, log, s1, replies[1..], cards[1..]);
        AgreeCons(cards, out.sent, replies);
    }
  }

  /** One call against a conforming card. The call either loses the link after the last reply, or
      returns 0 with the card having received exactly `tx`, the caller exactly the card's answer,
      and both ends holding the same block number. The number of exchanges is the number of
      segments, plus the card's answer blocks but one, plus its waiting time extensions, so only a
      stream shorter than that can lose the link. */
  lemma CallDelivers(cfg: Config, toggle: bool, tx: Frame, replies: seq<Frame>, cards: seq<Card>)
    requires 2 <= cfg.fsc && AllWhole(replies) && tx != []
    requires var out := Call(cfg, toggle, tx, replies); Obeys(cards, out.sent, replies)
    requires Idle(cards[0]) && cards[0].bn == toggle
    ensures var out := Call(cfg, toggle, tx, replies);
            var first := cards[0];
            && NumbersAgree(cards, out.sent, replies)
            && if out.why == LinkLost
               then var last := cards[|replies|];
                    && |out.sent| == |replies| + 1
                    && |replies| < Segments(cfg, |tx|) + (last.blocks - first.blocks) + (last.wtxs - first.wtxs)
               else |out.sent| <= |replies|
                    && var last := cards[|out.sent|];
                    && Delivered(tx, first.log, out, last)
                    && |out.sent| == Segments(cfg, |tx|) - 1 + (last.blocks - first.blocks) + (last.wtxs - first.wtxs)
  {
    FirstFrame(cfg, toggle, tx, cards[0]);
    var s := Refill(cfg, toggle, tx, []).state;
    RunInStep(cfg, tx, cards[0].log, s, replies, cards);
  }

  // ----- there are such runs -----

  /** A run that completes with `answer` appended to what had been received. */
  ghost predicate Completes(cfg: Config, s: State, answer: Frame, replies: seq<Frame>, cards: seq<Card>) {
    && 2 <= cfg.fsc && AllWhole(replies)
    && var out := Run(cfg, s, replies);
       Obeys(cards, out.sent, replies) && out.why == Complete && out.rx == s.rx + answer
  }

  lemma CompletesCons(cfg: Config, s: State, s1: State, part: Frame, answer: Frame, c: Card, r: Frame,
                      replies: seq<Frame>, cards: seq<Card>)
    requires 2 <= cfg.fsc && Whole(r) && OnReply(cfg, s, r) == Send(s1) && s1.rx == s.rx + part
    requires Completes(cfg, s1, answer, replies, cards) && CardStep(c, s.frame, r, cards[0])
    ensures Completes(cfg, s, part + answer, [r] + replies, [c] + cards)
  {
    hide OnReply;
    hide CardStep;
    var rs, cs := [r] + replies, [c] + cards;
    var rest := Run(cfg, s1, replies);
    assert rs[1..] == replies && rs[0] == r;
    var out := Run(cfg, s, rs);
    assert out.sent == [Sent(s.frame, s.timeout, s.toggle)] + rest.sent;
    forall i | 0 <= i < |rs| && i < |out.sent|
      ensures CardStep(cs[i], out.sent[i].frame, rs[i], cs[i + 1])
    {
      if i > 0 { assert CardStep(cards[i - 1], rest.sent[i - 1].frame, replies[i - 1], cards[i - 1 + 1]); }
    }
    assert s.rx + part + answer == s.rx + (part + answer);
  }

  /** Whatever blocks a card has to say, some conforming run delivers them all. */
  lemma {:induction false} Completable(cfg: Config, tx: Frame, log: seq<Exchange>, s: State, c: Card, blocks: seq<Frame>)
    returns (replies: seq<Frame>, cards: seq<Card>)
    requires 2 <= cfg.fsc && InStep(tx, log, s, c) && blocks != []
    ensures Completes(cfg, s, Flatten(blocks), replies, cards) && cards[0] == c
    decreases |s.todo| + |blocks|
  {
    Expected(tx, log, s, c);
    var Accepted(a, owed) := Accept(c, s.frame);
    hide Accept;
    hide InStep;
    if owed == OwesAck {
      var r, c' := [AckPcb(a.bn)], a.(phase := WaitCommand);
      Acknowledged(cfg, tx, log, s, a);
      var s1 := OnReply(cfg, s, r).state;
      assert At(r, 0) == AckPcb(s.toggle);
      RefillOk(cfg, s.toggle, s.todo);
      var rs, cs := Completable(cfg, tx, log, s1, c', blocks);
      assert s1.rx == s.rx + [] && [] + Flatten(blocks) == Flatten(blocks);
      CompletesCons(cfg, s, s1, [], Flatten(blocks), c, r, rs, cs);
      return [r] + rs, [c] + cs;
    }
    var more := |blocks| > 1;
    var r := [IPcb(a.bn, more)] + blocks[0];
    assert r[1..] == blocks[0] && At(r, 0) == r[0] && Payload(r) == blocks[0];
    if more {
      var c' := a.(phase := WaitAck, answer := a.answer + r[1..], blocks := a.blocks + 1);
      Answered(cfg, tx, log, s, a, r, c');
      var s1 := OnReply(cfg, s, r).state;
      var rs, cs := Completable(cfg, tx, log, s1, c', blocks[1..]);
      CompletesCons(cfg, s, s1, blocks[0], Flatten(blocks[1..]), c, r, rs, cs);
      return [r] + rs, [c] + cs;
    } else {
      var c' := a.(phase := WaitCommand, command := [], answer := [], blocks := a.blocks + 1,
                   log := a.log + [Exchange(a.command, a.answer + r[1..])]);
      Finishes(cfg, s, c, r, c');
      assert Flatten(blocks) == blocks[0] + [] == blocks[0];
      return [r], [c, c'];
    }
  }

  lemma Finishes(cfg: Config, s: State, c: Card, r: Frame, c': Card)
    requires 2 <= cfg.fsc && r != [] && r[0] == IPcb(s.toggle, false) && CardStep(c, s.frame, r, c')
    ensures Whole(r) && Completes(cfg, s, r[1..], [r], [c, c'])
  {
    assert At(r, 0) == r[0] && Payload(r) == r[1..];
    assert OnReply(cfg, s, r) == Stop(0, s.toggle, s.rx + r[1..], Complete);
    hide OnReply;
    hide CardStep;
    assert Run(cfg, s, [r]).sent == [Sent(s.frame, s.timeout, s.toggle)];
  }

  // ----- sessions: any sequence of calls -----

  datatype Exchanges = Exchanges(tx: Frame, replies: seq<Frame>, cards: seq<Card>)

  /** A session: every call starts with the block number the previous one left, and the card
      history of every call starts where the previous call's stopped. */
  ghost predicate Session(cfg: Config, toggle: bool, card: Card, calls: seq<Exchanges>)
    requires 2 <= cfg.fsc
    decreases |calls|
  {
    calls == [] ||
    var call := calls[0];
    && call.tx != [] && AllWhole(call.replies)
    && var out := Call(cfg, toggle, call.tx, call.replies);
    && Obeys(call.cards, out.sent, call.replies) && call.cards[0] == card
    && out.why != LinkLost
    && |out.sent| < |call.cards|
    && Session(cfg, out.toggle, call.cards[|out.sent|], calls[1..])
  }

  /** Final block number, card, and what the callers were handed. */
  ghost function After(cfg: Config, toggle: bool, card: Card, calls: seq<Exchanges>): (bool, Card, seq<Exchange>)
    requires 2 <= cfg.fsc && Session(cfg, toggle, card, calls)
    decreases |calls|
  {
    if calls == [] then (toggle, card, [])
    else
      var out := Call(cfg, toggle, calls[0].tx, calls[0].replies);
      var (t, c, rest) := After(cfg, out.toggle, calls[0].cards[|out.sent|], calls[1..]);
      (t, c, [Exchange(calls[0].tx, out.rx)] + rest)
  }

  /** The card has logged, on top of what it had, one exchange per call, with the call's message. */
  ghost predicate Logged(card: Card, c: Card, calls: seq<Exchanges>, done: seq<Exchange>) {
    && c.log == card.log + done
    && |done| == |calls| && forall i :: 0 <= i < |calls| ==> done[i].command == calls[i].tx
  }

  lemma LoggedCons(card: Card, c1: Card, c: Card, calls: seq<Exchanges>, rx: Frame, rest: seq<Exchange>)
    requires calls != [] && c1.log == card.log + [Exchange(calls[0].tx, rx)] && Logged(c1, c, calls[1..], rest)
    ensures Logged(card, c, calls, [Exchange(calls[0].tx, rx)] + rest)
  {
    assert card.log + ([Exchange(calls[0].tx, rx)] + rest) == c1.log + rest;
  }

  /** Over any session that does not lose the link, the card's log of commands and answers is
      exactly the callers' log of messages and results, and the ends stay in step throughout. The
      first call of a connection starts in step: a new handle's number is 1, and so is the number
      rule C gives the card at activation. */
  lemma {:induction false} SessionDelivers(cfg: Config, toggle: bool, card: Card, calls: seq<Exchanges>)
    requires 2 <= cfg.fsc && Session(cfg, toggle, card, calls)
    requires Idle(card) && card.bn == toggle
    ensures var (t, c, done) := After(cfg, toggle, card, calls);
            Idle(c) && c.bn == t && Logged(card, c, calls, done)
    decreases |calls|
  {
    if calls != [] {
      var call := calls[0];
      var out := Call(cfg, toggle, call.tx, call.replies);
      CallDelivers(cfg, toggle, call.tx, call.replies, call.cards);
      hide Call;
      hide Obeys;
      hide NumbersAgree;
      hide Logged;
      SessionDelivers(cfg, out.toggle, call.cards[|out.sent|], calls[1..]);
      var (t, c, rest) := After(cfg, out.toggle, call.cards[|out.sent|], calls[1..]);
      LoggedCons(card, call.cards[|out.sent|], c, calls, out.rx, rest);
    }
  }

  /** The outcomes of successive calls, each starting with the block number the previous one left. */
  function Outcomes(cfg: Config, toggle: bool, calls: seq<Exchanges>): (outs: seq<Outcome>)
    requires forall call <- calls :: AllWhole(call.replies)
    ensures |outs| == |calls|
    decreases |calls|
  {
    if calls == [] then []
    else
      assert calls[0] in calls;
      var out := Call(cfg, toggle, calls[0].tx, calls[0].replies);
      [out] + Outcomes(cfg, out.toggle, calls[1..])
  }

  /** What the callers of a session were handed is what the calls return one after the other. */
  lemma {:induction false} AfterIsOutcomes(cfg: Config, toggle: bool, card: Card, calls: seq<Exchanges>)
    requires 2 <= cfg.fsc && Session(cfg, toggle, card, calls)
    requires forall call <- calls :: AllWhole(call.replies)
    ensures var done, outs := After(cfg, toggle, card, calls).2, Outcomes(cfg, toggle, calls);
            |done| == |calls| && forall i :: 0 <= i < |calls| ==> done[i] == Exchange(calls[i].tx, outs[i].rx)
    decreases |calls|
  {
    if calls != [] {
      var out := Call(cfg, toggle, calls[0].tx, calls[0].replies);
      hide Call;
      hide Obeys;
      AfterIsOutcomes(cfg, out.toggle, calls[0].cards[|out.sent|], calls[1..]);
    }
  }
}
