/**
 The T=1 driver composed with a card that follows section 11 of ISO/IEC 7816-3. The card may
 reject any block it is sent with an error R-block (and then has not taken it in), may ask for
 a waiting time extension wherever it owes a block, may answer in any number of blocks, and
 may give up with some other S-block. A block it has no reason to expect leaves it free to do
 anything, so the results also say that the driver never sends such a block.
 */
module T1Session {
  import opened Common
  import opened T1Blocks
  import opened T1Spec
  import opened T1Safety
  import opened T1Outgoing

  datatype Owed = OwesAck | OwesBlock

  datatype Phase = WaitCommand | WaitAck | WaitWtx(bwi: bv8, owed: Owed)

  datatype Exchange = Exchange(command: seq<bv8>, answer: seq<bv8>)

  /** `nr` is the number the card expects in the next I-block, `ns` the number of its own next one;
      `blocks`, `wtxs` and `rejects` count the answer blocks, requests for time and rejections it has
      sent. */
  datatype Card = Card(
    ns: bool, nr: bool, phase: Phase, command: seq<bv8>, answer: seq<bv8>, log: seq<Exchange>,
    blocks: nat, wtxs: nat, rejects: nat)

  /** Everything the card has said other than acknowledgements. */
  function Said(c: Card): nat { c.blocks + c.wtxs + c.rejects }

  predicate Idle(c: Card) { c.phase == WaitCommand && c.command == [] && c.answer == [] }

  datatype Accepted = Accepted(card: Card, owed: Owed) | Unexpected

  ghost function Accept(c: Card, tx: Tpdu): Accepted {
    if !WellFormed(tx) then Unexpected
    else
      match c.phase
      case WaitCommand =>
        if tx[1] & 0x9f == 0x00 && (tx[1] & 0x40 != 0) == c.nr then
          Accepted(c.(nr := !c.nr, command := c.command + Inf(tx)), if tx[1] & 0x20 != 0 then OwesAck else OwesBlock)
        else Unexpected
      case WaitAck =>
        if tx[1] == (if c.ns then 0x90 else 0x80) && Inf(tx) == [] then Accepted(c, OwesBlock) else Unexpected
      case WaitWtx(bwi, owed) =>
        if tx[1] == 0xe3 && Inf(tx) == [bwi] then Accepted(c, owed) else Unexpected
  }

  predicate WtxRequest(r: Tpdu) { |r| == 5 && r[1] == 0xc3 && r[2] == 1 }

  ghost predicate Replies(c: Card, owed: Owed, r: Tpdu, c': Card) {
    || (WtxRequest(r) && c' == c.(phase := WaitWtx(r[3], owed), wtxs := c.wtxs + 1))
    || OtherSupervisory(r)
    || (owed == OwesAck && |r| >= 4 && r[1] == (if c.nr then 0x90 else 0x80) && c' == c.(phase := WaitCommand))
    || (owed == OwesBlock && |r| >= 4 && r[1] == (if c.ns then 0x60 else 0x20)
        && c' == c.(ns := !c.ns, phase := WaitAck, answer := c.answer + Inf(r), blocks := c.blocks + 1))
    || (owed == OwesBlock && |r| >= 4 && r[1] == (if c.ns then 0x40 else 0x00)
        && c' == c.(ns := !c.ns, phase := WaitCommand, command := [], answer := [], blocks := c.blocks + 1,
                    log := c.log + [Exchange(c.command, c.answer + Inf(r))]))
  }

  ghost predicate CardStep(c: Card, tx: Tpdu, r: Tpdu, c': Card) {
    || (IsRejection(r) && c' == c.(rejects := c.rejects + 1))
    || match Accept(c, tx)
       case Unexpected => true
       case Accepted(a, owed) => Replies(a, owed, r, c')
  }

  ghost predicate Obeys(cards: seq<Card>, sent: seq<Tpdu>, replies: seq<Tpdu>) {
    && |cards| == |replies| + 1
    && forall i :: 0 <= i < |replies| && i < |sent| ==> CardStep(cards[i], sent[i], replies[i], cards[i + 1])
  }

  /** The driver's response so far is the card's answer so far, and the rest of the buffer is free. */
  ghost predicate ResponseOk(cfg: Config, capacity: nat, s: State, answer: seq<bv8>) {
    if cfg.wantsResponse then s.resp == answer && |s.resp| + s.room == capacity else s.resp == []
  }

  /** The relation between driver and card each time the driver hands over a block. */
  ghost predicate InStep(cfg: Config, apdu: seq<bv8>, capacity: nat, log: seq<Exchange>, s: State, c: Card) {
    && c.log == log && c.ns == s.nr && ResponseOk(cfg, capacity, s, c.answer)
    && |s.buf| <= CHUNK
    && (s.sending ==> c.answer == [])
    && match c.phase
       case WaitCommand =>
         && s.sending && c.nr == s.ns
         && WellFormed(s.tpdu) && s.tpdu[1] == IPcb(s.ns, More(s.tpdu[1]))
         && c.command + Inf(s.tpdu) + (if More(s.tpdu[1]) then s.buf else []) == apdu
       case WaitAck =>
         && !s.sending && c.nr == s.ns && s.tpdu == Block(cfg.nad, RPcb(c.ns, 0), []) && c.command == apdu
       case WaitWtx(bwi, OwesAck) =>
         && s.sending && c.nr == !s.ns && s.tpdu == Block(cfg.nad, WTX_RESPONSE, [bwi])
         && c.command + s.buf == apdu
       case WaitWtx(bwi, OwesBlock) =>
         && c.nr == (s.ns != s.sending) && s.tpdu == Block(cfg.nad, WTX_RESPONSE, [bwi]) && c.command == apdu
  }

  /** Acknowledgements the card still owes. */
  ghost function Pending(s: State, c: Card): nat {
    match c.phase
    case WaitCommand => if |s.tpdu| >= 4 && More(s.tpdu[1]) then 1 else 0
    case WaitAck => 0
    case WaitWtx(_, owed) => if owed == OwesAck then 1 else 0
  }

  /** The block the driver sends is one the card expects. */
  lemma Expected(cfg: Config, apdu: seq<bv8>, capacity: nat, log: seq<Exchange>, s: State, c: Card)
    requires InStep(cfg, apdu, capacity, log, s, c)
    ensures var a := Accept(c, s.tpdu);
            && a.Accepted? && a.card.log == log && a.card.answer == c.answer && a.card.ns == s.nr
            && a.card.nr == (s.ns != s.sending)
            && (a.owed == OwesAck ==> s.sending && a.card.command + s.buf == apdu)
            && (a.owed == OwesBlock ==> a.card.command == apdu)
            && Said(a.card) == Said(c) && Pending(s, c) == (if a.owed == OwesAck then 1 else 0)
  {
    BlockWellFormed(cfg.nad, RPcb(c.ns, 0), []);
    match c.phase
    case WaitCommand =>
      assert c.command + Inf(s.tpdu) + [] == c.command + Inf(s.tpdu);
    case WaitAck =>
    case WaitWtx(bwi, owed) =>
      BlockWellFormed(cfg.nad, WTX_RESPONSE, [bwi]);
      match owed { case OwesAck => case OwesBlock => }
  }

  /** A chunk and what is left after it make up the buffer. */
  lemma ChunkBlock(cfg: Config, s: State)
    requires |s.buf| <= MAX_APDU
    ensures var next := NextChunk(cfg, s);
            && next.Send? && next.state == s.(buf := next.state.buf, tpdu := next.state.tpdu)
            && var t := next.state.tpdu;
            && WellFormed(t) && t[1] == IPcb(s.ns, More(t[1])) && |next.state.buf| <= CHUNK && (More(t[1]) <==> |s.buf| > CHUNK)
            && Inf(t) + (if More(t[1]) then next.state.buf else []) == s.buf
  {
    var more := |s.buf| > CHUNK;
    var chunk := if more then s.buf[..CHUNK] else s.buf;
    BlockWellFormed(cfg.nad, IPcb(s.ns, more), chunk);
    hide Block;
    hide WellFormed;
    hide Inf;
    assert chunk + (if more then s.buf[CHUNK..] else []) == s.buf;
  }

  /** The next chunk of the command meets a card that has accepted everything before it. */
  lemma ChunkInStep(cfg: Config, apdu: seq<bv8>, capacity: nat, log: seq<Exchange>, s: State, c: Card)
    requires |s.buf| <= MAX_APDU && s.sending && c.phase == WaitCommand
    requires c.log == log && c.ns == s.nr && c.nr == s.ns && c.answer == [] && ResponseOk(cfg, capacity, s, [])
    requires c.command + s.buf == apdu
    ensures var next := NextChunk(cfg, s);
            && next.Send? && InStep(cfg, apdu, capacity, log, next.state, c)
            && Pending(next.state, c) == (if |s.buf| > CHUNK then 1 else 0)
  {
    ChunkBlock(cfg, s);
    hide NextChunk;
    hide WellFormed;
    hide Inf;
    hide Block;
    hide More;
    hide IPcb;
    var s1 := NextChunk(cfg, s).state;
    var rest := if More(s1.tpdu[1]) then s1.buf else [];
    assert c.command + Inf(s1.tpdu) + rest == c.command + (Inf(s1.tpdu) + rest);
  }

  /** A finished call: the card has logged one more command, equal to the caller's, and the answer
      the caller holds; both counters agree with the card's. */
  ghost predicate Delivered(cfg: Config, apdu: seq<bv8>, log: seq<Exchange>, ns: bool, nr: bool, resp: seq<bv8>, c: Card) {
    && Idle(c) && ns == c.nr && nr == c.ns
    && |c.log| == |log| + 1 && c.log[..|log|] == log && c.log[|log|].command == apdu
    && resp == (if cfg.wantsResponse then c.log[|log|].answer else [])
  }

  /** The card has said more than the caller's buffer holds. */
  ghost predicate Overflow(capacity: nat, log: seq<Exchange>, c: Card) {
    |c.answer| > capacity || (|c.log| > |log| && |c.log[|log|].answer| > capacity)
  }

  /** `left` is what the card had said, less the acknowledgements it owed, before the exchange. */
  ghost predicate StepOk(cfg: Config, apdu: seq<bv8>, capacity: nat, log: seq<Exchange>, left: int, next: Next, c': Card) {
    if next.Send? then InStep(cfg, apdu, capacity, log, next.state, c') && Said(c') - Pending(next.state, c') == left + 1
    else
      || (next.why == Done && next.rc == OK && Said(c') == left + 1 && Delivered(cfg, apdu, log, next.ns, next.nr, next.resp, c'))
      || (next.why == NoRoom && next.rc == INV_VALUE && cfg.wantsResponse && Overflow(capacity, log, c'))
      || ((next.why == TooManyRetries || next.why == BadSupervisory) && next.rc == CARD_IO_ERROR)
  }

  lemma AnswerBlock(cfg: Config, apdu: seq<bv8>, capacity: nat, log: seq<Exchange>, s: State, a: Card, r: Tpdu, c': Card)
    requires a.log == log && a.ns == s.nr && a.nr == (s.ns != s.sending) && a.command == apdu
    requires ResponseOk(cfg, capacity, s, a.answer) && |s.buf| <= CHUNK
    requires |r| >= 4 && r[1] == IPcb(a.ns, More(r[1])) && Replies(a, OwesBlock, r, c')
    ensures StepOk(cfg, apdu, capacity, log, Said(a), OnReply(cfg, s, r), c')
  {
    assert IsI(r[1]) && SendNumber(r[1]) == s.nr;
    assert (log + [Exchange(apdu, a.answer + Inf(r))])[..|log|] == log;
    hide Block;
    hide Inf;
  }

  lemma AckBlock(cfg: Config, apdu: seq<bv8>, capacity: nat, log: seq<Exchange>, s: State, a: Card, r: Tpdu, c': Card)
    requires a.log == log && a.ns == s.nr && a.nr == !s.ns && s.sending && a.command + s.buf == apdu
    requires ResponseOk(cfg, capacity, s, []) && a.answer == [] && |s.buf| <= CHUNK
    requires |r| >= 4 && r[1] == RPcb(a.nr, 0) && c' == a.(phase := WaitCommand)
    ensures StepOk(cfg, apdu, capacity, log, Said(a) - 1, OnReply(cfg, s, r), c')
  {
    var s1 := s.(retries := 0, ns := !s.ns);
    assert OnReply(cfg, s, r) == NextChunk(cfg, s1);
    ChunkInStep(cfg, apdu, capacity, log, s1, c');
  }

  lemma Rejection(cfg: Config, apdu: seq<bv8>, capacity: nat, log: seq<Exchange>, s: State, c: Card, r: Tpdu)
    requires InStep(cfg, apdu, capacity, log, s, c) && IsRejection(r)
    ensures StepOk(cfg, apdu, capacity, log, Said(c) - Pending(s, c), OnReply(cfg, s, r), c.(rejects := c.rejects + 1))
  {
    assert !IsI(r[1]);
    hide Block;
    hide WellFormed;
  }

  /** A reply the card owed, or that puts it off. */
  lemma OwedReply(cfg: Config, apdu: seq<bv8>, capacity: nat, log: seq<Exchange>, s: State, a: Card, owed: Owed, r: Tpdu, c': Card)
    requires a.log == log && a.ns == s.nr && a.nr == (s.ns != s.sending) && |s.buf| <= CHUNK
    requires ResponseOk(cfg, capacity, s, a.answer) && (s.sending ==> a.answer == [])
    requires owed == OwesAck ==> s.sending && a.command + s.buf == apdu
    requires owed == OwesBlock ==> a.command == apdu
    requires Replies(a, owed, r, c')
    ensures StepOk(cfg, apdu, capacity, log, Said(a) - (if owed == OwesAck then 1 else 0), OnReply(cfg, s, r), c')
  {
    hide StepOk;
    hide Said;
    hide OnReply;
    if WtxRequest(r) && c' == a.(phase := WaitWtx(r[3], owed), wtxs := a.wtxs + 1) {
      Extension(cfg, apdu, capacity, log, s, a, owed, r, c');
    } else if OtherSupervisory(r) {
      Supervisory(cfg, apdu, capacity, log, Said(a) - (if owed == OwesAck then 1 else 0), s, r, c');
    } else if owed == OwesAck {
      AckBlock(cfg, apdu, capacity, log, s, a, r, c');
    } else {
      AnswerBlock(cfg, apdu, capacity, log, s, a, r, c');
    }
  }

  /** One exchange keeps driver and card in step, or ends the call in one of the ways `StepOk` lists. */
  lemma ExchangeStep(cfg: Config, apdu: seq<bv8>, capacity: nat, log: seq<Exchange>, s: State, c: Card, r: Tpdu, c': Card)
    requires InStep(cfg, apdu, capacity, log, s, c) && CardStep(c, s.tpdu, r, c')
    ensures StepOk(cfg, apdu, capacity, log, Said(c) - Pending(s, c), OnReply(cfg, s, r), c')
  {
    if IsRejection(r) && c' == c.(rejects := c.rejects + 1) {
      Rejection(cfg, apdu, capacity, log, s, c, r);
    } else {
      Expected(cfg, apdu, capacity, log, s, c);
      var Accepted(a, owed) := Accept(c, s.tpdu);
      hide Accept;
      hide StepOk;
      hide Pending;
      hide Said;
      hide OnReply;
      hide Replies;
      OwedReply(cfg, apdu, capacity, log, s, a, owed, r, c');
    }
  }

  lemma Supervisory(cfg: Config, apdu: seq<bv8>, capacity: nat, log: seq<Exchange>, left: int, s: State, r: Tpdu, c': Card)
    requires OtherSupervisory(r)
    ensures OnReply(cfg, s, r) == Quit(CARD_IO_ERROR, s, BadSupervisory)
    ensures StepOk(cfg, apdu, capacity, log, left, OnReply(cfg, s, r), c')
  {
    var pcb := r[1];
    assert pcb & 0xc0 == 0xc0 && pcb & 0x20 == 0 && pcb & 0x1f == 3 ==> pcb == WTX_REQUEST;
  }

  lemma Extension(cfg: Config, apdu: seq<bv8>, capacity: nat, log: seq<Exchange>, s: State, a: Card, owed: Owed, r: Tpdu, c': Card)
    requires a.log == log && a.ns == s.nr && a.nr == (s.ns != s.sending) && |s.buf| <= CHUNK
    requires ResponseOk(cfg, capacity, s, a.answer) && (s.sending ==> a.answer == [])
    requires owed == OwesAck ==> s.sending && a.command + s.buf == apdu
    requires owed == OwesBlock ==> a.command == apdu
    requires WtxRequest(r) && Replies(a, owed, r, c')
    ensures StepOk(cfg, apdu, capacity, log, Said(a) - (if owed == OwesAck then 1 else 0), OnReply(cfg, s, r), c')
  {
    assert !IsI(r[1]) && !IsR(r[1]);
  }

  lemma ObeysTail(cards: seq<Card>, sent: seq<Tpdu>, replies: seq<Tpdu>)
    requires Obeys(cards, sent, replies) && replies != [] && sent != []
    ensures CardStep(cards[0], sent[0], replies[0], cards[1])
    ensures Obeys(cards[1..], sent[1..], replies[1..])
  {
    var cs, ss, rs := cards[1..], sent[1..], replies[1..];
    forall i | 0 <= i < |rs| && i < |ss|
      ensures CardStep(cs[i], ss[i], rs[i], cs[i + 1])
    {
      assert CardStep(cards[i + 1], sent[i + 1], replies[i + 1], cards[i + 1 + 1]);
    }
  }

  /** How a call against a conforming card may end; `c` is the card after the last reply consumed. */
  ghost predicate Ends(cfg: Config, apdu: seq<bv8>, capacity: nat, log: seq<Exchange>, out: Outcome, c: Card) {
    || (out.why == Done && out.rc == OK && Delivered(cfg, apdu, log, out.ns, out.nr, out.resp, c))
    || (out.why == NoRoom && out.rc == INV_VALUE && cfg.wantsResponse && Overflow(capacity, log, c))
    || ((out.why == TooManyRetries || out.why == BadSupervisory) && out.rc == CARD_IO_ERROR)
  }

  /** In every card state a block of the call was sent to, the card had taken in a prefix of the
      command and logged nothing more. */
  ghost predicate AtMostOnce(apdu: seq<bv8>, log: seq<Exchange>, cards: seq<Card>, sent: seq<Tpdu>) {
    forall i :: 0 <= i < |cards| && i < |sent| ==> cards[i].log == log && cards[i].command <= apdu
  }

  lemma AtMostOnceCons(apdu: seq<bv8>, log: seq<Exchange>, cards: seq<Card>, sent: seq<Tpdu>)
    requires cards != [] && cards[0].log == log && cards[0].command <= apdu
    requires sent != [] && AtMostOnce(apdu, log, cards[1..], sent[1..])
    ensures AtMostOnce(apdu, log, cards, sent)
  {
    forall i | 0 <= i < |cards| && i < |sent| ensures cards[i].log == log && cards[i].command <= apdu {
      if i > 0 { assert cards[1..][i - 1] == cards[i]; }
    }
  }

  lemma InStepIsPartial(cfg: Config, apdu: seq<bv8>, capacity: nat, log: seq<Exchange>, s: State, c: Card)
    requires InStep(cfg, apdu, capacity, log, s, c)
    ensures c.log == log && c.command <= apdu
  {
    match c.phase
    case WaitCommand =>
      assert apdu == c.command + (Inf(s.tpdu) + (if More(s.tpdu[1]) then s.buf else []));
    case WaitAck =>
    case WaitWtx(bwi, owed) =>
      match owed { case OwesAck => case OwesBlock => }
  }

  lemma {:induction false} RunAtMostOnce(cfg: Config, apdu: seq<bv8>, capacity: nat, log: seq<Exchange>, s: State,
                                         replies: seq<Tpdu>, cards: seq<Card>)
    requires Obeys(cards, Run(cfg, s, replies).sent, replies)
    requires InStep(cfg, apdu, capacity, log, s, cards[0])
    ensures AtMostOnce(apdu, log, cards, Run(cfg, s, replies).sent)
    decreases |replies|
  {
    var out := Run(cfg, s, replies);
    InStepIsPartial(cfg, apdu, capacity, log, s, cards[0]);
    if replies != [] {
      Peel(cfg, s, replies);
      ObeysTail(cards, out.sent, replies);
      ExchangeStep(cfg, apdu, capacity, log, s, cards[0], replies[0], cards[1]);
      hide OnReply;
      hide InStep;
      hide CardStep;
      var next := OnReply(cfg, s, replies[0]);
      if next.Send? {
        RunAtMostOnce(cfg, apdu, capacity, log, next.state, replies[1..], cards[1..]);
      }
      hide Run;
      AtMostOnceCons(apdu, log, cards, out.sent);
    }
  }

  /** How a run against a card with the given history may go; `left` is what the card had said, less
      the acknowledgements it owed, before the first exchange. */
  ghost predicate RunOk(cfg: Config, apdu: seq<bv8>, capacity: nat, log: seq<Exchange>, left: int, out: Outcome, cards: seq<Card>)
    requires cards != []
  {
    var n := |cards| - 1;
    if out.why == LinkLost then |out.sent| == n + 1 && left + n <= Said(cards[n])
    else
      && |out.sent| <= n && Ends(cfg, apdu, capacity, log, out, cards[|out.sent|])
      && (out.why == Done ==> left + |out.sent| == Said(cards[|out.sent|]))
  }

  lemma RunOkCons(cfg: Config, apdu: seq<bv8>, capacity: nat, log: seq<Exchange>, left: int, t: Tpdu, rest: Outcome, cards: seq<Card>)
    requires |cards| > 1 && RunOk(cfg, apdu, capacity, log, left + 1, rest, cards[1..])
    ensures RunOk(cfg, apdu, capacity, log, left, rest.(sent := [t] + rest.sent), cards)
  {
    var tail := cards[1..];
    assert forall i :: 0 <= i < |tail| ==> tail[i] == cards[i + 1];
    hide Delivered;
    hide Overflow;
    hide Said;
  }

  lemma {:induction false} RunInStep(cfg: Config, apdu: seq<bv8>, capacity: nat, log: seq<Exchange>, s: State,
                                     replies: seq<Tpdu>, cards: seq<Card>)
    requires Obeys(cards, Run(cfg, s, replies).sent, replies)
    requires InStep(cfg, apdu, capacity, log, s, cards[0])
    ensures RunOk(cfg, apdu, capacity, log, Said(cards[0]) - Pending(s, cards[0]), Run(cfg, s, replies), cards)
    decreases |replies|
  {
    var out, left := Run(cfg, s, replies), Said(cards[0]) - Pending(s, cards[0]);
    if replies != [] {
      Peel(cfg, s, replies);
      ObeysTail(cards, out.sent, replies);
      ExchangeStep(cfg, apdu, capacity, log, s, cards[0], replies[0], cards[1]);
      var next := OnReply(cfg, s, replies[0]);
      hide OnReply;
      hide InStep;
      hide CardStep;
      if next.Send? {
        hide RunOk;
        RunInStep(cfg, apdu, capacity, log, next.state, replies[1..], cards[1..]);
        RunOkCons(cfg, apdu, capacity, log, left, s.tpdu, Run(cfg, next.state, replies[1..]), cards);
      }
    }
  }

  /** At most once while it lasts, exactly once on success: against a conforming card, a call either
      loses the link after the last reply, or ends as `Ends` says; when it returns 0 the card has taken
      in the command exactly once and in order, the caller holds the card's whole answer, and both
      counters agree with the card's. Success takes exactly one exchange per chunk but the last,
      answer block, request for time and rejection, and only a shorter stream can lose the link. */
  lemma CallDelivers(cfg: Config, ns: bool, nr: bool, apdu: seq<bv8>, capacity: nat, replies: seq<Tpdu>, cards: seq<Card>)
    requires 1 <= |apdu| <= MAX_APDU
    requires Obeys(cards, Call(cfg, ns, nr, apdu, capacity, replies).sent, replies)
    requires Idle(cards[0]) && cards[0].nr == ns && cards[0].ns == nr
    ensures AtMostOnce(apdu, cards[0].log, cards, Call(cfg, ns, nr, apdu, capacity, replies).sent)
    ensures var out := Call(cfg, ns, nr, apdu, capacity, replies);
            var first := cards[0];
            if out.why == LinkLost then
              && |out.sent| == |replies| + 1 && out.rc == CARD_IO_ERROR
              && |replies| < Chunks(apdu) + (Said(cards[|replies|]) - Said(first))
            else
              && |out.sent| <= |replies| && Ends(cfg, apdu, capacity, first.log, out, cards[|out.sent|])
              && (out.why == Done ==> |out.sent| == Chunks(apdu) - 1 + (Said(cards[|out.sent|]) - Said(first)))
  {
    var s := State(ns, nr, true, 0, apdu, [], [], capacity);
    ChunkInStep(cfg, apdu, capacity, cards[0].log, s, cards[0]);
    var first := NextChunk(cfg, s).state;
    RunInStep(cfg, apdu, capacity, cards[0].log, first, replies, cards);
    RunAtMostOnce(cfg, apdu, capacity, cards[0].log, first, replies, cards);
    RunLost(cfg, first, replies);
    hide Run;
    hide NextChunk;
    hide Obeys;
    hide InStep;
    hide Pending;
    hide AtMostOnce;
    hide Ends;
  }

  /** Against a conforming card, a call returns 0 exactly when the link holds, no four consecutive
      replies are rejections, no S-block but requests for time comes, and the answer fits the buffer. */
  lemma CallSucceedsIff(cfg: Config, ns: bool, nr: bool, apdu: seq<bv8>, capacity: nat, replies: seq<Tpdu>, cards: seq<Card>)
    requires 1 <= |apdu| <= MAX_APDU
    requires Obeys(cards, Call(cfg, ns, nr, apdu, capacity, replies).sent, replies)
    requires Idle(cards[0]) && cards[0].nr == ns && cards[0].ns == nr
    ensures var out := Call(cfg, ns, nr, apdu, capacity, replies);
            var seen := Consumed(out, replies);
            out.rc == OK <==>
              && |out.sent| <= |replies|
              && !FourRejections(seen) && !HasOther(seen)
              && (cfg.wantsResponse ==> |Received(nr, seen)| <= capacity)
  {
    CallDelivers(cfg, ns, nr, apdu, capacity, replies, cards);
    CallIsSafe(cfg, ns, nr, apdu, capacity, replies);
    RetriesIff(cfg, ns, nr, apdu, capacity, replies);
    hide Call;
    hide Obeys;
    hide AtMostOnce;
    hide FourRejections;
    hide HasOther;
    hide AllSound;
    hide Resends;
    hide FourthEnds;
    hide Delivered;
    hide Overflow;
  }

  lemma {:induction false} RunLost(cfg: Config, s: State, replies: seq<Tpdu>)
    ensures var out := Run(cfg, s, replies); out.why == LinkLost ==> out.rc == CARD_IO_ERROR
    decreases |replies|
  {
    if replies != [] {
      Peel(cfg, s, replies);
      var next := OnReply(cfg, s, replies[0]);
      if next.Send? { RunLost(cfg, next.state, replies[1..]); }
    }
  }

  // ----- there are such runs -----

  function Stored(cfg: Config, resp: seq<bv8>, part: seq<bv8>): seq<bv8> {
    if cfg.wantsResponse then resp + part else resp
  }

  /** A run that returns 0 with `answer` stored after what was there. */
  ghost predicate Completes(cfg: Config, s: State, answer: seq<bv8>, replies: seq<Tpdu>, cards: seq<Card>) {
    var out := Run(cfg, s, replies);
    Obeys(cards, out.sent, replies) && out.rc == OK && out.resp == Stored(cfg, s.resp, answer)
  }

  lemma CompletesCons(cfg: Config, s: State, s1: State, part: seq<bv8>, answer: seq<bv8>, c: Card, r: Tpdu,
                      replies: seq<Tpdu>, cards: seq<Card>)
    requires OnReply(cfg, s, r) == Send(s1) && s1.resp == Stored(cfg, s.resp, part)
    requires Completes(cfg, s1, answer, replies, cards) && CardStep(c, s.tpdu, r, cards[0])
    ensures Completes(cfg, s, part + answer, [r] + replies, [c] + cards)
  {
    hide OnReply;
    hide CardStep;
    var rs, cs := [r] + replies, [c] + cards;
    var rest := Run(cfg, s1, replies);
    assert rs[1..] == replies && rs[0] == r;
    Peel(cfg, s, rs);
    var out := Run(cfg, s, rs);
    hide Run;
    forall i | 0 <= i < |rs| && i < |out.sent|
      ensures CardStep(cs[i], out.sent[i], rs[i], cs[i + 1])
    {
      if i > 0 { assert CardStep(cards[i - 1], rest.sent[i - 1], replies[i - 1], cards[i - 1 + 1]); }
    }
    assert s.resp + part + answer == s.resp + (part + answer);
  }

  /** What the driver makes of an answer block that fits. */
  lemma AnswerTaken(cfg: Config, s: State, r: Tpdu)
    requires |r| >= 4 && r[1] == IPcb(s.nr, More(r[1])) && (cfg.wantsResponse ==> |Inf(r)| <= s.room)
    ensures var next := OnReply(cfg, s, r);
            if More(r[1]) then
              && next.Send? && next.state.resp == Stored(cfg, s.resp, Inf(r))
              && (cfg.wantsResponse ==> next.state.room == s.room - |Inf(r)|)
            else next.Return? && next.rc == OK && next.resp == Stored(cfg, s.resp, Inf(r))
  {
    hide Block;
    hide Inf;
  }

  lemma AckTaken(cfg: Config, s: State, r: Tpdu)
    requires s.sending && |s.buf| <= CHUNK && |r| >= 4 && r[1] == RPcb(!s.ns, 0)
    ensures var next := OnReply(cfg, s, r);
            next.Send? && next.state.resp == s.resp && next.state.room == s.room
  {
    StrayAck(cfg, s, r);
  }

  lemma Finishes(cfg: Config, s: State, c: Card, r: Tpdu, c': Card)
    requires |r| >= 4 && r[1] == IPcb(s.nr, false) && (cfg.wantsResponse ==> |Inf(r)| <= s.room)
    requires CardStep(c, s.tpdu, r, c')
    ensures Completes(cfg, s, Inf(r), [r], [c, c'])
  {
    AnswerTaken(cfg, s, r);
    Peel(cfg, s, [r]);
    hide OnReply;
    hide Run;
    hide CardStep;
    hide Inf;
  }

  /** A card that owes an acknowledgement can give it. */
  lemma AckStep(cfg: Config, apdu: seq<bv8>, capacity: nat, log: seq<Exchange>, s: State, c: Card)
    returns (r: Tpdu, c': Card)
    requires InStep(cfg, apdu, capacity, log, s, c) && Pending(s, c) == 1
    ensures CardStep(c, s.tpdu, r, c')
    ensures var next := OnReply(cfg, s, r);
            && next.Send? && InStep(cfg, apdu, capacity, log, next.state, c') && Pending(next.state, c') == 0
            && next.state.resp == s.resp && next.state.room == s.room
  {
    Expected(cfg, apdu, capacity, log, s, c);
    var a := Accept(c, s.tpdu).card;
    r, c' := Block(cfg.nad, RPcb(a.nr, 0), []), a.(phase := WaitCommand);
    BlockWellFormed(cfg.nad, RPcb(a.nr, 0), []);
    assert |s.buf| <= CHUNK;
    hide Accept;
    hide Pending;
    hide InStep;
    hide Block;
    hide WellFormed;
    assert Replies(a, OwesAck, r, c');
    hide Replies;
    ExchangeStep(cfg, apdu, capacity, log, s, c, r, c');
    AckTaken(cfg, s, r);
  }

  /** A card that owes an answer can give any block of it. */
  lemma BlockStep(cfg: Config, apdu: seq<bv8>, capacity: nat, log: seq<Exchange>, s: State, c: Card,
                  block: seq<bv8>, more: bool)
    returns (r: Tpdu, c': Card)
    requires InStep(cfg, apdu, capacity, log, s, c) && Pending(s, c) == 0
    requires |block| <= 254 && (cfg.wantsResponse ==> |block| <= s.room)
    ensures CardStep(c, s.tpdu, r, c') && |r| >= 4 && r[1] == IPcb(s.nr, more) && Inf(r) == block
    ensures var next := OnReply(cfg, s, r);
            more ==>
              && next.Send? && InStep(cfg, apdu, capacity, log, next.state, c') && Pending(next.state, c') == 0
              && next.state.resp == Stored(cfg, s.resp, block)
              && (cfg.wantsResponse ==> next.state.room == s.room - |block|)
  {
    Expected(cfg, apdu, capacity, log, s, c);
    var a := Accept(c, s.tpdu).card;
    r := Block(cfg.nad, IPcb(s.nr, more), block);
    BlockWellFormed(cfg.nad, IPcb(s.nr, more), block);
    c' := if more then a.(ns := !a.ns, phase := WaitAck, answer := a.answer + block, blocks := a.blocks + 1)
    else a.(ns := !a.ns, phase := WaitCommand, command := [], answer := [], blocks := a.blocks + 1,
            log := a.log + [Exchange(a.command, a.answer + block)]);
    hide Accept;
    hide Pending;
    hide InStep;
    hide Block;
    hide WellFormed;
    hide Inf;
    assert Replies(a, OwesBlock, r, c');
    hide Replies;
    ExchangeStep(cfg, apdu, capacity, log, s, c, r, c');
    AnswerTaken(cfg, s, r);
    hide OnReply;
  }

  /** Whatever answer blocks a card has to say, if they fit the buffer, some conforming run delivers
      them all. */
  lemma {:induction false} Completable(cfg: Config, apdu: seq<bv8>, capacity: nat, log: seq<Exchange>, s: State, c: Card,
                                       blocks: seq<seq<bv8>>)
    returns (replies: seq<Tpdu>, cards: seq<Card>)
    requires InStep(cfg, apdu, capacity, log, s, c) && blocks != [] && forall b <- blocks :: |b| <= 254
    requires cfg.wantsResponse ==> |Flatten(blocks)| <= s.room
    ensures Completes(cfg, s, Flatten(blocks), replies, cards) && cards[0] == c
    decreases Pending(s, c) + |blocks|
  {
    PendingBound(s, c);
    hide InStep;
    hide Pending;
    hide CardStep;
    hide OnReply;
    hide Completes;
    var more, rest := |blocks| > 1, blocks[1..];
    assert blocks[0] in blocks && forall b <- rest :: b in blocks;
    assert Flatten(blocks) == blocks[0] + Flatten(rest);
    var r, c';
    if Pending(s, c) == 1 {
      r, c' := AckStep(cfg, apdu, capacity, log, s, c);
      var s1 := OnReply(cfg, s, r).state;
      replies, cards := Completable(cfg, apdu, capacity, log, s1, c', blocks);
      assert s.resp + [] == s.resp && [] + Flatten(blocks) == Flatten(blocks);
      CompletesCons(cfg, s, s1, [], Flatten(blocks), c, r, replies, cards);
      replies, cards := [r] + replies, [c] + cards;
    } else {
      r, c' := BlockStep(cfg, apdu, capacity, log, s, c, blocks[0], more);
      if more {
        var s1 := OnReply(cfg, s, r).state;
        replies, cards := Completable(cfg, apdu, capacity, log, s1, c', rest);
        CompletesCons(cfg, s, s1, blocks[0], Flatten(rest), c, r, replies, cards);
        replies, cards := [r] + replies, [c] + cards;
      } else {
        Finishes(cfg, s, c, r, c');
        assert Flatten(rest) == [] && blocks[0] + [] == blocks[0];
        replies, cards := [r], [c, c'];
      }
    }
  }

  lemma PendingBound(s: State, c: Card)
    ensures Pending(s, c) <= 1
  {
  }

  /** Every command is answerable: from an idle card in step, for any answer blocks that fit there is a
      conforming run on which the call returns 0 with exactly their contents. */
  lemma CallCompletable(cfg: Config, ns: bool, nr: bool, apdu: seq<bv8>, capacity: nat, c: Card, blocks: seq<seq<bv8>>)
    returns (replies: seq<Tpdu>, cards: seq<Card>)
    requires 1 <= |apdu| <= MAX_APDU && Idle(c) && c.nr == ns && c.ns == nr
    requires blocks != [] && forall b <- blocks :: |b| <= 254
    requires cfg.wantsResponse ==> |Flatten(blocks)| <= capacity
    ensures var out := Call(cfg, ns, nr, apdu, capacity, replies);
            && Obeys(cards, out.sent, replies) && cards[0] == c
            && out.rc == OK && out.resp == (if cfg.wantsResponse then Flatten(blocks) else [])
  {
    var s := State(ns, nr, true, 0, apdu, [], [], capacity);
    ChunkInStep(cfg, apdu, capacity, c.log, s, c);
    ChunkBlock(cfg, s);
    var first := NextChunk(cfg, s).state;
    hide InStep;
    hide Run;
    hide NextChunk;
    hide Obeys;
    hide Flatten;
    replies, cards := Completable(cfg, apdu, capacity, c.log, first, c, blocks);
    assert [] + Flatten(blocks) == Flatten(blocks);
  }

  // ----- sessions: any sequence of calls -----

  datatype Exchanges = Exchanges(apdu: seq<bv8>, capacity: nat, replies: seq<Tpdu>, cards: seq<Card>)

  /** Calls that all return 0, each starting with the counters and the card the previous one left. */
  ghost predicate Session(cfg: Config, ns: bool, nr: bool, card: Card, calls: seq<Exchanges>)
    decreases |calls|
  {
    calls == [] ||
    var call := calls[0];
    var out := Call(cfg, ns, nr, call.apdu, call.capacity, call.replies);
    && 1 <= |call.apdu| <= MAX_APDU
    && Obeys(call.cards, out.sent, call.replies) && call.cards[0] == card
    && out.rc == OK && |out.sent| < |call.cards|
    && Session(cfg, out.ns, out.nr, call.cards[|out.sent|], calls[1..])
  }

  /** Final card, and what the callers were handed. */
  ghost function After(cfg: Config, ns: bool, nr: bool, card: Card, calls: seq<Exchanges>): (Card, seq<Exchange>)
    requires Session(cfg, ns, nr, card, calls)
    decreases |calls|
  {
    if calls == [] then (card, [])
    else
      var call := calls[0];
      var out := Call(cfg, ns, nr, call.apdu, call.capacity, call.replies);
      var (c, rest) := After(cfg, out.ns, out.nr, call.cards[|out.sent|], calls[1..]);
      (c, [Exchange(call.apdu, out.resp)] + rest)
  }

  /** The card has logged, on top of what it had, one exchange per call, with the call's command. */
  ghost predicate Logged(card: Card, c: Card, calls: seq<Exchanges>, done: seq<Exchange>) {
    && c.log == card.log + done
    && |done| == |calls| && forall i :: 0 <= i < |calls| ==> done[i].command == calls[i].apdu
  }

  lemma LoggedCons(card: Card, c1: Card, c: Card, calls: seq<Exchanges>, resp: seq<bv8>, rest: seq<Exchange>)
    requires calls != [] && c1.log == card.log + [Exchange(calls[0].apdu, resp)] && Logged(c1, c, calls[1..], rest)
    ensures Logged(card, c, calls, [Exchange(calls[0].apdu, resp)] + rest)
  {
    assert card.log + ([Exchange(calls[0].apdu, resp)] + rest) == c1.log + rest;
  }

  /** One successful call of a session. */
  lemma CallLogs(cfg: Config, ns: bool, nr: bool, call: Exchanges)
    requires cfg.wantsResponse && 1 <= |call.apdu| <= MAX_APDU
    requires var out := Call(cfg, ns, nr, call.apdu, call.capacity, call.replies);
             Obeys(call.cards, out.sent, call.replies) && out.rc == OK && |out.sent| < |call.cards|
    requires Idle(call.cards[0]) && call.cards[0].nr == ns && call.cards[0].ns == nr
    ensures var out := Call(cfg, ns, nr, call.apdu, call.capacity, call.replies);
            var c := call.cards[|out.sent|];
            && Idle(c) && c.nr == out.ns && c.ns == out.nr
            && c.log == call.cards[0].log + [Exchange(call.apdu, out.resp)]
  {
    CallDelivers(cfg, ns, nr, call.apdu, call.capacity, call.replies, call.cards);
    hide Call;
    hide Obeys;
    var out := Call(cfg, ns, nr, call.apdu, call.capacity, call.replies);
    var c, log := call.cards[|out.sent|], call.cards[0].log;
    assert c.log == c.log[..|log|] + [c.log[|log|]];
  }

  /** Over any sequence of successful calls that start in step, the card's log of commands and
      answers is exactly the callers' log of commands and responses. */
  lemma {:induction false} SessionDelivers(cfg: Config, ns: bool, nr: bool, card: Card, calls: seq<Exchanges>)
    requires cfg.wantsResponse && Session(cfg, ns, nr, card, calls)
    requires Idle(card) && card.nr == ns && card.ns == nr
    ensures var (c, done) := After(cfg, ns, nr, card, calls);
            Idle(c) && Logged(card, c, calls, done)
    decreases |calls|
  {
    if calls != [] {
      var call := calls[0];
      var out := Call(cfg, ns, nr, call.apdu, call.capacity, call.replies);
      CallLogs(cfg, ns, nr, call);
      hide Call;
      hide Logged;
      SessionDelivers(cfg, out.ns, out.nr, call.cards[|out.sent|], calls[1..]);
      var (c, rest) := After(cfg, out.ns, out.nr, call.cards[|out.sent|], calls[1..]);
      LoggedCons(card, call.cards[|out.sent|], c, calls, out.resp, rest);
    }
  }
}
