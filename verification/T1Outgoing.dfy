/**
 What a call of the T=1 driver sends of the command, and under which numbers, whatever the card
 replies.
 */
module T1Outgoing {
  import opened Common
  import opened T1Blocks
  import opened T1Spec
  import opened T1Safety

  /** An error-free R-block that the driver, while sending under number `ns`, takes for an
      acknowledgement. */
  predicate Acknowledges(ns: bool, t: Tpdu) {
    |t| >= 4 && t[1] & 0xcf == 0x80 && (t[1] & 0x10 != 0) != ns
  }

  /** Acknowledgements in a stream before its first I-block; each one flips the number. */
  function Acks(ns: bool, replies: seq<Tpdu>): nat
    decreases |replies|
  {
    if replies == [] || InformationBlock(replies[0]) then 0
    else if Acknowledges(ns, replies[0]) then 1 + Acks(!ns, replies[1..])
    else Acks(ns, replies[1..])
  }

  /** The number of the next command after a stream: flipped by every acknowledgement before the
      first I-block, and by that block. */
  function SendAfter(ns: bool, replies: seq<Tpdu>): bool
    decreases |replies|
  {
    if replies == [] then ns
    else if InformationBlock(replies[0]) then !ns
    else SendAfter(if Acknowledges(ns, replies[0]) then !ns else ns, replies[1..])
  }

  predicate InformationBlock(t: Tpdu) { |t| >= 4 && t[1] & 0x80 == 0 }

  /** Command data a block carries. */
  function Carried(t: Tpdu): seq<bv8> { if InformationBlock(t) then Inf(t) else [] }

  /** Command data of the blocks sent after each reply, repetitions of rejected blocks not counted. */
  function Later(sent: seq<Tpdu>, replies: seq<Tpdu>): seq<bv8> {
    if sent == [] || replies == [] then []
    else (if IsRejection(replies[0]) then [] else Carried(sent[0])) + Later(sent[1..], replies[1..])
  }

  /** Command data of all blocks sent, repetitions of rejected blocks not counted. */
  function Outgoing(sent: seq<Tpdu>, replies: seq<Tpdu>): seq<bv8> {
    if sent == [] then [] else Carried(sent[0]) + Later(sent[1..], replies)
  }

  function Repeat(s: seq<bv8>, n: nat): seq<bv8> {
    if n == 0 then [] else s + Repeat(s, n - 1)
  }

  /** Number of chunks of a command. */
  function Chunks(apdu: seq<bv8>): nat { if |apdu| > 128 then 2 else 1 }

  function FirstChunk(apdu: seq<bv8>): seq<bv8> { if |apdu| > 128 then apdu[..128] else apdu }
  function LastChunk(apdu: seq<bv8>): seq<bv8> { if |apdu| > 128 then apdu[128..] else apdu }

  lemma CarriedBlock(nad: bv8, pcb: bv8, inf: seq<bv8>)
    requires |inf| <= 254
    ensures Carried(Block(nad, pcb, inf)) == if IsI(pcb) then inf else []
  {
    BlockWellFormed(nad, pcb, inf);
  }

  /** Effect of one reply on the send number, on what is left to send and on the next block. */
  ghost predicate Sends(s: State, t: Tpdu, next: Next) {
    var ack := s.sending && Acknowledges(s.ns, t);
    if next.Send? then
      && next.state.buf == s.buf && next.state.sending == (s.sending && !InformationBlock(t))
      && next.state.ns == (s.ns != (ack || (s.sending && InformationBlock(t))))
      && (!IsRejection(t) ==> Carried(next.state.tpdu) == if ack then s.buf else [])
    else !ack && next.ns == (s.ns != (s.sending && InformationBlock(t)))
  }

  lemma InformationSends(cfg: Config, s: State, t: Tpdu)
    requires InformationBlock(t)
    ensures Sends(s, t, OnInformation(cfg, s, t))
  {
    forall nr, e: bv8 | e <= 2 ensures Carried(Block(cfg.nad, RPcb(nr, e), [])) == [] {
      CarriedBlock(cfg.nad, RPcb(nr, e), []);
    }
    assert !Acknowledges(s.ns, t);
    hide Block;
    hide Carried;
    hide Inf;
    hide RPcb;
  }

  lemma ReadySends(cfg: Config, s: State, t: Tpdu)
    requires |s.buf| <= CHUNK && |t| >= 4 && t[1] & 0xc0 == 0x80
    ensures Sends(s, t, OnReady(cfg, s, t))
  {
    CarriedBlock(cfg.nad, IPcb(!s.ns, false), s.buf);
    hide Block;
    hide Carried;
    hide IPcb;
  }

  lemma ReplySends(cfg: Config, s: State, t: Tpdu)
    requires |s.buf| <= CHUNK
    ensures Sends(s, t, OnReply(cfg, s, t))
  {
    if InformationBlock(t) {
      InformationSends(cfg, s, t);
    } else if |t| >= 4 && t[1] & 0xc0 == 0x80 {
      ReadySends(cfg, s, t);
    } else {
      CarriedBlock(cfg.nad, WTX_RESPONSE, if |t| >= 4 then [t[3]] else []);
    }
    hide OnInformation;
    hide OnReady;
    hide Block;
    hide Carried;
  }

  lemma SendsCons(s: State, s1: State, sent: seq<Tpdu>, replies: seq<Tpdu>, seen: seq<Tpdu>)
    requires replies != [] && seen != [] && seen[0] == replies[0] && Sends(s, replies[0], Send(s1))
    requires sent != [] && sent[0] == s1.tpdu
    requires Later(sent[1..], replies[1..]) == Repeat(s1.buf, if s1.sending then Acks(s1.ns, seen[1..]) else 0)
    ensures Later(sent, replies) == Repeat(s.buf, if s.sending then Acks(s.ns, seen) else 0)
    ensures (if s1.sending then SendAfter(s1.ns, seen[1..]) else s1.ns) == (if s.sending then SendAfter(s.ns, seen) else s.ns)
  {
    assert [] + Later(sent[1..], replies[1..]) == Later(sent[1..], replies[1..]);
    RejectionIsNoAck(s.ns, replies[0]);
    hide Carried;
    hide IsRejection;
    hide Acknowledges;
    hide InformationBlock;
  }

  lemma RejectionIsNoAck(ns: bool, t: Tpdu)
    ensures IsRejection(t) ==> !Acknowledges(ns, t) && !InformationBlock(t)
    ensures Acknowledges(ns, t) ==> !InformationBlock(t)
  {
  }

  lemma SendsLast(s: State, next: Next, t: Tpdu)
    requires next.Return? && Sends(s, t, next)
    ensures next.ns == (if s.sending then SendAfter(s.ns, [t]) else s.ns)
    ensures s.sending ==> Acks(s.ns, [t]) == 0
  {
    hide Acknowledges;
    hide InformationBlock;
    assert [t][1..] == [];
  }

  /** For every reply stream: each acknowledgement before the first I-block, and nothing else, makes
      the driver send what is left of the command once more. */
  lemma {:induction false} RunSendsLeft(cfg: Config, s: State, replies: seq<Tpdu>)
    requires |s.buf| <= CHUNK
    ensures var out := Run(cfg, s, replies);
            var seen := Consumed(out, replies);
            && out.sent != [] && out.sent[0] == s.tpdu
            && out.ns == (if s.sending then SendAfter(s.ns, seen) else s.ns)
            && Later(out.sent[1..], replies) == Repeat(s.buf, if s.sending then Acks(s.ns, seen) else 0)
    decreases |replies|
  {
    if replies != [] {
      Peel(cfg, s, replies);
      ConsumedPeel(cfg, s, replies);
      ReplySends(cfg, s, replies[0]);
      var next := OnReply(cfg, s, replies[0]);
      var out := Run(cfg, s, replies);
      var seen := Consumed(out, replies);
      hide OnReply;
      hide Run;
      hide Consumed;
      if next.Send? {
        assert next.state.buf == s.buf;
        hide Sends;
        RunSendsLeft(cfg, next.state, replies[1..]);
        assert next == Send(next.state);
        SendsCons(s, next.state, out.sent[1..], replies, seen);
      } else {
        hide Sends;
        SendsLast(s, next, replies[0]);
        assert seen == [replies[0]];
      }
    }
  }

  /** Every call, whatever the card replies: the first chunk goes out, and then the last chunk once per
      acknowledgement, whether or not it has gone out before; the send number follows. */
  lemma CallSends(cfg: Config, ns: bool, nr: bool, apdu: seq<bv8>, capacity: nat, replies: seq<Tpdu>)
    requires 1 <= |apdu| <= MAX_APDU
    ensures var out := Call(cfg, ns, nr, apdu, capacity, replies);
            var seen := Consumed(out, replies);
            && out.ns == SendAfter(ns, seen)
            && Outgoing(out.sent, replies) == FirstChunk(apdu) + Repeat(LastChunk(apdu), Acks(ns, seen))
  {
    var s := Begin(cfg, ns, nr, apdu, capacity).state;
    CarriedBlock(cfg.nad, IPcb(ns, |apdu| > CHUNK), FirstChunk(apdu));
    RunSendsLeft(cfg, s, replies);
    hide Block;
    hide Run;
    hide Carried;
  }

  /** The data sent is a prefix of the command exactly when there are fewer acknowledgements than
      chunks, and the whole command exactly when there is one fewer. */
  lemma SendsPrefixIff(cfg: Config, ns: bool, nr: bool, apdu: seq<bv8>, capacity: nat, replies: seq<Tpdu>)
    requires 1 <= |apdu| <= MAX_APDU
    ensures var out := Call(cfg, ns, nr, apdu, capacity, replies);
            var acks := Acks(ns, Consumed(out, replies));
            && (Outgoing(out.sent, replies) <= apdu <==> acks < Chunks(apdu))
            && (Outgoing(out.sent, replies) == apdu <==> acks + 1 == Chunks(apdu))
  {
    CallSends(cfg, ns, nr, apdu, capacity, replies);
    var out := Call(cfg, ns, nr, apdu, capacity, replies);
    hide Call;
    hide Outgoing;
    ChunksPrefixIff(apdu, Acks(ns, Consumed(out, replies)));
  }

  lemma ChunksPrefixIff(apdu: seq<bv8>, n: nat)
    requires 1 <= |apdu| <= MAX_APDU
    ensures var data := FirstChunk(apdu) + Repeat(LastChunk(apdu), n);
            (data <= apdu <==> n < Chunks(apdu)) && (data == apdu <==> n + 1 == Chunks(apdu))
  {
    var last := LastChunk(apdu);
    RepeatLength(last, n);
    if n == 1 {
      assert Repeat(last, 1) == last + [] == last;
    } else if n > 1 {
      MulMono(|last|, 2, n);
    }
    hide Repeat;
  }

  lemma {:induction false} RepeatLength(s: seq<bv8>, n: nat)
    ensures |Repeat(s, n)| == |s| * n
  {
    if n > 0 {
      RepeatLength(s, n - 1);
    }
  }

  lemma StrayAck(cfg: Config, s: State, t: Tpdu)
    requires s.sending && |s.buf| <= CHUNK && |t| >= 4 && t[1] == RPcb(!s.ns, 0)
    ensures OnReply(cfg, s, t) == Send(s.(retries := 0, ns := !s.ns, tpdu := Block(cfg.nad, IPcb(!s.ns, false), s.buf)))
    ensures !IsRejection(t)
  {
    hide Block;
  }

  lemma LastAnswer(cfg: Config, s: State, t: Tpdu)
    requires |t| >= 4 && t[1] == IPcb(s.nr, false) && |Inf(t)| <= s.room
    ensures OnReply(cfg, s, t).Return? && OnReply(cfg, s, t).rc == OK
  {
  }

  lemma SecondCarries(first: Tpdu, second: Tpdu, reply: Tpdu, last: Tpdu)
    requires !IsRejection(reply)
    ensures Outgoing([first, second], [reply, last]) == Carried(first) + Carried(second)
  {
    hide Carried;
    assert [first, second][1..] == [second];
    assert Later([second], [reply, last]) == Carried(second) + [];
  }

  /** One stray acknowledgement of the only chunk, then an answer: the call returns 0 having sent the
      command twice, as two blocks with different numbers. */
  lemma SentTwice(cfg: Config, ns: bool, nr: bool, apdu: seq<bv8>, capacity: nat, ack: Tpdu, answer: Tpdu)
    requires 1 <= |apdu| <= CHUNK
    requires |ack| >= 4 && ack[1] == RPcb(!ns, 0)
    requires |answer| >= 4 && answer[1] == IPcb(nr, false) && |Inf(answer)| <= capacity
    ensures var out := Call(cfg, ns, nr, apdu, capacity, [ack, answer]);
            && out.rc == OK
            && out.sent == [Block(cfg.nad, IPcb(ns, false), apdu), Block(cfg.nad, IPcb(!ns, false), apdu)]
            && Outgoing(out.sent, [ack, answer]) == apdu + apdu
  {
    var first, second := Block(cfg.nad, IPcb(ns, false), apdu), Block(cfg.nad, IPcb(!ns, false), apdu);
    CarriedBlock(cfg.nad, IPcb(ns, false), apdu);
    CarriedBlock(cfg.nad, IPcb(!ns, false), apdu);
    hide Block;
    hide Carried;
    hide OnReply;
    hide Run;
    hide Outgoing;
    hide Inf;
    var s := Begin(cfg, ns, nr, apdu, capacity).state;
    StrayAck(cfg, s, ack);
    var s1 := OnReply(cfg, s, ack).state;
    LastAnswer(cfg, s1, answer);
    assert [ack, answer][1..] == [answer];
    Peel(cfg, s, [ack, answer]);
    Peel(cfg, s1, [answer]);
    SecondCarries(first, second, ack, answer);
  }
}
