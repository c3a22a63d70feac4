/**
 What each reply leads to in a call of the T=1 driver, whatever the card replies: the next block, or
 the end of the call and its return code.
 */
module T1Replies {
  import opened T1Blocks
  import opened T1Spec
  import opened T1Safety
  import opened T1Outgoing

  // ----- the next block -----

  /** What a reply `t` to the block `last` calls for, when the number `nr` is expected: a rejection calls
      for `last` again; an I-block for an acknowledgement, or out of sequence for a repetition; an
      acknowledgement for the next data; a request for time for its grant. */
  ghost predicate Provokes(nr: bool, t: Tpdu, last: Tpdu, next: Tpdu) {
    && |t| >= 4 && |next| >= 4
    && if IsRejection(t) then next == last
       else if t[1] & 0x80 == 0 then
         && Inf(next) == []
         && if (t[1] & 0x40 != 0) == nr then t[1] & 0x20 != 0 && next[1] == (if nr then 0x80 else 0x90)
            else next[1] == (if nr then 0x92 else 0x82)
       else if t[1] & 0x40 == 0 then
         next[1] == (if t[1] & 0x10 != 0 then 0x40 else 0x00)
       else t[1] == 0xc3 && t[2] != 0 && next[1] == 0xe3 && Inf(next) == [t[3]]
  }

  lemma InformationProvokes(cfg: Config, s: State, t: Tpdu)
    requires |t| >= 4 && t[1] & 0x80 == 0
    ensures var next := OnInformation(cfg, s, t);
            next.Send? ==> Provokes(s.nr, t, s.tpdu, next.state.tpdu) && next.state.buf == s.buf
  {
    BlockWellFormed(cfg.nad, RPcb(s.nr, 2), []);
    BlockWellFormed(cfg.nad, RPcb(!s.nr, 0), []);
    hide Block;
    hide WellFormed;
    hide Inf;
  }

  lemma ReadyProvokes(cfg: Config, s: State, t: Tpdu)
    requires |s.buf| <= CHUNK && |s.tpdu| >= 4 && |t| >= 4 && t[1] & 0xc0 == 0x80
    ensures var next := OnReady(cfg, s, t);
            next.Send? ==> Provokes(s.nr, t, s.tpdu, next.state.tpdu) && next.state.buf == s.buf
  {
    BlockWellFormed(cfg.nad, IPcb(!s.ns, false), s.buf);
    hide Block;
    hide WellFormed;
    hide Inf;
  }

  lemma GrantProvokes(cfg: Config, s: State, t: Tpdu)
    requires |t| >= 4 && t[1] & 0xc0 == 0xc0
    ensures var next := OnReply(cfg, s, t);
            next.Send? ==> Provokes(s.nr, t, s.tpdu, next.state.tpdu) && next.state.buf == s.buf
  {
    var pcb := t[1];
    assert pcb & 0x20 == 0 && pcb & 0x1f == 3 <==> pcb == 0xc3;
    BlockWellFormed(cfg.nad, 0xe3, [t[3]]);
    hide OnInformation;
    hide OnReady;
    hide Block;
    hide WellFormed;
    hide Inf;
  }

  lemma ReplyProvokes(cfg: Config, s: State, t: Tpdu)
    requires |s.buf| <= CHUNK && |s.tpdu| >= 4
    ensures var next := OnReply(cfg, s, t);
            next.Send? ==>
              Provokes(s.nr, t, s.tpdu, next.state.tpdu) && next.state.buf == s.buf && |next.state.tpdu| >= 4
  {
    if |t| >= 4 {
      var pcb := t[1];
      if pcb & 0x80 == 0 {
        InformationProvokes(cfg, s, t);
      } else if pcb & 0xc0 == 0x80 {
        ReadyProvokes(cfg, s, t);
      } else {
        assert pcb & 0xc0 == 0xc0;
        GrantProvokes(cfg, s, t);
      }
    }
    hide OnInformation;
    hide OnReady;
    hide Block;
  }

  lemma ReplyNumber(cfg: Config, s: State, t: Tpdu)
    ensures var next := OnReply(cfg, s, t);
            next.Send? ==> next.state.nr == (if InSequence(s.nr, t) then !s.nr else s.nr)
  {
    hide Block;
  }

  /** Every block but the first is what the reply before it calls for. */
  ghost predicate Answers(nr: bool, sent: seq<Tpdu>, replies: seq<Tpdu>)
    decreases |replies|
  {
    |sent| < 2 || replies == [] ||
    (&& Provokes(nr, replies[0], sent[0], sent[1])
     && Answers(if InSequence(nr, replies[0]) then !nr else nr, sent[1..], replies[1..]))
  }

  lemma {:induction false} RunAnswers(cfg: Config, s: State, replies: seq<Tpdu>)
    requires |s.buf| <= CHUNK && |s.tpdu| >= 4
    ensures Answers(s.nr, Run(cfg, s, replies).sent, replies)
    decreases |replies|
  {
    if replies != [] {
      Peel(cfg, s, replies);
      ReplyProvokes(cfg, s, replies[0]);
      ReplyNumber(cfg, s, replies[0]);
      var next := OnReply(cfg, s, replies[0]);
      hide OnReply;
      hide Provokes;
      hide InSequence;
      if next.Send? {
        RunAnswers(cfg, next.state, replies[1..]);
        RunFirst(cfg, next.state, replies[1..]);
      }
    }
  }

  // ----- the end -----

  /** An error-free R-block that is no acknowledgement of data under way: it repeats the number of the
      last I-block sent, or comes after the card has begun to answer. */
  predicate Stray(sending: bool, ns: bool, replies: seq<Tpdu>)
    decreases |replies|
  {
    replies != [] &&
    var t, rest := replies[0], replies[1..];
    if InformationBlock(t) then Stray(false, ns, rest)
    else if |t| >= 4 && t[1] & 0xcf == 0x80 then !(sending && Acknowledges(ns, t)) || Stray(true, !ns, rest)
    else Stray(sending, ns, rest)
  }

  /** The last reply is an in-sequence I-block without the more bit. */
  predicate LastIsFinal(nr: bool, replies: seq<Tpdu>)
    decreases |replies|
  {
    replies != [] &&
    if |replies| == 1 then InSequence(nr, replies[0]) && replies[0][1] & 0x20 == 0
    else LastIsFinal(if InSequence(nr, replies[0]) then !nr else nr, replies[1..])
  }

  ghost predicate HasShort(replies: seq<Tpdu>) { exists t <- replies :: |t| < 4 }

  lemma HasShortCons(replies: seq<Tpdu>)
    requires replies != []
    ensures HasShort(replies) <==> |replies[0]| < 4 || HasShort(replies[1..])
  {
    assert replies == [replies[0]] + replies[1..];
  }

  /** Return codes by reason. */
  function Code(why: Why): int {
    if why == Done then 0
    else if why == NoRoom || why == TooLong then 0x10002
    else if why == Short then 0x1000d
    else 0x1000a
  }

  lemma ReplyStops(cfg: Config, s: State, t: Tpdu)
    requires |s.buf| <= CHUNK
    ensures var next := OnReply(cfg, s, t);
            var ready := |t| >= 4 && t[1] & 0xcf == 0x80;
            && (next.Return? ==> next.rc == Code(next.why) && next.why != LinkLost && next.why != TooLong)
            && (next.Return? && next.why == Short <==> |t| < 4)
            && ((next.Return? && (next.why == WrongNumber || next.why == UnexpectedAck)) <==>
                  (ready && !(s.sending && Acknowledges(s.ns, t))))
            && (next.Return? && (next.why == Done || next.why == NoRoom) ==> InSequence(s.nr, t))
            && (InSequence(s.nr, t) && t[1] & 0x20 == 0 ==> next.Return? && (next.why == Done || next.why == NoRoom))
            && (next.Return? && next.why == Done ==> t[1] & 0x20 == 0)
  {
    hide Block;
    hide Inf;
  }

  ghost predicate Ends(s: State, out: Outcome, seen: seq<Tpdu>) {
    && out.rc == Code(out.why) && out.why != TooLong
    && (out.why == Short <==> HasShort(seen))
    && (out.why == WrongNumber || out.why == UnexpectedAck <==> Stray(s.sending, s.ns, seen))
    && (out.why == Done <==> LastIsFinal(s.nr, seen) && out.why != NoRoom)
  }

  lemma EndsCons(s: State, s1: State, out: Outcome, seen: seq<Tpdu>)
    requires seen != [] && |seen[0]| >= 4 && Ends(s1, out, seen[1..])
    requires s1.nr == (if InSequence(s.nr, seen[0]) then !s.nr else s.nr)
    requires s1.sending == (s.sending && !InformationBlock(seen[0]))
    requires var ack := s.sending && Acknowledges(s.ns, seen[0]);
             && (s1.sending ==> s1.ns == (if ack then !s.ns else s.ns))
             && (seen[0][1] & 0xcf == 0x80 ==> ack)
    requires !(InSequence(s.nr, seen[0]) && seen[0][1] & 0x20 == 0)
    ensures Ends(s, out, seen)
  {
    HasShortCons(seen);
    var t := seen[0];
    StrayCons(s, s1, seen);
    hide HasShort;
    hide Stray;
  }

  lemma {:induction false} StrayNotSending(a: bool, b: bool, replies: seq<Tpdu>)
    ensures Stray(false, a, replies) == Stray(false, b, replies)
    decreases |replies|
  {
    if replies != [] {
      StrayNotSending(a, b, replies[1..]);
    }
  }

  lemma StrayCons(s: State, s1: State, seen: seq<Tpdu>)
    requires seen != [] && |seen[0]| >= 4
    requires s1.sending == (s.sending && !InformationBlock(seen[0]))
    requires var ack := s.sending && Acknowledges(s.ns, seen[0]);
             && (s1.sending ==> s1.ns == (if ack then !s.ns else s.ns))
             && (seen[0][1] & 0xcf == 0x80 ==> ack)
    ensures Stray(s.sending, s.ns, seen) == Stray(s1.sending, s1.ns, seen[1..])
  {
    StrayNotSending(s.ns, s1.ns, seen[1..]);
  }

  lemma EndsLast(s: State, next: Next, t: Tpdu, out: Outcome)
    requires next.Return? && out.rc == next.rc && out.why == next.why
    requires next.rc == Code(next.why) && next.why != LinkLost && next.why != TooLong
    requires next.why == Short <==> |t| < 4
    requires (next.why == WrongNumber || next.why == UnexpectedAck) <==>
               (|t| >= 4 && t[1] & 0xcf == 0x80 && !(s.sending && Acknowledges(s.ns, t)))
    requires next.why == Done || next.why == NoRoom ==> InSequence(s.nr, t)
    requires InSequence(s.nr, t) && t[1] & 0x20 == 0 ==> next.why == Done || next.why == NoRoom
    requires next.why == Done ==> t[1] & 0x20 == 0
    ensures Ends(s, out, [t])
  {
    HasShortCons([t]);
    assert [t][1..] == [];
  }

  lemma {:induction false} RunStops(cfg: Config, s: State, replies: seq<Tpdu>)
    requires |s.buf| <= CHUNK
    ensures var out := Run(cfg, s, replies); Ends(s, out, Consumed(out, replies))
    decreases |replies|
  {
    var out := Run(cfg, s, replies);
    if replies != [] {
      var t, seen := replies[0], Consumed(out, replies);
      Peel(cfg, s, replies);
      ConsumedPeel(cfg, s, replies);
      ReplyStops(cfg, s, t);
      ReplySends(cfg, s, t);
      ReplyNumber(cfg, s, t);
      var next := OnReply(cfg, s, t);
      hide OnReply;
      hide Run;
      hide InSequence;
      hide Acknowledges;
      hide Carried;
      hide Ends;
      if next.Send? {
        RunStops(cfg, next.state, replies[1..]);
        EndsSame(next.state, Run(cfg, next.state, replies[1..]), out, seen[1..]);
        EndsCons(s, next.state, out, seen);
      } else {
        EndsLast(s, next, t, out);
        assert seen == [t];
      }
    }
  }

  lemma EndsSame(s: State, a: Outcome, b: Outcome, seen: seq<Tpdu>)
    requires Ends(s, a, seen) && a.why == b.why && a.rc == b.rc
    ensures Ends(s, b, seen)
  {
  }

  /** Every call, whatever the card replies, returns one of four codes, and exactly when: 0 for a final
      I-block in sequence that fits; 0x10002 for a command over 254 bytes or a response over the
      buffer's size; 0x1000d for a reply too short to be a block; and 0x1000a when the reader fails,
      after four rejections in a row, for an S-block that asks for anything but time, and for an
      error-free R-block that acknowledges nothing under way. */
  lemma CallEnds(cfg: Config, ns: bool, nr: bool, apdu: seq<bv8>, capacity: nat, replies: seq<Tpdu>)
    requires |apdu| >= 1
    ensures var out := Call(cfg, ns, nr, apdu, capacity, replies);
            var seen := Consumed(out, replies);
            var fits := cfg.wantsResponse ==> |Received(nr, seen)| <= capacity;
            && (out.rc == 0 <==> LastIsFinal(nr, seen) && fits)
            && (out.rc == 0x10002 <==> |apdu| > 254 || !fits)
            && (out.rc == 0x1000d <==> HasShort(seen))
            && (out.rc == 0x1000a <==>
                  |apdu| <= 254 && (|out.sent| > |replies| || FourRejections(seen) || HasOther(seen) || Stray(true, ns, seen)))
            && (out.rc == 0 || out.rc == 0x10002 || out.rc == 0x1000d || out.rc == 0x1000a)
            && (|apdu| > 254 <==> out.sent == [])
  {
    var out := Call(cfg, ns, nr, apdu, capacity, replies);
    if |apdu| <= MAX_APDU {
      var s := Begin(cfg, ns, nr, apdu, capacity).state;
      CallIsSafe(cfg, ns, nr, apdu, capacity, replies);
      RetriesIff(cfg, ns, nr, apdu, capacity, replies);
      RunStops(cfg, s, replies);
      RunLength(cfg, s, replies);
      assert s.sending && s.ns == ns && s.nr == nr && out == Run(cfg, s, replies);
      hide Run;
      hide AllSound;
      hide Resends;
      hide FourthEnds;
      hide HasShort;
      hide HasOther;
      hide FourRejections;
      hide Stray;
      hide LastIsFinal;
      hide Received;
      hide Call;
      assert Code(out.why) == out.rc;
    }
  }

  /** Over every call each block but the first is the one its reply calls for, under the numbers the
      replies give; the first carries the first chunk under the counter's number. */
  lemma CallAnswers(cfg: Config, ns: bool, nr: bool, apdu: seq<bv8>, capacity: nat, replies: seq<Tpdu>)
    requires 1 <= |apdu| <= 254
    ensures var sent := Call(cfg, ns, nr, apdu, capacity, replies).sent;
            && sent != [] && |sent[0]| >= 4 && Inf(sent[0]) == FirstChunk(apdu)
            && sent[0][1] == (if ns then 0x40 else 0x00) | (if |apdu| > 128 then 0x20 else 0x00)
            && Answers(nr, sent, replies)
  {
    var s := Begin(cfg, ns, nr, apdu, capacity).state;
    BlockWellFormed(cfg.nad, IPcb(ns, |apdu| > CHUNK), FirstChunk(apdu));
    hide Block;
    hide WellFormed;
    hide Inf;
    hide Run;
    assert s.tpdu == Block(cfg.nad, IPcb(ns, |apdu| > CHUNK), FirstChunk(apdu));
    RunAnswers(cfg, s, replies);
    RunFirst(cfg, s, replies);
  }
}
