/**
 What every run of the T=1 driver keeps, whatever the card replies.
 */
module T1Safety {
  import opened T1Blocks
  import opened T1Spec

  /** An I-block carrying the number the driver expects. */
  predicate InSequence(nr: bool, t: Tpdu) { |t| >= 4 && t[1] & 0x80 == 0 && (t[1] & 0x40 != 0) == nr }

  /** The number expected after a stream of replies: it flips once per in-sequence I-block. */
  function NumberAfter(nr: bool, replies: seq<Tpdu>): bool
    decreases |replies|
  {
    if replies == [] then nr
    else NumberAfter(if InSequence(nr, replies[0]) then !nr else nr, replies[1..])
  }

  /** The information fields of the in-sequence I-blocks of a stream, in order. */
  function Received(nr: bool, replies: seq<Tpdu>): seq<bv8>
    decreases |replies|
  {
    if replies == [] then []
    else if InSequence(nr, replies[0]) then Inf(replies[0]) + Received(!nr, replies[1..])
    else Received(nr, replies[1..])
  }

  /** Replies a run has looked at. */
  function Consumed(out: Outcome, replies: seq<Tpdu>): seq<Tpdu> {
    if |out.sent| <= |replies| then replies[..|out.sent|] else replies
  }

  lemma {:induction false} RunLength(cfg: Config, s: State, replies: seq<Tpdu>)
    ensures var out := Run(cfg, s, replies); 1 <= |out.sent| <= |replies| + 1
    ensures var out := Run(cfg, s, replies); out.why == LinkLost <==> |out.sent| == |replies| + 1
    decreases |replies|
  {
    if replies != [] {
      Peel(cfg, s, replies);
      var next := OnReply(cfg, s, replies[0]);
      if next.Send? { RunLength(cfg, next.state, replies[1..]); }
    }
  }

  lemma ConsumedPeel(cfg: Config, s: State, replies: seq<Tpdu>)
    requires replies != []
    ensures var out := Run(cfg, s, replies);
            var next := OnReply(cfg, s, replies[0]);
            var seen := Consumed(out, replies);
            && seen != [] && seen[0] == replies[0]
            && seen[1..] == (if next.Send? then Consumed(Run(cfg, next.state, replies[1..]), replies[1..]) else [])
  {
    Peel(cfg, s, replies);
    RunLength(cfg, s, replies);
    hide OnReply;
    hide Run;
  }

  // ----- what the caller's buffer holds -----

  /** Effect of one reply on the buffer and the expected number. */
  lemma ReplyReceives(cfg: Config, s: State, t: Tpdu)
    requires cfg.wantsResponse
    ensures var next := OnReply(cfg, s, t);
            var inf := if InSequence(s.nr, t) then Inf(t) else [];
            var nr := if InSequence(s.nr, t) then !s.nr else s.nr;
            if next.Send? then
              && next.state.nr == nr && |inf| <= s.room
              && next.state.resp == s.resp + inf && next.state.room == s.room - |inf|
            else
              && next.nr == nr && next.why != LinkLost
              && next.resp == (if next.why == NoRoom then s.resp else s.resp + inf)
              && (next.why == NoRoom <==> |inf| > s.room)
  {
    hide Block;
    assert s.resp + [] == s.resp;
  }

  ghost predicate BufferOk(capacity: nat, s: State, out: Outcome, seen: seq<Tpdu>) {
    && out.nr == NumberAfter(s.nr, seen) && |out.resp| <= capacity
    && (out.why == NoRoom <==> |s.resp + Received(s.nr, seen)| > capacity)
    && out.resp == s.resp + (if out.why == NoRoom && seen != [] then Received(s.nr, seen[..|seen| - 1]) else Received(s.nr, seen))
  }

  lemma ReceivedCons(nr: bool, seen: seq<Tpdu>)
    requires seen != []
    ensures var inf := if InSequence(nr, seen[0]) then Inf(seen[0]) else [];
            var nr1 := if InSequence(nr, seen[0]) then !nr else nr;
            Received(nr, seen) == inf + Received(nr1, seen[1..]) && NumberAfter(nr, seen) == NumberAfter(nr1, seen[1..])
  {
  }

  lemma BufferCons(capacity: nat, s: State, s1: State, out: Outcome, seen: seq<Tpdu>)
    requires seen != []
    requires var inf := if InSequence(s.nr, seen[0]) then Inf(seen[0]) else [];
             && s1.nr == (if InSequence(s.nr, seen[0]) then !s.nr else s.nr)
             && s1.resp == s.resp + inf
    requires |s1.resp| <= capacity && BufferOk(capacity, s1, out, seen[1..])
    ensures BufferOk(capacity, s, out, seen)
  {
    ReceivedCons(s.nr, seen);
    var inf := if InSequence(s.nr, seen[0]) then Inf(seen[0]) else [];
    var tail := seen[1..];
    if |seen| > 1 {
      var front := seen[..|seen| - 1];
      assert front[1..] == tail[..|tail| - 1] && front[0] == seen[0];
      ReceivedCons(s.nr, front);
      AppendAssoc(s.resp, inf, Received(s1.nr, front[1..]));
    }
    AppendAssoc(s.resp, inf, Received(s1.nr, tail));
    hide Inf;
    hide InSequence;
    hide Received;
    hide NumberAfter;
  }

  lemma AppendAssoc(a: seq<bv8>, b: seq<bv8>, c: seq<bv8>)
    ensures (a + b) + c == a + (b + c)
  {
  }

  lemma BufferLast(capacity: nat, s: State, next: Next, t: Tpdu, out: Outcome)
    requires next.Return? && out.resp == next.resp && out.nr == next.nr && out.why == next.why
    requires |s.resp| + s.room == capacity
    requires var inf := if InSequence(s.nr, t) then Inf(t) else [];
             && next.nr == (if InSequence(s.nr, t) then !s.nr else s.nr)
             && next.resp == (if next.why == NoRoom then s.resp else s.resp + inf)
             && (next.why == NoRoom <==> |inf| > s.room)
    ensures BufferOk(capacity, s, out, [t])
  {
    var inf := if InSequence(s.nr, t) then Inf(t) else [];
    assert [t][1..] == [] && [t][..0] == [];
    assert Received(s.nr, [t]) == inf + [];
    assert NumberAfter(s.nr, [t]) == next.nr;
  }

  /** For every reply stream: the expected number flips exactly once per in-sequence I-block; the
      buffer holds the in-sequence information fields in order, up to its capacity and not a byte
      more; and the call gives up for lack of room exactly when they exceed it. */
  lemma {:induction false} RunReceives(cfg: Config, capacity: nat, s: State, replies: seq<Tpdu>)
    requires cfg.wantsResponse && |s.resp| + s.room == capacity
    ensures var out := Run(cfg, s, replies); BufferOk(capacity, s, out, Consumed(out, replies))
    decreases |replies|
  {
    var out := Run(cfg, s, replies);
    if replies == [] {
      assert s.resp + [] == s.resp;
    } else {
      var t, seen := replies[0], Consumed(out, replies);
      Peel(cfg, s, replies);
      ConsumedPeel(cfg, s, replies);
      ReplyReceives(cfg, s, t);
      var next := OnReply(cfg, s, t);
      hide OnReply;
      hide BufferOk;
      if next.Send? {
        RunReceives(cfg, capacity, next.state, replies[1..]);
        BufferSame(capacity, next.state, Run(cfg, next.state, replies[1..]), out, seen[1..]);
        BufferCons(capacity, s, next.state, out, seen);
      } else {
        BufferLast(capacity, s, next, t, out);
        assert seen == [t];
      }
    }
  }

  lemma BufferSame(capacity: nat, s: State, a: Outcome, b: Outcome, seen: seq<Tpdu>)
    requires BufferOk(capacity, s, a, seen) && a == b.(sent := a.sent)
    ensures BufferOk(capacity, s, b, seen)
  {
  }

  // ----- what goes out -----

  /** A block the driver may send: well formed, with the reader's node address, and either an I-block of
      at most 128 bytes, or an empty R-block that acknowledges or asks again with error code 2, or a
      granted request for time. */
  ghost predicate Sound(nad: bv8, t: Tpdu) {
    && WellFormed(t) && t[0] == nad
    && (|| (t[1] & 0x9f == 0x00 && |Inf(t)| <= 128)
        || (t[1] & 0xed == 0x80 && Inf(t) == [])
        || (t[1] == 0xe3 && |Inf(t)| == 1))
  }

  lemma BlockSound(nad: bv8, pcb: bv8, inf: seq<bv8>)
    requires |inf| <= 128 && (|| pcb & 0x9f == 0x00 || (pcb & 0xed == 0x80 && inf == []) || (pcb == 0xe3 && |inf| == 1))
    ensures Sound(nad, Block(nad, pcb, inf))
  {
    BlockWellFormed(nad, pcb, inf);
    hide Block;
    hide WellFormed;
    hide Inf;
  }

  lemma ChunkSound(cfg: Config, s: State)
    ensures var next := NextChunk(cfg, s); next.Send? ==> Sound(cfg.nad, next.state.tpdu)
  {
    if |s.buf| <= MAX_APDU {
      var more := |s.buf| > CHUNK;
      BlockSound(cfg.nad, IPcb(s.ns, more), if more then s.buf[..CHUNK] else s.buf);
    }
    hide Block;
    hide Sound;
    hide IPcb;
  }

  lemma InformationSound(cfg: Config, s: State, t: Tpdu)
    requires |t| >= 4 && IsI(t[1])
    ensures var next := OnInformation(cfg, s, t); next.Send? ==> Sound(cfg.nad, next.state.tpdu)
  {
    BlockSound(cfg.nad, RPcb(s.nr, 2), []);
    BlockSound(cfg.nad, RPcb(!s.nr, 0), []);
    hide Block;
    hide Sound;
    hide RPcb;
    hide Inf;
  }

  lemma ReplyWellFormed(cfg: Config, s: State, t: Tpdu)
    requires Sound(cfg.nad, s.tpdu)
    ensures var next := OnReply(cfg, s, t); next.Send? ==> Sound(cfg.nad, next.state.tpdu)
  {
    if |t| >= 4 {
      if IsI(t[1]) {
        InformationSound(cfg, s, t);
      } else {
        BlockSound(cfg.nad, 0xe3, [t[3]]);
        ChunkSound(cfg, s.(retries := 0, ns := !s.ns));
      }
    }
    hide Block;
    hide Sound;
    hide NextChunk;
    hide OnInformation;
  }

  lemma ReplyRetries(cfg: Config, s: State, t: Tpdu)
    ensures var next := OnReply(cfg, s, t); next.Send? && IsRejection(t) ==> next.state == s.(retries := s.retries + 1)
    ensures var next := OnReply(cfg, s, t); next.Send? && !IsRejection(t) ==> next.state.retries == 0
    ensures var next := OnReply(cfg, s, t); next.Return? && next.why == TooManyRetries ==> next.rc == CARD_IO_ERROR
    ensures var next := OnReply(cfg, s, t); next.Return? && next.why == TooManyRetries <==> IsRejection(t) && s.retries >= 3
  {
    hide Block;
  }

  ghost predicate AllSound(nad: bv8, sent: seq<Tpdu>) { forall i :: 0 <= i < |sent| ==> Sound(nad, sent[i]) }

  /** A rejected block is sent again, byte for byte. */
  ghost predicate Resends(sent: seq<Tpdu>, replies: seq<Tpdu>) {
    forall i :: 0 <= i < |replies| && i + 1 < |sent| && IsRejection(replies[i]) ==> sent[i + 1] == sent[i]
  }

  /** For every reply stream: every block sent is sound, and a rejection makes the next block a copy of
      the last one. */
  lemma {:induction false} RunSends(cfg: Config, s: State, replies: seq<Tpdu>)
    requires Sound(cfg.nad, s.tpdu)
    ensures var out := Run(cfg, s, replies); AllSound(cfg.nad, out.sent) && Resends(out.sent, replies)
    decreases |replies|
  {
    var out := Run(cfg, s, replies);
    if replies != [] {
      Peel(cfg, s, replies);
      ReplyWellFormed(cfg, s, replies[0]);
      ReplyRetries(cfg, s, replies[0]);
      var next := OnReply(cfg, s, replies[0]);
      hide OnReply;
      hide Sound;
      if next.Send? {
        var tail := replies[1..];
        var rest := Run(cfg, next.state, tail);
        RunSends(cfg, next.state, tail);
        RunFirst(cfg, next.state, tail);
        forall i | 0 <= i < |replies| && i + 1 < |out.sent| && IsRejection(replies[i])
          ensures out.sent[i + 1] == out.sent[i]
        {
          if i > 0 { assert tail[i - 1] == replies[i] && rest.sent[i - 1 + 1] == rest.sent[i - 1]; }
        }
      }
    }
  }

  lemma RunFirst(cfg: Config, s: State, replies: seq<Tpdu>)
    ensures var out := Run(cfg, s, replies); out.sent != [] && out.sent[0] == s.tpdu
  {
  }

  /** `n` rejections from position `i` on. */
  ghost predicate Rejections(replies: seq<Tpdu>, i: nat, n: nat) {
    i + n <= |replies| && forall j :: i <= j < i + n ==> IsRejection(replies[j])
  }

  /** Enough rejections in a row end the call. */
  lemma {:induction false} RejectionsEnd(cfg: Config, s: State, replies: seq<Tpdu>)
    requires Sound(cfg.nad, s.tpdu) && s.retries <= 3 && Rejections(replies, 0, 4 - s.retries)
    ensures var out := Run(cfg, s, replies);
            out.why == TooManyRetries && out.rc == CARD_IO_ERROR && |out.sent| == 4 - s.retries
    decreases |replies|
  {
    Peel(cfg, s, replies);
    ReplyRetries(cfg, s, replies[0]);
    var next := OnReply(cfg, s, replies[0]);
    assert IsRejection(replies[0]);
    if s.retries < 3 {
      assert next == Send(s.(retries := s.retries + 1));
      RejectionsEnd(cfg, next.state, replies[1..]);
    }
  }

  /** Four consecutive rejections that were looked at are the last four, and end the call. */
  ghost predicate FourthEnds(out: Outcome, replies: seq<Tpdu>) {
    forall i: nat :: i + 4 <= |out.sent| && Rejections(replies, i, 4) ==>
      i + 4 == |out.sent| && out.why == TooManyRetries && out.rc == CARD_IO_ERROR
  }

  /** A call given up for lack of retries ended in rejections, `retries` of which came before. */
  ghost predicate EndsRejected(retries: nat, out: Outcome, replies: seq<Tpdu>) {
    out.why == TooManyRetries ==>
      || (retries <= 4 && |out.sent| == 4 - retries && Rejections(replies, 0, 4 - retries))
      || (|out.sent| >= 4 && Rejections(replies, |out.sent| - 4, 4))
  }

  lemma RetriesCons(retries: nat, out: Outcome, rest: Outcome, replies: seq<Tpdu>)
    requires replies != [] && out.why == rest.why && out.rc == rest.rc && |out.sent| == 1 + |rest.sent|
    requires retries <= 3 && (IsRejection(replies[0]) ==> retries < 3)
    requires Rejections(replies, 0, 4) && |out.sent| >= 4 ==>
               |out.sent| == 4 && out.why == TooManyRetries && out.rc == CARD_IO_ERROR
    requires FourthEnds(rest, replies[1..])
    requires EndsRejected(if IsRejection(replies[0]) then retries + 1 else 0, rest, replies[1..])
    ensures FourthEnds(out, replies) && EndsRejected(retries, out, replies)
  {
    var tail := replies[1..];
    forall i: nat | i + 4 <= |out.sent| && Rejections(replies, i, 4)
      ensures i + 4 == |out.sent| && out.why == TooManyRetries && out.rc == CARD_IO_ERROR
    {
      if i > 0 {
        assert Rejections(tail, i - 1, 4);
      }
    }
    var retries1 := if IsRejection(replies[0]) then retries + 1 else 0;
    if out.why == TooManyRetries {
      if |rest.sent| == 4 - retries1 && Rejections(tail, 0, 4 - retries1) {
        RejectionsShift(replies, 0, 4 - retries1);
      } else {
        RejectionsShift(replies, |rest.sent| - 4, 4);
      }
    }
  }

  lemma RejectionsShift(replies: seq<Tpdu>, i: nat, n: nat)
    requires replies != [] && Rejections(replies[1..], i, n)
    ensures Rejections(replies, i + 1, n)
  {
    forall j | i + 1 <= j < i + 1 + n ensures IsRejection(replies[j]) {
      assert replies[1..][j - 1] == replies[j];
    }
  }

  /** For every reply stream: the call is given up for lack of retries exactly when, and as soon
      as, four consecutive replies are rejections. */
  lemma {:induction false} RunRetries(cfg: Config, s: State, replies: seq<Tpdu>)
    requires Sound(cfg.nad, s.tpdu) && s.retries <= 3
    ensures var out := Run(cfg, s, replies);
            FourthEnds(out, replies) && EndsRejected(s.retries, out, replies)
    decreases |replies|
  {
    var out := Run(cfg, s, replies);
    if replies != [] {
      Peel(cfg, s, replies);
      ReplyWellFormed(cfg, s, replies[0]);
      ReplyRetries(cfg, s, replies[0]);
      var next := OnReply(cfg, s, replies[0]);
      hide OnReply;
      hide Sound;
      hide FourthEnds;
      hide EndsRejected;
      if Rejections(replies, 0, 4) && |out.sent| >= 4 {
        assert Rejections(replies, 0, 4 - s.retries);
        RejectionsEnd(cfg, s, replies);
      }
      if next.Send? {
        RunRetries(cfg, next.state, replies[1..]);
        RetriesCons(s.retries, out, Run(cfg, next.state, replies[1..]), replies);
      } else {
        RetriesLast(s.retries, out, replies);
      }
    } else {
      RetriesLast(s.retries, out, replies);
    }
  }

  lemma RetriesLast(retries: nat, out: Outcome, replies: seq<Tpdu>)
    requires |out.sent| == 1
    requires out.why == TooManyRetries ==> replies != [] && IsRejection(replies[0]) && retries == 3
    ensures FourthEnds(out, replies) && EndsRejected(retries, out, replies)
  {
  }

  // ----- how it ends -----

  lemma ReplyEnds(cfg: Config, s: State, t: Tpdu)
    ensures var next := OnReply(cfg, s, t);
            && (next.Return? ==> (next.rc == OK <==> next.why == Done))
            && (next.Return? && next.why == BadSupervisory <==> OtherSupervisory(t))
  {
    if |t| >= 4 {
      var pcb := t[1];
      assert pcb & 0xc0 == 0xc0 ==> (pcb & 0x20 == 0 && pcb & 0x1f == 3 <==> pcb == WTX_REQUEST);
    }
    hide Block;
    hide Inf;
  }

  ghost predicate HasOther(replies: seq<Tpdu>) { exists t <- replies :: OtherSupervisory(t) }

  lemma HasOtherCons(replies: seq<Tpdu>)
    requires replies != []
    ensures HasOther(replies) <==> OtherSupervisory(replies[0]) || HasOther(replies[1..])
  {
    assert replies == [replies[0]] + replies[1..];
    hide OtherSupervisory;
  }

  /** For every reply stream: 0 is returned exactly for a complete response, and the call breaks off
      for an S-block exactly when one other than a request for time has been looked at. */
  lemma {:induction false} RunEnds(cfg: Config, s: State, replies: seq<Tpdu>)
    ensures var out := Run(cfg, s, replies);
            && (out.rc == OK <==> out.why == Done)
            && (out.why == BadSupervisory <==> HasOther(Consumed(out, replies)))
    decreases |replies|
  {
    if replies != [] {
      Peel(cfg, s, replies);
      ConsumedPeel(cfg, s, replies);
      ReplyEnds(cfg, s, replies[0]);
      var out := Run(cfg, s, replies);
      HasOtherCons(Consumed(out, replies));
      hide OnReply;
      hide OtherSupervisory;
      var next := OnReply(cfg, s, replies[0]);
      if next.Send? {
        RunEnds(cfg, next.state, replies[1..]);
      }
    }
  }

  /** Without a buffer the numbers are kept all the same, and nothing is stored. */
  lemma {:induction false} RunWithoutBuffer(cfg: Config, s: State, replies: seq<Tpdu>)
    requires !cfg.wantsResponse
    ensures var out := Run(cfg, s, replies);
            out.nr == NumberAfter(s.nr, Consumed(out, replies)) && out.resp == s.resp && out.why != NoRoom
    decreases |replies|
  {
    if replies != [] {
      Peel(cfg, s, replies);
      ConsumedPeel(cfg, s, replies);
      ReplyWithoutBuffer(cfg, s, replies[0]);
      hide OnReply;
      hide InSequence;
      var next := OnReply(cfg, s, replies[0]);
      if next.Send? {
        RunWithoutBuffer(cfg, next.state, replies[1..]);
      }
    }
  }

  lemma ReplyWithoutBuffer(cfg: Config, s: State, t: Tpdu)
    requires !cfg.wantsResponse
    ensures var next := OnReply(cfg, s, t);
            var nr := if InSequence(s.nr, t) then !s.nr else s.nr;
            if next.Send? then next.state.nr == nr && next.state.resp == s.resp
            else next.nr == nr && next.resp == s.resp && next.why != NoRoom
  {
    hide Block;
  }

  /** Four rejections in a row somewhere in a stream. */
  ghost predicate FourRejections(replies: seq<Tpdu>) { exists i: nat :: Rejections(replies, i, 4) }

  /** What a call leaves in the caller's buffer, the capacity of which is the second argument. */
  ghost predicate Buffered(cfg: Config, capacity: nat, nr: bool, out: Outcome, seen: seq<Tpdu>) {
    if cfg.wantsResponse then
      && |out.resp| <= capacity
      && (out.why == NoRoom <==> |Received(nr, seen)| > capacity)
      && (out.why != NoRoom ==> out.resp == Received(nr, seen))
    else out.resp == [] && out.why != NoRoom
  }

  /** Every call, whatever the card replies: the promises of `RunReceives`, `RunSends`, `RunRetries`
      and `RunEnds`, from a fresh start. */
  lemma CallIsSafe(cfg: Config, ns: bool, nr: bool, apdu: seq<bv8>, capacity: nat, replies: seq<Tpdu>)
    requires 1 <= |apdu| <= MAX_APDU
    ensures var out := Call(cfg, ns, nr, apdu, capacity, replies);
            var seen := Consumed(out, replies);
            && out.nr == NumberAfter(nr, seen) && Buffered(cfg, capacity, nr, out, seen)
            && AllSound(cfg.nad, out.sent) && Resends(out.sent, replies) && FourthEnds(out, replies)
            && (out.why == TooManyRetries <==> |out.sent| >= 4 && Rejections(replies, |out.sent| - 4, 4))
            && (out.why == BadSupervisory <==> HasOther(seen))
            && (out.rc == OK <==> out.why == Done)
  {
    var s := Begin(cfg, ns, nr, apdu, capacity).state;
    FirstWellFormed(cfg, ns, nr, apdu, capacity);
    RunSends(cfg, s, replies);
    RunRetries(cfg, s, replies);
    RunEnds(cfg, s, replies);
    if cfg.wantsResponse {
      RunReceives(cfg, capacity, s, replies);
    } else {
      RunWithoutBuffer(cfg, s, replies);
    }
    hide Run;
    hide NextChunk;
    hide AllSound;
    hide Resends;
    hide HasOther;
    var out := Run(cfg, s, replies);
    assert [] + Received(nr, Consumed(out, replies)) == Received(nr, Consumed(out, replies));
  }

  /** The retries run out exactly when four rejections in a row have been looked at. */
  lemma RetriesIff(cfg: Config, ns: bool, nr: bool, apdu: seq<bv8>, capacity: nat, replies: seq<Tpdu>)
    requires 1 <= |apdu| <= MAX_APDU
    ensures var out := Call(cfg, ns, nr, apdu, capacity, replies);
            out.why == TooManyRetries <==> FourRejections(Consumed(out, replies))
  {
    CallIsSafe(cfg, ns, nr, apdu, capacity, replies);
    var out := Call(cfg, ns, nr, apdu, capacity, replies);
    var seen := Consumed(out, replies);
    hide Call;
    hide IsRejection;
    if out.why == TooManyRetries {
      assert Rejections(seen, |out.sent| - 4, 4);
    }
    if FourRejections(seen) {
      var i: nat :| Rejections(seen, i, 4);
      assert Rejections(replies, i, 4);
    }
  }

  lemma FirstWellFormed(cfg: Config, ns: bool, nr: bool, apdu: seq<bv8>, capacity: nat)
    requires |apdu| <= MAX_APDU
    ensures var next := Begin(cfg, ns, nr, apdu, capacity);
            && next.Send? && Sound(cfg.nad, next.state.tpdu) && next.state.retries == 0 && next.state.nr == nr
            && next.state.resp == [] && next.state.room == capacity
  {
    ChunkSound(cfg, State(ns, nr, true, 0, apdu, [], [], capacity));
    hide Block;
    hide Sound;
  }

  /** The block that announces the reader's own frame size after power-on; only the low byte of the
      configured size is sent, and 0 stands for 32. */
  function IfsdRequest(nad: bv8, maxIfsd: nat): (t: Tpdu)
    ensures WellFormed(t) && t[0] == nad && t[1] == 0xc1
    ensures Inf(t) == [if maxIfsd == 0 then 32 else (maxIfsd % 256) as bv8]
  {
    var size := if maxIfsd != 0 then maxIfsd else 32;
    var inf := [(size % 256) as bv8];
    BlockWellFormed(nad, IFSD_REQUEST, inf);
    Block(nad, IFSD_REQUEST, inf)
  }
}
