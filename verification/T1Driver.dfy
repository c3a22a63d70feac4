/**
 The T=1 loop of the CCID driver in its imperative form: separate send and receive buffers, the
 caller's response array, and the handle's two counters, proved to behave as `T1Spec.Call`.
 */
module T1Driver {
  import opened T1Blocks
  import opened T1Spec

  const BUFFER := 259

  /** The reader: a stream of blocks from the card that ends in an input/output error. */
  class Reader {
    var replies: seq<Tpdu>
    ghost var sent: seq<Tpdu>

    ghost predicate Valid() reads this {
      forall i :: 0 <= i < |replies| ==> |replies[i]| <= BUFFER
    }

    constructor (replies: seq<Tpdu>)
      requires forall i :: 0 <= i < |replies| ==> |replies[i]| <= BUFFER
      ensures Valid() && this.replies == replies && sent == []
    {
      this.replies, sent := replies, [];
    }

    /** Sends a block and reads the next one into `recv`. */
    method Exchange(tpdu: Tpdu, recv: array<bv8>) returns (rc: int, len: nat)
      requires Valid() && recv.Length == BUFFER
      modifies this, recv
      ensures Valid() && sent == old(sent) + [tpdu]
      ensures rc == (if old(replies) == [] then CARD_IO_ERROR else 0)
      ensures len <= BUFFER && (rc == 0 ==> [recv[..len]] + replies == old(replies))
      ensures rc != 0 ==> replies == []
    {
      sent := sent + [tpdu];
      if |replies| == 0 {
        return CARD_IO_ERROR, 0;
      }
      var reply := replies[0];
      len := |reply|;
      forall i | 0 <= i < BUFFER {
        recv[i] := if i < |reply| then reply[i] else 0;
      }
      assert recv[..len] == reply;
      rc, replies := 0, replies[1..];
    }
  }

  /** Exclusive or over the first `len` bytes. */
  method ComputeEdc(data: array<bv8>, len: nat) returns (edc: bv8)
    requires len <= data.Length
    ensures edc == Xor(data[..len])
    ensures forall bit :: IsBit(bit) ==> (edc & bit != 0 <==> Ones(data[..len], bit) % 2 == 1)
  {
    edc := 0;
    assert Xor(data[..0]) == 0;
    hide Xor;
    hide Ones;
    for i := 0 to len
      invariant edc == Xor(data[..i])
    {
      edc := edc ^ data[i];
      assert data[..i + 1] == data[..i] + [data[i]];
      XorSnoc(data[..i], data[i]);
    }
    XorIsParityAll(data[..len]);
  }

  /** Builds a block at the start of `data`. */
  method PutBlock(data: array<bv8>, nad: bv8, pcb: bv8, inf: seq<bv8>) returns (len: nat)
    requires data.Length == BUFFER && |inf| <= MAX_APDU
    modifies data
    ensures len == |inf| + 4 && data[..len] == Block(nad, pcb, inf)
  {
    data[0], data[1], data[2] := nad, pcb, |inf| as bv8;
    forall i | 0 <= i < |inf| {
      data[3 + i] := inf[i];
    }
    len := 3 + |inf|;
    assert data[..len] == Prologue(nad, pcb, inf);
    var edc := ComputeEdc(data, len);
    data[len] := edc;
    assert data[..len] == Prologue(nad, pcb, inf);
    len := len + 1;
  }

  /** Copies `src` to position `at` of the caller's buffer. */
  method Append(resp: array<bv8>, at: nat, src: seq<bv8>)
    requires at + |src| <= resp.Length
    modifies resp
    ensures resp[..at + |src|] == old(resp[..at]) + src
    ensures forall k :: at + |src| <= k < resp.Length ==> resp[k] == old(resp[k])
  {
    forall i | 0 <= i < |src| {
      resp[at + i] := src[i];
    }
  }

  /** The variables of one call. */
  class Transfer {
    const send: array<bv8>
    const recv: array<bv8>
    const resp: array?<bv8>
    var tpduLen: nat
    var sending: bool
    var retries: nat
    var buf: seq<bv8>
    var nresp: nat
    var room: nat

    ghost predicate Valid() reads this {
      && send.Length == recv.Length == BUFFER && send != recv && resp != send && resp != recv
      && tpduLen <= BUFFER && |buf| >= 1
      && (if resp == null then nresp == 0 else nresp + room <= resp.Length)
    }

    /** The response bytes stored so far. */
    ghost function Stored(): seq<bv8>
      requires Valid()
      reads this, resp
    {
      if resp == null then [] else resp[..nresp]
    }

    ghost function Abstract(ns: bool, nr: bool): State
      requires Valid()
      reads this, send, resp
    {
      State(ns, nr, sending, retries, buf, send[..tpduLen], Stored(), room)
    }

    constructor (apdu: seq<bv8>, resp: array?<bv8>, maxresplen: nat)
      requires |apdu| >= 1 && (resp != null ==> maxresplen <= resp.Length)
      ensures Valid() && fresh(send) && fresh(recv) && this.resp == resp
      ensures forall ns, nr :: Abstract(ns, nr) == State(ns, nr, true, 0, apdu, [], [], maxresplen)
    {
      send, recv := new bv8[BUFFER], new bv8[BUFFER];
      this.resp, tpduLen, sending, retries, buf, nresp, room := resp, 0, true, 0, apdu, 0, maxresplen;
    }
  }

  class Handle {
    var ns: bool
    var nr: bool
    const nad: bv8

    /** Powering the card on resets both counters. */
    constructor (nonnullNad: bool)
      ensures !ns && !nr && nad == (if nonnullNad then 0x10 else 0x00)
    {
      ns, nr, nad := false, false, if nonnullNad then 0x10 else 0x00;
    }

    ghost function Cfg(x: Transfer): Config { Config(nad, x.resp != null) }

    /** The outcome of a step is what the step machine says. */
    ghost predicate Agrees(n: Next, x: Transfer, again: bool, rc: int)
      requires x.Valid()
      reads this, x, x.send, x.resp
    {
      if again then rc == OK && n == Send(x.Abstract(ns, nr))
      else n.Return? && n.rc == rc && n.ns == ns && n.nr == nr && n.resp == x.Stored()
    }

    /** Bytes of the caller's array that lie beyond the space it offered. */
    ghost function Beyond(x: Transfer): seq<bv8>
      requires x.Valid()
      reads x, x.resp
    {
      if x.resp == null then [] else x.resp[x.nresp + x.room..]
    }

    method BuildChunk(x: Transfer) returns (again: bool, rc: int)
      requires x.Valid()
      modifies x`buf, x`tpduLen, x.send
      ensures x.Valid()
      ensures Agrees(NextChunk(Cfg(x), old(x.Abstract(ns, nr))), x, again, rc)
    {
      hide Block;
      again, rc := true, OK;
      var chunk, more := x.buf, false;
      if |chunk| > MAX_APDU {
        again, rc := false, INV_VALUE;
      } else {
        if |chunk| > CHUNK {
          chunk, x.buf, more := x.buf[..CHUNK], x.buf[CHUNK..], true;
        }
        x.tpduLen := PutBlock(x.send, nad, IPcb(ns, more), chunk);
      }
    }

    /** Appends the received information field to the caller's buffer, if there is one. */
    method StoreResponse(x: Transfer, len: nat) returns (ok: bool)
      requires x.Valid() && 4 <= len <= BUFFER
      modifies x`nresp, x`room, x.resp
      ensures x.Valid() && x.nresp + x.room == old(x.nresp + x.room) && Beyond(x) == old(Beyond(x))
      ensures var n := |Inf(x.recv[..len])|; ok == (x.resp == null || n <= old(x.room))
      ensures x.Stored() == (if ok && x.resp != null then old(x.Stored()) + Inf(x.recv[..len]) else old(x.Stored()))
      ensures x.room == (if ok && x.resp != null then old(x.room) - |Inf(x.recv[..len])| else old(x.room))
    {
      ok := true;
      var n := len - 4;
      if x.resp != null {
        if n > x.room {
          return false;
        }
        Append(x.resp, x.nresp, x.recv[3..len - 1]);
        x.nresp, x.room := x.nresp + n, x.room - n;
        assert x.recv[3..len - 1] == Inf(x.recv[..len]);
      }
    }

    /** Builds an R-block. */
    method Acknowledge(x: Transfer, error: bv8)
      requires x.Valid() && error <= 2
      modifies x`tpduLen, x.send
      ensures x.Valid()
      ensures x.Abstract(ns, nr) == old(x.Abstract(ns, nr)).(tpdu := Block(nad, RPcb(nr, error), []))
    {
      x.tpduLen := PutBlock(x.send, nad, 0x80 | (if nr then 0x10 else 0) | error, []);
    }

    /** Accepts an in-sequence I-block. */
    method TakeInformation(x: Transfer, len: nat) returns (again: bool, rc: int)
      requires x.Valid() && 4 <= len <= BUFFER && IsI(x.recv[1]) && SendNumber(x.recv[1]) == nr && !x.sending && x.retries == 0
      modifies this`nr, x`nresp, x`room, x`tpduLen, x.send, x.resp
      ensures x.Valid() && x.nresp + x.room == old(x.nresp + x.room) && Beyond(x) == old(Beyond(x))
      ensures Agrees(OnInformation(Cfg(x), old(x.Abstract(ns, nr)), old(x.recv[..len])), x, again, rc)
    {
      hide Block;
      hide Inf;
      again, rc := true, OK;
      var more := More(x.recv[1]);
      assert x.recv[..len][1] == x.recv[1];
      nr := !nr;
      var ok := StoreResponse(x, len);
      if !ok {
        again, rc := false, INV_VALUE;
      } else if more {
        Acknowledge(x, 0);
      } else {
        again := false;
      }
    }

    /** An I-block settles the last block sent, whatever its number. */
    method Settle(x: Transfer)
      requires x.Valid()
      modifies this`ns, x`retries, x`sending
      ensures x.Valid() && x.Abstract(ns, nr) == Settled(old(x.Abstract(ns, nr)))
    {
      x.retries := 0;
      if x.sending {
        ns := !ns;
        x.sending := false;
      }
    }

    method HandleInformation(x: Transfer, len: nat) returns (again: bool, rc: int)
      requires x.Valid() && 4 <= len <= BUFFER && IsI(x.recv[1])
      modifies this, x, x.send, x.resp
      ensures x.Valid() && x.nresp + x.room == old(x.nresp + x.room) && Beyond(x) == old(Beyond(x))
      ensures Agrees(OnInformation(Cfg(x), old(x.Abstract(ns, nr)), old(x.recv[..len])), x, again, rc)
    {
      ghost var t := x.recv[..len];
      assert t[1] == x.recv[1];
      SettledFirst(Cfg(x), x.Abstract(ns, nr), t);
      hide Block;
      hide Inf;
      hide OnInformation;
      Settle(x);
      assert x.recv[..len] == t;
      if SendNumber(x.recv[1]) != nr {
        Acknowledge(x, 2);
        again, rc := true, OK;
      } else {
        again, rc := TakeInformation(x, len);
      }
    }

    method HandleReady(x: Transfer, len: nat) returns (again: bool, rc: int)
      requires x.Valid() && 4 <= len <= BUFFER && IsR(x.recv[1])
      modifies this, x`retries, x`buf, x`tpduLen, x.send
      ensures x.Valid()
      ensures Agrees(OnReady(Cfg(x), old(x.Abstract(ns, nr)), old(x.recv[..len])), x, again, rc)
    {
      hide NextChunk;
      again, rc := true, OK;
      var pcb := x.recv[1];
      assert x.recv[..len][1] == pcb;
      if pcb & 0x0f != 0 {
        if x.retries + 1 > 3 {
          again, rc := false, CARD_IO_ERROR;
        } else {
          x.retries := x.retries + 1;
        }
      } else if x.sending && ReceiveNumber(pcb) != ns {
        x.retries := 0;
        ns := !ns;
        again, rc := BuildChunk(x);
      } else {
        again, rc := false, CARD_IO_ERROR;
      }
    }

    method HandleReply(x: Transfer, len: nat) returns (again: bool, rc: int)
      requires x.Valid() && len <= BUFFER
      modifies this, x, x.send, x.resp
      ensures x.Valid() && x.nresp + x.room == old(x.nresp + x.room) && Beyond(x) == old(Beyond(x))
      ensures Agrees(OnReply(Cfg(x), old(x.Abstract(ns, nr)), old(x.recv[..len])), x, again, rc)
    {
      if len < 4 {
        return false, ABORTED;
      }
      var pcb := x.recv[1];
      if IsI(pcb) {
        again, rc := HandleInformation(x, len);
      } else if IsR(pcb) {
        again, rc := HandleReady(x, len);
      } else {
        x.retries := 0;
        if pcb & 0x20 == 0 && pcb & 0x1f == 3 && x.recv[2] != 0 {
          var bwi := x.recv[3];
          x.tpduLen := PutBlock(x.send, nad, 0xe3, [bwi]);
          return true, OK;
        }
        return false, CARD_IO_ERROR;
      }
    }

    /** One exchange and what the driver makes of it. */
    method Round(reader: Reader, x: Transfer) returns (again: bool, rc: int)
      requires reader.Valid() && x.Valid()
      modifies this, reader, x, x.send, x.recv, x.resp
      ensures reader.Valid() && x.Valid() && x.nresp + x.room == old(x.nresp + x.room) && Beyond(x) == old(Beyond(x))
      ensures reader.sent == old(reader.sent) + [old(x.Abstract(ns, nr).tpdu)]
      ensures if old(reader.replies) == []
              then var s := old(x.Abstract(ns, nr));
                   !again && rc == CARD_IO_ERROR && ns == s.ns && nr == s.nr && x.Stored() == s.resp
              else reader.replies == old(reader.replies)[1..]
                   && Agrees(OnReply(Cfg(x), old(x.Abstract(ns, nr)), old(reader.replies)[0]), x, again, rc)
    {
      hide OnReply;
      ghost var stream, s := reader.replies, x.Abstract(ns, nr);
      var len;
      rc, len := reader.Exchange(x.send[..x.tpduLen], x.recv);
      again := false;
      if rc == 0 {
        assert stream[0] == x.recv[..len] && stream[1..] == reader.replies;
        assert x.Abstract(ns, nr) == s;
        again, rc := HandleReply(x, len);
      }
    }

    /** Where a call stands: `done` has been sent, and the rest is what `total` says. */
    ghost predicate OnCourse(reader: Reader, x: Transfer, total: Outcome, start: seq<Tpdu>, done: seq<Tpdu>, again: bool, rc: int)
      requires x.Valid()
      reads this, reader, x, x.send, x.resp
    {
      && reader.sent == start + done
      && if again then rc == OK && Leads(Cfg(x), x.Abstract(ns, nr), reader.replies, done, total)
         else total == Outcome(rc, ns, nr, x.Stored(), total.why, done)
    }

    method NextRound(reader: Reader, x: Transfer, ghost total: Outcome, ghost start: seq<Tpdu>, ghost done: seq<Tpdu>)
      returns (again: bool, rc: int, ghost done': seq<Tpdu>)
      requires reader.Valid() && x.Valid() && OnCourse(reader, x, total, start, done, true, OK)
      modifies this, reader, x, x.send, x.recv, x.resp
      ensures reader.Valid() && x.Valid() && x.nresp + x.room == old(x.nresp + x.room) && Beyond(x) == old(Beyond(x))
      ensures OnCourse(reader, x, total, start, done', again, rc)
      ensures again ==> rc == OK && |reader.replies| < old(|reader.replies|)
    {
      hide OnReply;
      hide Run;
      ghost var cfg, s, stream := Cfg(x), x.Abstract(ns, nr), reader.replies;
      done' := done + [s.tpdu];
      if stream == [] {
        LeadsOut(cfg, s, done, total);
      } else {
        LeadsOn(cfg, s, stream, done, total);
      }
      hide Leads;
      again, rc := Round(reader, x);
    }

    /** The loop proper: exchanges blocks until a reply ends the call or the reader fails. */
    method Pump(reader: Reader, x: Transfer) returns (rc: int)
      requires reader.Valid() && x.Valid()
      modifies this, reader, x, x.send, x.recv, x.resp
      ensures x.Valid() && x.nresp + x.room == old(x.nresp + x.room) && Beyond(x) == old(Beyond(x))
      ensures var out := Run(Cfg(x), old(x.Abstract(ns, nr)), old(reader.replies));
              OnCourse(reader, x, out, old(reader.sent), out.sent, false, rc)
    {
      ghost var total := Run(Cfg(x), x.Abstract(ns, nr), reader.replies);
      ghost var room, beyond, start, done := x.nresp + x.room, Beyond(x), reader.sent, [];
      var again := true;
      rc := OK;
      assert [] + total.sent == total.sent;
      assert OnCourse(reader, x, total, start, done, true, OK);
      while again
        invariant reader.Valid() && x.Valid() && x.nresp + x.room == room && Beyond(x) == beyond
        invariant OnCourse(reader, x, total, start, done, again, rc) && (again ==> rc == OK)
        decreases again, |reader.replies|
      {
        hide OnCourse;
        again, rc, done := NextRound(reader, x, total, start, done);
      }
    }

    /** Sends a command and stores the card's response; `nresp` bytes of `resp` are filled in. */
    method Transceive(reader: Reader, apdu: seq<bv8>, resp: array?<bv8>, maxresplen: nat) returns (rc: int, nresp: nat)
      requires reader.Valid() && |apdu| >= 1 && (resp != null ==> maxresplen <= resp.Length)
      modifies this, reader, resp
      ensures var out := Call(Config(nad, resp != null), old(ns), old(nr), apdu, maxresplen, old(reader.replies));
              && rc == out.rc && ns == out.ns && nr == out.nr && nresp == |out.resp|
              && reader.sent == old(reader.sent) + out.sent
              && (resp != null ==> nresp <= maxresplen && resp[..nresp] == out.resp)
      ensures resp != null ==> resp[maxresplen..] == old(resp[maxresplen..])
    {
      var x := new Transfer(apdu, resp, maxresplen);
      assert x.Abstract(ns, nr) == State(ns, nr, true, 0, apdu, [], [], maxresplen);
      var again;
      again, rc := BuildChunk(x);
      if again {
        rc := Pump(reader, x);
      }
      nresp := x.nresp;
    }
  }

  /** An I-block acknowledges what was sent before anything else is looked at. */
  ghost function Settled(s: State): State {
    s.(retries := 0, ns := if s.sending then !s.ns else s.ns, sending := false)
  }

  lemma SettledFirst(cfg: Config, s: State, t: Tpdu)
    requires |t| >= 4 && IsI(t[1])
    ensures OnInformation(cfg, s, t) == OnInformation(cfg, Settled(s), t)
    ensures SendNumber(t[1]) != s.nr ==> OnInformation(cfg, s, t) == Send(Settled(s).(tpdu := Block(cfg.nad, RPcb(s.nr, 2), [])))
  {
  }

  /** Having sent `done`, a run from `s` over `replies` ends as `total` says. */
  ghost predicate Leads(cfg: Config, s: State, replies: seq<Tpdu>, done: seq<Tpdu>, total: Outcome) {
    var out := Run(cfg, s, replies);
    total == out.(sent := done + out.sent)
  }

  lemma LeadsOn(cfg: Config, s: State, replies: seq<Tpdu>, done: seq<Tpdu>, total: Outcome)
    requires replies != [] && Leads(cfg, s, replies, done, total)
    ensures var next := OnReply(cfg, s, replies[0]);
            if next.Send? then Leads(cfg, next.state, replies[1..], done + [s.tpdu], total)
            else total == Outcome(next.rc, next.ns, next.nr, next.resp, next.why, done + [s.tpdu])
  {
    Peel(cfg, s, replies);
    var next := OnReply(cfg, s, replies[0]);
    hide OnReply;
    if next.Send? {
      var rest := Run(cfg, next.state, replies[1..]);
      assert done + ([s.tpdu] + rest.sent) == (done + [s.tpdu]) + rest.sent;
    }
  }

  lemma LeadsOut(cfg: Config, s: State, done: seq<Tpdu>, total: Outcome)
    requires Leads(cfg, s, [], done, total)
    ensures total == Outcome(CARD_IO_ERROR, s.ns, s.nr, s.resp, LinkLost, done + [s.tpdu])
  {
  }
}
