/**
 The T=CL driver in its imperative form: the protocol handle with its activation, the transceive
 buffer it fills in place, and the transceive loop, proved to behave as `TclSpec.Call`.
 */
module TclDriver {
  import opened Common
  import opened TclBlocks
  import opened TclAts
  import opened TclSpec

  /** The layer below: a stream of replies that ends in a transport error, and a log of what was sent. */
  class Link {
    var replies: seq<Frame>
    ghost var sent: seq<Sent>

    constructor (replies: seq<Frame>)
      ensures this.replies == replies && sent == []
    {
      this.replies, sent := replies, [];
    }

    method Exchange(frame: Frame, timeout: nat, ghost toggle: bool) returns (ret: int, reply: Frame)
      modifies this
      ensures sent == old(sent) + [Sent(frame, timeout, toggle)]
      ensures ret == (if old(replies) == [] then EIO else 0)
      ensures ret == 0 ==> [reply] + replies == old(replies)
      ensures ret < 0 ==> replies == []
    {
      sent := sent + [Sent(frame, timeout, toggle)];
      if |replies| == 0 {
        ret, reply := EIO, [];
      } else {
        ret, reply, replies := 0, replies[0], replies[1..];
      }
    }
  }

  /** The frame being sent, built in place. */
  class TxBuffer {
    const data: array<bv8>
    var frameLen: nat
    var hdrLen: nat
    var timeout: nat

    ghost predicate Valid() reads this {
      data.Length == MAX_FRAMELEN && frameLen <= MAX_FRAMELEN
    }

    ghost function Contents(): Frame
      requires Valid()
      reads this, data
    {
      data[..frameLen]
    }

    constructor (timeout: nat)
      ensures Valid() && fresh(data)
    {
      data := new bv8[MAX_FRAMELEN];
      frameLen, hdrLen, this.timeout := 0, 0, timeout;
    }
  }

  /** Copies a payload behind the one-byte prologue. */
  method CopyAfter(data: array<bv8>, payload: Frame)
    requires 1 + |payload| <= data.Length
    modifies data
    ensures data[0] == old(data[0]) && data[1..1 + |payload|] == payload
  {
    forall i | 0 <= i < |payload| {
      data[1 + i] := payload[i];
    }
  }

  /** Protocol states the driver can be in. */
  datatype Phase = Initial | RatsSent | AtsReceived | Established | Deselected

  /** Time allowed for the answer to select: 65536 carrier periods. */
  const ACTIVATION_FWT := 1000000 * 65536 / FC

  class Handle {
    var phase: Phase
    var toggle: bool
    var fsc: nat
    var fsd: nat
    var fwt: nat
    var cid: bv8
    var ta: bv8
    var nadSupported: bool
    var cidSupported: bool
    var historicalAt: nat
    var historicalLen: nat
    /** Longest frame the chip takes. */
    const mtu: nat
    /** The answer to select the fields were taken from. */
    ghost var answer: Frame
    /** A message has been sent on this handle. */
    ghost var blockSent: bool

    function Cfg(): Config reads this { Config(fsc, fwt, cid) }

    ghost function Negotiated(): Params reads this {
      Params(fsc, fwt, ta, nadSupported, cidSupported, historicalAt, historicalLen)
    }

    /** What every operation keeps: an initial handle has negotiated nothing, an established one holds
        what its answer to select says, the first block number sent will be 0, and sizes and times
        stay in range. */
    ghost predicate Valid() reads this {
      && fsd in FSD_TABLE && mtu <= 256 && fsc <= 256 && fwt <= MAX_FWT
      && (!blockSent ==> toggle)
      && (phase == Initial ==> Negotiated() == FRESH)
      && (phase == Established ==>
            Parsable(answer) && AtsLength(answer) >= 1 && Parsed(FRESH, answer, mtu) == Some(Negotiated()))
    }

    /** Without a frame size a message goes out in one piece, and the driver's buffer must hold it. */
    predicate Room(tx: Frame) reads this { fsc == 0 ==> |tx| < 256 }

    /** The frame size of every established handle lies between 16 and the chip's limit exactly when
        its answer to select is a bare TL or carries an FSCI of at most 8. */
    lemma EstablishedFrameSize()
      requires Valid() && phase == Established && mtu >= 32
      ensures 16 <= fsc <= mtu <==> SizedAnswer(answer)
    {
      FrameSizeIff(FRESH, answer, mtu);
    }

    /** A new handle for a reader that takes frames of `mru` and sends frames of `mtu` bytes. */
    constructor (mru: nat, mtu: nat)
      requires mtu <= 256
      ensures Valid() && phase == Initial && !blockSent && cid == 0 && this.mtu == mtu && (mru >= 16 ==> fsd <= mru)
    {
      phase, toggle, fsc, fwt, cid, ta := Initial, true, 0, 0, 0, 0;
      nadSupported, cidSupported, historicalAt, historicalLen := false, false, 0, 0;
      answer, blockSent, this.mtu := [], false, mtu;
      new;
      fsd := FsdApprox(mru);
    }

    /** The TC byte, when present, announces support for CID and NAD. */
    method ParseTc(tc: bv8)
      modifies this`nadSupported, this`cidSupported
      ensures nadSupported == (old(nadSupported) || tc & 0x01 != 0)
      ensures cidSupported == (old(cidSupported) || tc & 0x02 != 0)
    {
      if tc & 0x01 != 0 {
        nadSupported := true;
      }
      if tc & 0x02 != 0 {
        cidSupported := true;
      }
    }

    /** Takes over what the answer to select says. */
    method ParseAts(ats: Frame) returns (ret: int)
      requires Parsable(ats)
      modifies this`ta, this`fsc, this`fwt, this`nadSupported, this`cidSupported, this`historicalAt, this`historicalLen
      ensures var q := Parsed(old(Negotiated()), ats, mtu);
              if q.None? then ret == -1 && Negotiated() == old(Negotiated())
              else ret == 0 && Negotiated() == q.value
    {
      hide FwiToFwt;
      hide At;
      hide AtsLength;
      hide HasTa;
      hide HasTb;
      hide HasTc;
      hide Fwi;
      hide Fsci;
      var len := AtsLength(ats);
      if len == 0 {
        ret := -1;
      } else if len == 1 {
        fsc, ta, fwt, ret := 32, 0x80, FwiToFwt(4), 0;
      } else {
        ta, ret := 0, 0;
        var t0, cur := At(ats, 1), 2;
        fsc := FsdiToFsd(Fsci(ats), fsc);
        if fsc > mtu {
          fsc := mtu;
        }
        if HasTa(t0) {
          ta := At(ats, cur);
          cur := cur + 1;
        }
        if HasTb(t0) {
          fwt := FwiToFwt(Fwi(At(ats, cur)));
          cur := cur + 1;
        }
        if HasTc(t0) {
          ParseTc(At(ats, cur));
          cur := cur + 1;
        }
        historicalLen := (len - cur) % WORD;
        historicalAt := cur;
      }
    }

    /** The request for an answer to select, announcing the largest frame the reader takes. */
    ghost predicate IsRats(frame: Frame) reads this`fsd, this`cid {
      exists fsdi: nat :: fsdi < |FSD_TABLE| && FSD_TABLE[fsdi] == fsd && frame == [0xe0, (cid & 0x0f) | ((fsdi as bv8) << 4)]
    }

    method BuildRats() returns (rats: Frame)
      requires fsd in FSD_TABLE
      ensures IsRats(rats)
    {
      var fsdi := FsdToFsdi(fsd);
      rats := [0xe0, (cid & 0x0f) | ((fsdi.value as bv8) << 4)];
    }

    /** Parses the answer on a handle that has negotiated nothing yet. */
    method TakeAts(ats: Frame) returns (ret: int)
      requires Parsable(ats) && Negotiated() == FRESH && mtu <= MAX_FRAMELEN
      modifies this`ta, this`fsc, this`fwt, this`nadSupported, this`cidSupported, this`historicalAt, this`historicalLen
      ensures ret == (if AtsLength(ats) >= 1 then 0 else -1)
      ensures ret == 0 ==> Parsed(FRESH, ats, mtu) == Some(Negotiated())
      ensures fsc <= MAX_FRAMELEN && fwt <= MAX_FWT
    {
      ParsedSomeIff(FRESH, ats, mtu);
      if AtsLength(ats) >= 1 {
        ParsedBounds(FRESH, ats, mtu);
      }
      hide Parsed;
      ret := ParseAts(ats);
    }

    /** Asks the card for its answer to select. */
    method RequestAts(link: Link) returns (ret: int)
      requires Valid() && (link.replies != [] ==> Parsable(link.replies[0]))
      modifies this`phase, this`answer, link
      modifies this`ta, this`fsc, this`fwt, this`nadSupported, this`cidSupported, this`historicalAt, this`historicalLen
      ensures Valid() && ret <= 0
      ensures ret == 0 <==> old(phase) == Initial && old(link.replies) != [] && AtsLength(old(link.replies)[0]) >= 1
      ensures old(phase) != Initial ==> phase == old(phase) && link.sent == old(link.sent)
      ensures old(phase) == Initial ==>
                var n := |old(link.sent)|;
                && |link.sent| == n + 1 && link.sent[..n] == old(link.sent) && IsRats(link.sent[n].frame)
                && link.sent[n].timeout == 4833 && link.sent[n].toggle == toggle
      ensures ret == 0 ==>
                phase == AtsReceived && answer == old(link.replies)[0] && Parsed(FRESH, answer, mtu) == Some(Negotiated())
    {
      hide Parsed;
      hide Parsable;
      hide AtsLength;
      hide FwiToFwt;
      if phase != Initial {
        return -1;
      }
      var rats := BuildRats();
      ghost var stream := link.replies;
      var ats;
      ret, ats := link.Exchange(rats, ACTIVATION_FWT, toggle);
      if ret < 0 {
        phase := RatsSent;
      } else {
        assert stream[0] == ats;
        ret := TakeAts(ats);
        phase, answer := AtsReceived, ats;
      }
    }

    /** Type A activation; `pps` is the result of the speed negotiation, run when the card offers one.
        It succeeds exactly on a handle in its initial state, for an answer that is not empty, if the
        speed negotiation is not needed or succeeds. */
    method Connect(link: Link, pps: int) returns (ret: int)
      requires Valid() && (link.replies != [] ==> Parsable(link.replies[0]))
      modifies this, link
      ensures Valid() && toggle == old(toggle) && cid == old(cid) && blockSent == old(blockSent)
      ensures ret >= 0 <==>
                && old(phase) == Initial && old(link.replies) != [] && AtsLength(old(link.replies)[0]) >= 1
                && (Parsed(FRESH, old(link.replies)[0], mtu).value.ta & 0x77 == 0 || pps >= 0)
      ensures ret >= 0 ==> phase == Established && answer == old(link.replies)[0]
      ensures old(phase) != Initial ==> phase == old(phase) && link.sent == old(link.sent)
    {
      hide Parsed;
      if phase != Deselected && phase != Initial {
        return -1;
      }
      ret := RequestAts(link);
      if ret < 0 {
        return;
      }
      if ta & 0x77 != 0 && pps < 0 {
        return pps;
      }
      phase := Established;
      ret := 0;
    }

    /** Deselecting and connecting again never succeeds, whatever the card answers. */
    method Reconnect(link: Link, pps: int) returns (ret: int)
      requires Valid() && (|link.replies| >= 2 ==> Parsable(link.replies[1]))
      modifies this, link
      ensures Valid() && ret < 0
      ensures old(link.replies) != [] ==> phase == Deselected
    {
      ret := Deselect(link);
      ret := Connect(link, pps);
    }

    /** Sends S(DESELECT); the block number is untouched. */
    method Deselect(link: Link) returns (ret: int)
      requires Valid()
      modifies this`phase, this`toggle, link
      ensures Valid() && toggle == old(toggle)
      ensures link.replies == (if old(link.replies) == [] then [] else old(link.replies)[1..])
      ensures link.sent == old(link.sent) + [Sent([0xc2], 4833, toggle)]
      ensures ret == (if old(link.replies) == [] then EIO else 0)
      ensures phase == (if ret < 0 then old(phase) else Deselected)
    {
      var frame := new bv8[3];
      var n := BuildPrologue(frame, 0xc2);
      assert frame[..n] == [0xc2];
      var rx;
      ret, rx := link.Exchange(frame[..n], ACTIVATION_FWT, toggle);
      if ret >= 0 {
        phase := Deselected;
        ret := 0;
      }
    }

    /** Writes the prologue of a block; anything but an S-block takes the next block number. */
    method BuildPrologue(data: array<bv8>, pcb: bv8) returns (prlgLen: nat)
      requires data.Length > 0
      modifies this`toggle, data
      ensures prlgLen == 1
      ensures IsS(pcb) ==> toggle == old(toggle) && data[0] == pcb
      ensures !IsS(pcb) ==> toggle == !old(toggle) && data[0] == pcb | (if toggle then 1 else 0)
      ensures data[1..] == old(data[1..])
    {
      prlgLen := 1;
      data[0] := pcb;
      if !IsS(pcb) {
        if toggle {
          toggle := false;
        } else {
          toggle := true;
          data[0] := data[0] | 0x01;
        }
      }
    }

    method RefillBuffer(x: TxBuffer, tx: Frame, next: nat, ghost rx: Frame) returns (ret: int, next': nat)
      requires fsc <= MAX_FRAMELEN && Room(tx) && x.Valid() && next <= |tx|
      modifies this`toggle, x, x.data
      ensures x.Valid() && next <= next' <= |tx|
      ensures var n := Refill(Cfg(), old(toggle), tx[next..], rx);
              if n.Stop? then ret == n.ret && toggle == n.toggle && next' == next
              else ret == 0 && n.state == State(toggle, tx[next'..], rx, x.Contents(), x.timeout)
    {
      ret, next' := 0, next;
      if next >= |tx| {
        ret := -1;
        return;
      }
      x.hdrLen := BuildPrologue(x.data, 0x02);
      var net := if fsc == 0 then WORD - 1 else fsc - x.hdrLen;
      var n := if |tx| - next > net then net else |tx| - next;
      CopyAfter(x.data, tx[next..next + n]);
      next' := next + n;
      if next' < |tx| {
        x.data[0] := x.data[0] | 0x10;
      }
      x.frameLen, x.timeout := n + x.hdrLen, fwt;
      assert x.data[0] == IPcb(toggle, next' < |tx|);
      assert x.Contents() == [x.data[0]] + tx[next..next'];
      assert tx[next..][..n] == tx[next..next'] && tx[next..][n..] == tx[next'..];
    }

    /** Builds the S(WTX) response and the extended timeout, a 32-bit product. */
    method FillWtx(x: TxBuffer, inf: bv8)
      requires x.Valid()
      modifies this`toggle, x, x.data
      ensures x.Valid() && toggle == old(toggle)
      ensures x.Contents() == [WTX_PCB, inf] && x.timeout == fwt * inf as nat % WORD
    {
      x.hdrLen := BuildPrologue(x.data, 0xc2);
      x.data[0] := x.data[0] | 0x30;
      x.data[x.hdrLen] := inf;
      x.frameLen := x.hdrLen + 1;
      x.timeout := fwt * inf as nat % WORD;
    }

    /** Grants a waiting time extension, or gives up on any other S-block. */
    method HandleSupervisory(x: TxBuffer, ghost s: State, reply: Frame) returns (again: bool, ret: int)
      requires x.Valid() && IsS(At(reply, 0)) && s.toggle == toggle
      modifies this`toggle, x, x.data
      ensures x.Valid() && toggle == old(toggle)
      ensures var n := OnReply(Cfg(), s, reply);
              if again then n == Send(s.(frame := x.Contents(), timeout := x.timeout))
              else n.Stop? && n.ret == ret && n.toggle == toggle && n.rx == s.rx
    {
      again := false;
      if !CidOk(cid, reply) {
        return false, 0;
      }
      var inf;
      if HasCid(At(reply, 0)) {
        if |reply| < 3 {
          return false, -1;
        }
        inf := At(reply, 2);
      } else {
        inf := At(reply, 1);
      }
      if At(reply, 0) & 0x30 != 0x30 {
        return false, -1;
      }
      inf := inf & 0x3f;
      if inf == 0 || 60 <= inf <= 63 {
        return false, -1;
      }
      FillWtx(x, inf);
      return true, 0;
    }

    /** Takes in an I-block and acknowledges it when it announces another. */
    method HandleInformation(x: TxBuffer, ghost s: State, rx: Frame, reply: Frame) returns (again: bool, rx': Frame)
      requires x.Valid() && IsI(At(reply, 0)) && Whole(reply) && s.toggle == toggle && s.rx == rx
      modifies this`toggle, x, x.data
      ensures x.Valid()
      ensures var n := OnReply(Cfg(), s, reply);
              if again
              then n == Send(s.(toggle := toggle, rx := rx', frame := x.Contents(), timeout := x.timeout))
              else n.Stop? && n.ret == 0 && n.toggle == toggle && n.rx == rx'
    {
      var pcb := At(reply, 0);
      again, rx' := false, rx;
      if BlockNumber(pcb) != toggle {
        return;
      }
      if !CidOk(cid, reply) {
        return;
      }
      rx' := rx + reply[HeaderLen(pcb)..];
      if Chained(pcb) {
        x.frameLen := BuildPrologue(x.data, 0xa2);
        x.timeout := fwt;
        again := true;
        assert x.Contents() == [AckPcb(toggle)];
      }
    }

    /** Decides what a reply means; `again` when another frame is to be sent. */
    method HandleReply(x: TxBuffer, tx: Frame, next: nat, rx: Frame, reply: Frame)
      returns (again: bool, ret: int, next': nat, rx': Frame)
      requires fsc <= MAX_FRAMELEN && Room(tx) && x.Valid() && next <= |tx| && Whole(reply)
      modifies this`toggle, x, x.data
      ensures x.Valid() && next <= next' <= |tx|
      ensures var n := OnReply(Cfg(), State(old(toggle), tx[next..], rx, old(x.Contents()), old(x.timeout)), reply);
              if again
              then n == Send(State(toggle, tx[next'..], rx', x.Contents(), x.timeout))
              else n.Stop? && n.ret == ret && n.toggle == toggle && n.rx == rx'
    {
      ghost var s := State(toggle, tx[next..], rx, x.Contents(), x.timeout);
      var pcb := At(reply, 0);
      again, ret, next', rx' := false, 0, next, rx;
      if IsR(pcb) {
        if BlockNumber(pcb) == toggle && CidOk(cid, reply) {
          ret, next' := RefillBuffer(x, tx, next, rx);
          again := ret >= 0;
        }
      } else if IsS(pcb) {
        again, ret := HandleSupervisory(x, s, reply);
      } else if IsI(pcb) {
        again, rx' := HandleInformation(x, s, rx, reply);
      }
    }

    /** One exchange and what the driver makes of it. */
    method Round(link: Link, x: TxBuffer, tx: Frame, next: nat, rx: Frame)
      returns (again: bool, ret: int, next': nat, rx': Frame)
      requires fsc <= MAX_FRAMELEN && Room(tx) && x.Valid() && next <= |tx| && AllWhole(link.replies)
      modifies this`toggle, link, x, x.data
      ensures x.Valid() && next' <= |tx|
      ensures link.sent == old(link.sent) + [Sent(old(x.Contents()), old(x.timeout), old(toggle))]
      ensures var s := State(old(toggle), tx[next..], rx, old(x.Contents()), old(x.timeout));
              if old(link.replies) == []
              then !again && ret == EIO && toggle == s.toggle && rx' == rx && link.replies == []
              else
                && link.replies == old(link.replies)[1..]
                && var n := OnReply(Cfg(), s, old(link.replies)[0]);
                   if again then n == Send(State(toggle, tx[next'..], rx', x.Contents(), x.timeout))
                   else n.Stop? && n.ret == ret && n.toggle == toggle && n.rx == rx'
    {
      hide OnReply;
      ghost var stream := link.replies;
      again, next', rx' := false, next, rx;
      var reply;
      ret, reply := link.Exchange(x.data[..x.frameLen], x.timeout, toggle);
      if ret >= 0 {
        assert stream[0] == reply && stream[1..] == link.replies;
        again, ret, next', rx' := HandleReply(x, tx, next, rx, reply);
      }
    }

    /** One exchange of a run that ends as `total` says; `done` is what it has sent on top of `base`. */
    method Turn(link: Link, x: TxBuffer, tx: Frame, next: nat, rx: Frame,
                ghost base: seq<Sent>, ghost done: seq<Sent>, ghost total: Outcome)
      returns (again: bool, ret: int, next': nat, rx': Frame, ghost done': seq<Sent>)
      requires fsc <= MAX_FRAMELEN && Room(tx) && x.Valid() && next <= |tx| && AllWhole(link.replies)
      requires link.sent == base + done
      requires Leads(Cfg(), State(toggle, tx[next..], rx, x.Contents(), x.timeout), link.replies, done, total)
      modifies this`toggle, link, x, x.data
      ensures x.Valid() && next' <= |tx| && AllWhole(link.replies) && link.sent == base + done'
      ensures if again
              then |link.replies| < |old(link.replies)|
                   && Leads(Cfg(), State(toggle, tx[next'..], rx', x.Contents(), x.timeout), link.replies, done', total)
              else total.(why := LinkLost) == Outcome(ret, toggle, rx', LinkLost, done')
    {
      hide OnReply;
      hide Leads;
      ghost var s, left := State(toggle, tx[next..], rx, x.Contents(), x.timeout), link.replies;
      if left == [] {
        LeadsOut(Cfg(), s, done, total);
      } else {
        LeadsOn(Cfg(), s, left, done, total);
      }
      done' := done + [Sent(s.frame, s.timeout, s.toggle)];
      again, ret, next', rx' := Round(link, x, tx, next, rx);
    }

    /** The loop proper: exchanges frames until a reply ends the call or the link fails. */
    method Pump(link: Link, x: TxBuffer, tx: Frame, start: nat) returns (ret: int, rx: Frame)
      requires fsc <= MAX_FRAMELEN && Room(tx) && x.Valid() && start <= |tx| && AllWhole(link.replies)
      modifies this`toggle, link, x, x.data
      ensures var out := Run(old(Cfg()), old(State(toggle, tx[start..], [], x.Contents(), x.timeout)), old(link.replies));
              ret == out.ret && rx == out.rx && toggle == out.toggle && link.sent == old(link.sent) + out.sent
    {
      ghost var total := Run(Cfg(), State(toggle, tx[start..], [], x.Contents(), x.timeout), link.replies);
      ghost var done: seq<Sent> := [];
      var next: nat, again := start, true;
      ret, rx := 0, [];
      assert [] + total.sent == total.sent;
      assert Leads(Cfg(), State(toggle, tx[next..], rx, x.Contents(), x.timeout), link.replies, done, total);
      hide Run;
      hide Leads;
      while again
        invariant x.Valid() && next <= |tx| && AllWhole(link.replies) && link.sent == old(link.sent) + done
        invariant if again
                  then Leads(Cfg(), State(toggle, tx[next..], rx, x.Contents(), x.timeout), link.replies, done, total)
                  else total.(why := LinkLost) == Outcome(ret, toggle, rx, LinkLost, done)
        decreases again, |link.replies|
      {
        again, ret, next, rx, done := Turn(link, x, tx, next, rx, old(link.sent), done, total);
      }
    }

    /** Sends `tx`, in as many blocks as the card's frame size asks for, and gathers the answer. */
    method Transceive(link: Link, tx: Frame) returns (ret: int, rx: Frame)
      requires Valid() && Room(tx) && AllWhole(link.replies)
      modifies this`toggle, this`blockSent, link
      ensures Valid() && Cfg() == old(Cfg())
      ensures var out := Call(old(Cfg()), old(toggle), tx, old(link.replies));
              && ret == out.ret && rx == out.rx && toggle == out.toggle
              && link.sent == old(link.sent) + out.sent
    {
      blockSent := true;
      var x := new TxBuffer(fwt);
      var next;
      rx := [];
      assert tx[0..] == tx;
      ret, next := RefillBuffer(x, tx, 0, []);
      if ret >= 0 {
        ret, rx := Pump(link, x, tx, next);
      }
    }
  }

  lemma LeadsOut(cfg: Config, s: State, done: seq<Sent>, total: Outcome)
    requires Leads(cfg, s, [], done, total)
    ensures total == Outcome(EIO, s.toggle, s.rx, LinkLost, done + [Sent(s.frame, s.timeout, s.toggle)])
  {
  }

  /** Having sent `done`, a run from `s` over `replies` ends as `total` says. */
  ghost predicate Leads(cfg: Config, s: State, replies: seq<Frame>, done: seq<Sent>, total: Outcome)
    requires AllWhole(replies)
  {
    var out := Run(cfg, s, replies);
    total == out.(sent := done + out.sent)
  }

  lemma LeadsOn(cfg: Config, s: State, replies: seq<Frame>, done: seq<Sent>, total: Outcome)
    requires AllWhole(replies) && replies != []
    requires Leads(cfg, s, replies, done, total)
    ensures var done' := done + [Sent(s.frame, s.timeout, s.toggle)];
            var next := OnReply(cfg, s, replies[0]);
            if next.Send? then Leads(cfg, next.state, replies[1..], done', total)
            else total == Outcome(next.ret, next.toggle, next.rx, next.why, done')
  {
    var next := OnReply(cfg, s, replies[0]);
    var here := [Sent(s.frame, s.timeout, s.toggle)];
    if next.Send? {
      var rest := Run(cfg, next.state, replies[1..]);
      assert done + (here + rest.sent) == (done + here) + rest.sent;
    }
  }
}
