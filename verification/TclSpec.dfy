/**
 The T=CL transceive loop as a step machine. A `State` is the driver at the moment it hands a
 frame to the layer below; `OnReply` is what it does with one reply; `Run` drives it over a
 finite stream of replies, after which the transport reports an error.
 */
module TclSpec {
  import opened Common
  import opened TclBlocks

  const EIO := -5

  datatype Config = Config(fsc: nat, fwt: nat, cid: bv8)

  datatype State = State(toggle: bool, todo: Frame, rx: Frame, frame: Frame, timeout: nat)

  datatype Why =
    | Complete | NothingToSend | WrongBlock | WrongCid | BadSupervisory | UnknownBlock | LinkLost

  datatype Next =
    | Send(state: State)
    | Stop(ret: int, toggle: bool, rx: Frame, why: Why)

  /** Most data bytes one I-block takes; without a frame size the unsigned difference wraps around. */
  function Net(cfg: Config): nat { if cfg.fsc == 0 then WORD - 1 else cfg.fsc - 1 }

  /** Load the next segment of the outgoing message. */
  function Refill(cfg: Config, toggle: bool, todo: Frame, rx: Frame): Next {
    if todo == [] then
      Stop(-1, toggle, rx, NothingToSend)
    else
      var n := if |todo| > Net(cfg) then Net(cfg) else |todo|;
      Send(State(!toggle, todo[n..], rx, [IPcb(!toggle, n < |todo|)] + todo[..n], cfg.fwt))
  }

  function OnReply(cfg: Config, s: State, r: Frame): Next
    requires Whole(r)
  {
    var pcb := At(r, 0);
    if IsR(pcb) then
      if BlockNumber(pcb) != s.toggle then Stop(0, s.toggle, s.rx, WrongBlock)
      else if !CidOk(cfg.cid, r) then Stop(0, s.toggle, s.rx, WrongCid)
      else Refill(cfg, s.toggle, s.todo, s.rx)
    else if IsS(pcb) then
      if !CidOk(cfg.cid, r) then Stop(0, s.toggle, s.rx, WrongCid)
      else if HasCid(pcb) && |r| < 3 then Stop(-1, s.toggle, s.rx, BadSupervisory)
      else if pcb & 0x30 != 0x30 then Stop(-1, s.toggle, s.rx, BadSupervisory)
      else
        var wtxm := At(r, if HasCid(pcb) then 2 else 1) & 0x3f;
        if wtxm == 0 || 60 <= wtxm <= 63 then Stop(-1, s.toggle, s.rx, BadSupervisory)
        else Send(s.(frame := [WTX_PCB, wtxm], timeout := cfg.fwt * wtxm as nat % WORD))
    else if IsI(pcb) then
      if BlockNumber(pcb) != s.toggle then Stop(0, s.toggle, s.rx, WrongBlock)
      else if !CidOk(cfg.cid, r) then Stop(0, s.toggle, s.rx, WrongCid)
      else
        var rx := s.rx + Payload(r);
        if Chained(pcb)
        then Send(s.(toggle := !s.toggle, rx := rx, frame := [AckPcb(!s.toggle)], timeout := cfg.fwt))
        else Stop(0, s.toggle, rx, Complete)
    else
      // a PCB of the form 01xx xxxx is none of the three kinds; the driver falls through to its exit
      Stop(0, s.toggle, s.rx, UnknownBlock)
  }

  datatype Outcome = Outcome(ret: int, toggle: bool, rx: Frame, why: Why, sent: seq<Sent>)

  predicate AllWhole(replies: seq<Frame>) { forall i :: 0 <= i < |replies| ==> Whole(replies[i]) }

  function Run(cfg: Config, s: State, replies: seq<Frame>): Outcome
    requires AllWhole(replies)
    decreases |replies|
  {
    var here := [Sent(s.frame, s.timeout, s.toggle)];
    if replies == [] then
      Outcome(EIO, s.toggle, s.rx, LinkLost, here)
    else
      match OnReply(cfg, s, replies[0])
      case Stop(ret, toggle, rx, why) => Outcome(ret, toggle, rx, why, here)
      case Send(s1) =>
        var rest := Run(cfg, s1, replies[1..]);
        rest.(sent := here + rest.sent)
  }

  /** One call of the driver's transceive entry. */
  function Call(cfg: Config, toggle: bool, tx: Frame, replies: seq<Frame>): Outcome
    requires AllWhole(replies)
  {
    match Refill(cfg, toggle, tx, [])
    case Stop(ret, t, rx, why) => Outcome(ret, t, rx, why, [])
    case Send(s) => Run(cfg, s, replies)
  }
}
