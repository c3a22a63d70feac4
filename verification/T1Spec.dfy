/**
 The T=1 loop of the CCID driver as a step machine. A `State` is the driver when it hands a
 block to the reader; `OnReply` is what one block from the card makes of it; `Run` drives it
 over a finite stream of blocks, after which the reader reports an input/output error.
 */
module T1Spec {
  import opened T1Blocks

  const OK := 0
  const INV_VALUE := 0x10002
  const ABORTED := 0x1000d
  const CARD_IO_ERROR := 0x1000a

  const CHUNK := 128
  const MAX_APDU := 254

  /** Node address byte, and whether the caller supplied a response buffer. */
  datatype Config = Config(nad: bv8, wantsResponse: bool)

  datatype State = State(
    ns: bool, nr: bool, sending: bool, retries: nat,
    buf: seq<bv8>, tpdu: Tpdu, resp: seq<bv8>, room: nat)

  datatype Why =
    | Done | TooLong | LinkLost | Short | NoRoom | TooManyRetries | WrongNumber | UnexpectedAck | BadSupervisory

  datatype Next =
    | Send(state: State)
    | Return(rc: int, ns: bool, nr: bool, resp: seq<bv8>, why: Why)

  function Quit(rc: int, s: State, why: Why): Next { Return(rc, s.ns, s.nr, s.resp, why) }

  /** Builds the I-block for the next chunk of the command. */
  function NextChunk(cfg: Config, s: State): Next {
    if |s.buf| > MAX_APDU then Quit(INV_VALUE, s, TooLong)
    else if |s.buf| > CHUNK then
      Send(s.(buf := s.buf[CHUNK..], tpdu := Block(cfg.nad, IPcb(s.ns, true), s.buf[..CHUNK])))
    else
      Send(s.(tpdu := Block(cfg.nad, IPcb(s.ns, false), s.buf)))
  }

  function OnInformation(cfg: Config, s: State, t: Tpdu): Next
    requires |t| >= 4 && IsI(t[1])
  {
    var s1 := s.(retries := 0, ns := if s.sending then !s.ns else s.ns, sending := false);
    if SendNumber(t[1]) != s1.nr then
      Send(s1.(tpdu := Block(cfg.nad, RPcb(s1.nr, 2), [])))
    else
      var s2 := s1.(nr := !s1.nr);
      if cfg.wantsResponse && |Inf(t)| > s2.room then Quit(INV_VALUE, s2, NoRoom)
      else
        var s3 := if cfg.wantsResponse
                  then s2.(resp := s2.resp + Inf(t), room := s2.room - |Inf(t)|) else s2;
        if !More(t[1]) then Quit(OK, s3, Done)
        else Send(s3.(tpdu := Block(cfg.nad, RPcb(s3.nr, 0), [])))
  }

  function OnReady(cfg: Config, s: State, t: Tpdu): Next
    requires |t| >= 4 && IsR(t[1])
  {
    if t[1] & 0x0f != 0 then
      if s.retries + 1 > 3 then Quit(CARD_IO_ERROR, s, TooManyRetries)
      else Send(s.(retries := s.retries + 1))
    else if s.sending && ReceiveNumber(t[1]) == s.ns then Quit(CARD_IO_ERROR, s, WrongNumber)
    else if s.sending then NextChunk(cfg, s.(retries := 0, ns := !s.ns))
    else Quit(CARD_IO_ERROR, s, UnexpectedAck)
  }

  function OnReply(cfg: Config, s: State, t: Tpdu): Next {
    if |t| < 4 then Quit(ABORTED, s, Short)
    else if IsI(t[1]) then OnInformation(cfg, s, t)
    else if IsR(t[1]) then OnReady(cfg, s, t)
    else if t[1] & 0x20 == 0 && t[1] & 0x1f == 3 && t[2] != 0 then
      Send(s.(retries := 0, tpdu := Block(cfg.nad, WTX_RESPONSE, [t[3]])))
    else Quit(CARD_IO_ERROR, s, BadSupervisory)
  }

  datatype Outcome = Outcome(rc: int, ns: bool, nr: bool, resp: seq<bv8>, why: Why, sent: seq<Tpdu>)

  function Run(cfg: Config, s: State, replies: seq<Tpdu>): Outcome
    decreases |replies|
  {
    if replies == [] then
      Outcome(CARD_IO_ERROR, s.ns, s.nr, s.resp, LinkLost, [s.tpdu])
    else
      match OnReply(cfg, s, replies[0])
      case Return(rc, ns, nr, resp, why) => Outcome(rc, ns, nr, resp, why, [s.tpdu])
      case Send(s1) =>
        var rest := Run(cfg, s1, replies[1..]);
        rest.(sent := [s.tpdu] + rest.sent)
  }

  function Begin(cfg: Config, ns: bool, nr: bool, apdu: seq<bv8>, room: nat): Next {
    NextChunk(cfg, State(ns, nr, true, 0, apdu, [], [], room))
  }

  /** One call of the driver's transceive entry with counters `ns` and `nr`. */
  function Call(cfg: Config, ns: bool, nr: bool, apdu: seq<bv8>, room: nat, replies: seq<Tpdu>): Outcome {
    match Begin(cfg, ns, nr, apdu, room)
    case Return(rc, ns, nr, resp, why) => Outcome(rc, ns, nr, resp, why, [])
    case Send(s) => Run(cfg, s, replies)
  }

  /** Peeling one exchange off a run. */
  lemma Peel(cfg: Config, s: State, replies: seq<Tpdu>)
    requires replies != []
    ensures var out := Run(cfg, s, replies);
            var next := OnReply(cfg, s, replies[0]);
            && out.sent[0] == s.tpdu
            && if next.Return? then out == Outcome(next.rc, next.ns, next.nr, next.resp, next.why, [s.tpdu])
               else var rest := Run(cfg, next.state, replies[1..]);
                 out == rest.(sent := [s.tpdu] + rest.sent) && out.sent[1..] == rest.sent
  {
  }
}
