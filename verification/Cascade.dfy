/**
 UID assembly over the cascade levels of type A selection (ISO/IEC 14443-3 section 6.4.4).
 */
module Cascade {
  import opened Common
  import opened Anticollision

  const EIO := -5
  const CASCADE_TAG: bv8 := 0x88

  datatype State = Error | Idle | AnticolRunning | NoBitframe | Selected

  /** What comes back at one cascade level: the anticollision frame and the select acknowledge, each
      possibly missing. A frame is never longer than the five bytes asked for. */
  datatype LevelReply = LevelReply(rx: Option<Bytes>, sak: Option<bv8>)

  predicate Fits(replies: seq<LevelReply>) {
    forall r <- replies :: r.rx.Some? ==> |r.rx.value| <= 5
  }

  /** The acknowledge announces a card that speaks T=CL. */
  predicate Capable(reply: LevelReply) { reply.sak.Some? && reply.sak.value & 0x20 != 0 }

  function SelCode(level: nat): bv8 { if level == 1 then 0x93 else if level == 2 then 0x95 else 0x97 }

  function SelectFrame(level: nat, frame: Bytes): Bytes { [SelCode(level), 0x70] + frame }

  datatype Outcome = Outcome(ret: int, state: State, uid: Bytes, uidLen: nat, selects: seq<Bytes>)

  /** Overwrites part of the UID buffer. */
  function Put(uid: Bytes, at: nat, part: Bytes): (r: Bytes)
    requires at + |part| <= |uid|
    ensures |r| == |uid|
  {
    uid[..at] + part + uid[at + |part|..]
  }

  datatype Step =
    | Stop(ret: int, state: State, uid: Bytes, uidLen: nat, sent: seq<Bytes>)
    | Up(uid: Bytes, frame: Bytes, sent: seq<Bytes>)

  /** One cascade level, ending the selection or moving up. */
  function OneLevel(level: nat, uid: Bytes, uidLen: nat, frame: Bytes, reply: LevelReply): (s: Step)
    requires 1 <= level <= 3 && |uid| == 10 && |frame| == 5 && (reply.rx.Some? ==> |reply.rx.value| <= 5)
    ensures s.Up? ==> level < 3 && |s.uid| == 10 && |s.frame| == 5
  {
    if reply.rx.None? then Stop(EIO, AnticolRunning, uid, uidLen, [])
    else
      var f := Merged(frame, 0, 0, reply.rx.value);
      var sent := [SelectFrame(level, f)];
      if reply.sak.None? then Stop(EIO, AnticolRunning, uid, uidLen, sent)
      else if reply.sak.value & 0x04 == 0 then
        var at := 3 * (level - 1);
        Stop(0, Selected, Put(uid, at, f[..4]), at + 4, sent)
      else if level == 3 then Stop(-1, Error, uid, uidLen, sent)
      else if level == 1 && f[0] != CASCADE_TAG then Stop(-1, AnticolRunning, uid, uidLen, sent)
      else Up(Put(uid, 3 * (level - 1), f[1..4]), f, sent)
  }

  /** Selection from cascade level `level` on. */
  function Select(level: nat, uid: Bytes, uidLen: nat, frame: Bytes, replies: seq<LevelReply>): Outcome
    requires 1 <= level <= 3 && |uid| == 10 && |frame| == 5 && Fits(replies)
    decreases 3 - level
  {
    if replies == [] then Outcome(EIO, AnticolRunning, uid, uidLen, [])
    else
      assert replies[0] in replies;
      match OneLevel(level, uid, uidLen, frame, replies[0])
      case Stop(ret, state, u, n, sent) => Outcome(ret, state, u, n, sent)
      case Up(u, f, sent) =>
        var rest := Select(level + 1, u, uidLen, f, replies[1..]);
        rest.(selects := sent + rest.selects)
  }

  // ----- any card -----

  /** Whatever comes back, up to five bytes at each level: at most three selects, with the codes of levels 1, 2, 3 in this order. */
  lemma {:induction false} SelectsInOrder(level: nat, uid: Bytes, uidLen: nat, frame: Bytes, replies: seq<LevelReply>)
    requires 1 <= level <= 3 && |uid| == 10 && |frame| == 5 && Fits(replies)
    ensures var out := Select(level, uid, uidLen, frame, replies);
            && |out.selects| <= 4 - level && |out.uid| == 10
            && (forall i :: 0 <= i < |out.selects| ==>
                  |out.selects[i]| == 7 && out.selects[i][..2] == [[0x93, 0x70], [0x95, 0x70], [0x97, 0x70]][level - 1 + i])
            && (out.ret == 0 <==> out.state == Selected)
            && (out.ret == 0 ==> |out.selects| >= 1 && out.uidLen == 3 * (level + |out.selects| - 2) + 4)
    decreases 3 - level
  {
    if replies != [] {
      assert replies[0] in replies;
      var step := OneLevel(level, uid, uidLen, frame, replies[0]);
      if step.Up? {
        SelectsInOrder(level + 1, step.uid, uidLen, step.frame, replies[1..]);
      }
    }
  }

  // ----- one card -----

  predicate IsUid(u: Bytes) { |u| == 4 || |u| == 7 || |u| == 10 }

  function Levels(u: Bytes): nat
    requires IsUid(u)
  {
    if |u| == 4 then 1 else if |u| == 7 then 2 else 3
  }

  /** The five bytes a card with UID `u` presents at a level: a cascade tag and three bytes, or the
      last four bytes; then their check byte. */
  function LevelFrame(u: Bytes, level: nat): (f: Bytes)
    requires IsUid(u) && 1 <= level <= Levels(u)
    ensures |f| == 5
  {
    var at := 3 * (level - 1);
    var p := if level < Levels(u) then [0x88] + u[at..at + 3] else u[at..at + 4];
    p + [p[0] ^ p[1] ^ p[2] ^ p[3]]
  }

  /** The select frames that name, level by level, what the card presents: the level's code, the count of
      seven bytes, and the presented frame. */
  function LevelSelects(u: Bytes, level: nat): (frames: seq<Bytes>)
    requires IsUid(u) && 1 <= level <= Levels(u) + 1
    ensures |frames| == Levels(u) + 1 - level
    ensures forall i :: 0 <= i < |frames| ==>
              frames[i] == [[0x93, 0x70], [0x95, 0x70], [0x97, 0x70]][level - 1 + i] + LevelFrame(u, level + i)
    decreases Levels(u) + 1 - level
  {
    if level > Levels(u) then []
    else [[[0x93, 0x70], [0x95, 0x70], [0x97, 0x70]][level - 1] + LevelFrame(u, level)] + LevelSelects(u, level + 1)
  }

  /** The cascade bit is set on every select acknowledge but the last. */
  predicate SaksFor(u: Bytes, saks: seq<bv8>)
    requires IsUid(u)
  {
    |saks| == Levels(u) && forall i :: 0 <= i < |saks| ==> (saks[i] & 0x04 != 0 <==> i + 1 < |saks|)
  }

  /** Everything a single card with UID `u` says from `level` on. */
  function Presented(u: Bytes, saks: seq<bv8>, level: nat): seq<LevelReply>
    requires IsUid(u) && |saks| == Levels(u) && level >= 1
    decreases Levels(u) + 1 - level
  {
    if level > Levels(u) then []
    else [LevelReply(Some(Remainder(LevelFrame(u, level), 0)), Some(saks[level - 1]))] + Presented(u, saks, level + 1)
  }

  lemma {:induction false} PresentedFits(u: Bytes, saks: seq<bv8>, level: nat)
    requires IsUid(u) && |saks| == Levels(u) && level >= 1
    ensures Fits(Presented(u, saks, level))
    decreases Levels(u) + 1 - level
  {
    if level <= Levels(u) {
      PresentedFits(u, saks, level + 1);
    }
  }

  /** After merging, the frame is the one the card presents. */
  lemma MergedIsLevelFrame(frame: Bytes, card: Bytes)
    requires |frame| == |card| == 5
    ensures Merged(frame, 0, 0, Remainder(card, 0)) == card
  {
    assert frame[0] & LowMask(0) == card[0] & LowMask(0);
    RemainderCompletes(frame, card, 0);
  }

  /** How the selection ends, read off what comes back: a missing frame or acknowledge gives -5; an
      acknowledge without cascade bit selects; one with it moves up, except that -1 is returned at the
      third level, and at the first if the frame does not start with the cascade tag. A select repeats
      the five bytes that came back. */
  ghost predicate EndsRight(level: nat, replies: seq<LevelReply>, out: Outcome) {
    var n := |out.selects|;
    && n <= |replies|
    && (forall i :: 0 <= i < n ==>
          replies[i].rx.Some? && |out.selects[i]| == 7 && (|replies[i].rx.value| == 5 ==> out.selects[i][2..] == replies[i].rx.value))
    && (forall i :: 0 <= i < n - 1 ==> replies[i].sak.Some? && replies[i].sak.value & 0x04 != 0)
    && (out.ret == 0 ==> n >= 1 && replies[n - 1].sak.Some? && replies[n - 1].sak.value & 0x04 == 0)
    && (out.ret == -1 ==>
          && n >= 1 && replies[n - 1].sak.Some? && replies[n - 1].sak.value & 0x04 != 0
          && if out.state == Error then level + n == 4 else level + n == 2 && out.selects[0][2] != 0x88)
    && (out.ret == -5 ==>
          || (n >= 1 && replies[n - 1].sak.None?)
          || ((n >= 1 ==> replies[n - 1].sak.value & 0x04 != 0) && (n == |replies| || replies[n].rx.None?)))
    && (out.ret == 0 || out.ret == -1 || out.ret == -5)
  }

  lemma EndsRightCons(level: nat, replies: seq<LevelReply>, rest: Outcome, sent: Bytes)
    requires replies != [] && replies[0].sak.Some? && replies[0].sak.value & 0x04 != 0 && level >= 1
    requires replies[0].rx.Some? && |sent| == 7 && (|replies[0].rx.value| == 5 ==> sent[2..] == replies[0].rx.value)
    requires EndsRight(level + 1, replies[1..], rest)
    ensures EndsRight(level, replies, rest.(selects := [sent] + rest.selects))
  {
    var out, tail := rest.(selects := [sent] + rest.selects), replies[1..];
    assert forall i :: 0 <= i < |tail| ==> tail[i] == replies[i + 1];
    forall i | 0 <= i < |out.selects|
      ensures replies[i].rx.Some? && |out.selects[i]| == 7 && (|replies[i].rx.value| == 5 ==> out.selects[i][2..] == replies[i].rx.value)
    {
      if i > 0 { assert tail[i - 1] == replies[i] && out.selects[i] == rest.selects[i - 1]; }
    }
    forall i | 0 <= i < |out.selects| - 1 ensures replies[i].sak.Some? && replies[i].sak.value & 0x04 != 0 {
      if i > 0 { assert tail[i - 1] == replies[i]; }
    }
  }

  lemma LevelSends(level: nat, uid: Bytes, uidLen: nat, frame: Bytes, reply: LevelReply)
    requires 1 <= level <= 3 && |uid| == 10 && |frame| == 5 && (reply.rx.Some? ==> |reply.rx.value| <= 5)
    ensures var sent := OneLevel(level, uid, uidLen, frame, reply).sent;
            && (reply.rx.Some? <==> |sent| == 1) && (reply.rx.None? <==> sent == [])
            && (reply.rx.Some? ==> |sent[0]| == 7 && (|reply.rx.value| == 5 ==> sent[0][2..] == reply.rx.value))
  {
    if reply.rx.Some? {
      var f := Merged(frame, 0, 0, reply.rx.value);
      if |reply.rx.value| == 5 {
        MergedWhole(frame, reply.rx.value);
      }
      assert |f| == 5 && SelectFrame(level, f)[2..] == f;
      hide Merged;
    }
  }

  lemma MergedWhole(frame: Bytes, rx: Bytes)
    requires |frame| == |rx| == 5
    ensures Merged(frame, 0, 0, rx) == rx
  {
    assert frame[0] & LowMask(0) == 0;
    assert [rx[0]] + rx[1..] == rx;
  }

  lemma {:induction false} SelectEnds(level: nat, uid: Bytes, uidLen: nat, frame: Bytes, replies: seq<LevelReply>)
    requires 1 <= level <= 3 && |uid| == 10 && |frame| == 5 && Fits(replies)
    ensures EndsRight(level, replies, Select(level, uid, uidLen, frame, replies))
    decreases 3 - level
  {
    if replies != [] {
      assert replies[0] in replies;
      var step := OneLevel(level, uid, uidLen, frame, replies[0]);
      LevelSends(level, uid, uidLen, frame, replies[0]);
      hide Merged;
      if step.Up? {
        SelectEnds(level + 1, step.uid, uidLen, step.frame, replies[1..]);
        var rest := Select(level + 1, step.uid, uidLen, step.frame, replies[1..]);
        EndsRightCons(level, replies, rest, step.sent[0]);
        assert step.sent == [step.sent[0]];
      }
    }
  }

  /** What one level makes of what the card presents there. */
  lemma LevelAssembles(u: Bytes, saks: seq<bv8>, level: nat, uid: Bytes, uidLen: nat, frame: Bytes)
    requires IsUid(u) && SaksFor(u, saks) && 1 <= level <= Levels(u) && |uid| == 10 && |frame| == 5
    requires uid[..3 * (level - 1)] == u[..3 * (level - 1)]
    ensures var f, at := LevelFrame(u, level), 3 * (level - 1);
            var step := OneLevel(level, uid, uidLen, frame, LevelReply(Some(Remainder(f, 0)), Some(saks[level - 1])));
            && step.sent == [[[0x93, 0x70], [0x95, 0x70], [0x97, 0x70]][level - 1] + f]
            && if level < Levels(u) then step.Up? && step.frame == f && step.uid[..at + 3] == u[..at + 3]
               else step.Stop? && step.ret == 0 && step.state == Selected && step.uidLen == |u| && |step.uid| == 10 && step.uid[..|u|] == u
  {
    var f, at := LevelFrame(u, level), 3 * (level - 1);
    MergedIsLevelFrame(frame, f);
    hide Merged;
    hide Remainder;
    assert saks[level - 1] & 0x04 != 0 <==> level < Levels(u);
    assert |f[1..4]| == 3 && |f[..4]| == 4;
    if level < Levels(u) {
      assert f[1..4] == u[at..at + 3] && f[0] == 0x88;
      assert Put(uid, at, f[1..4])[..at + 3] == u[..at + 3];
    } else {
      assert f[..4] == u[at..];
      assert Put(uid, at, f[..4])[..at + 4] == u[..at] + u[at..];
    }
  }

  /** Selection assembles exactly the card's UID and its length, and selects at each level exactly what
      the card presented there. */
  lemma {:induction false} SelectAssembles(u: Bytes, saks: seq<bv8>, level: nat, uid: Bytes, uidLen: nat, frame: Bytes)
    requires IsUid(u) && SaksFor(u, saks) && 1 <= level <= Levels(u) && |uid| == 10 && |frame| == 5
    requires uid[..3 * (level - 1)] == u[..3 * (level - 1)]
    ensures Fits(Presented(u, saks, level))
    ensures var out := Select(level, uid, uidLen, frame, Presented(u, saks, level));
            && out.ret == 0 && out.state == Selected
            && out.uidLen == |u| && |out.uid| == 10 && out.uid[..|u|] == u
            && out.selects == LevelSelects(u, level)
    decreases Levels(u) - level
  {
    var replies := Presented(u, saks, level);
    PresentedFits(u, saks, level);
    LevelAssembles(u, saks, level, uid, uidLen, frame);
    hide OneLevel;
    hide Remainder;
    hide LevelFrame;
    assert replies[0] in replies && replies[1..] == Presented(u, saks, level + 1);
    if level < Levels(u) {
      var step := OneLevel(level, uid, uidLen, frame, replies[0]);
      SelectAssembles(u, saks, level + 1, step.uid, uidLen, step.frame);
    }
  }

  // ----- the driver -----

  /** The type A part of the layer 2 handle. */
  class Layer2 {
    var state: State
    const uid: array<bv8>
    var uidLen: nat
    var tclCapable: bool

    constructor ()
      ensures state == Idle && fresh(uid) && uid.Length == 10 && uidLen == 0
    {
      state, uid, uidLen, tclCapable := Idle, new bv8[10](_ => 0), 0, false;
    }

    /** One cascade level: completes the frame in `acf`, selects it, and files the UID bytes. */
    method DoLevel(acf: array<bv8>, level: nat, reply: LevelReply) returns (up: bool, ret: int, sent: seq<Bytes>)
      requires uid.Length == 10 && acf.Length == 5 && acf != uid && 1 <= level <= 3 && state == AnticolRunning
      requires reply.rx.Some? ==> |reply.rx.value| <= 5
      modifies this`state, this`uidLen, this`tclCapable, uid, acf
      ensures var s := OneLevel(level, old(uid[..]), old(uidLen), old(acf[..]), reply);
              && sent == s.sent
              && if up then s == Up(uid[..], acf[..], sent) && state == AnticolRunning && uidLen == old(uidLen)
                 else s == Stop(ret, state, uid[..], uidLen, sent)
      ensures tclCapable == (if up || ret != 0 then old(tclCapable) else Capable(reply))
      ensures up || ret == 0 ==> |sent| == 1
    {
      hide Merged;
      up, ret, sent := false, 0, [];
      if reply.rx.None? {
        ret := EIO;
      } else {
        assert NvbBytes(0x20) == 2 && NvbBits(0x20) == 0;
        Merge(acf, 0x20, reply.rx.value);
        sent := [SelectFrame(level, acf[..])];
        if reply.sak.None? {
          ret := EIO;
        } else if reply.sak.value & 0x04 == 0 {
          CopyInto(uid, 3 * (level - 1), acf[..4]);
          uidLen := 3 * (level - 1) + 4;
          state := Selected;
          tclCapable := reply.sak.value & 0x20 != 0;
        } else if level == 3 {
          state := Error;
          ret := -1;
        } else if level == 1 && acf[0] != CASCADE_TAG {
          ret := -1;
        } else {
          CopyInto(uid, 3 * (level - 1), acf[1..4]);
          up := true;
        }
      }
    }

    /** Climbs the cascade levels until a card is selected or something goes wrong. */
    method Climb(acf: array<bv8>, replies: seq<LevelReply>) returns (ret: int, selects: seq<Bytes>)
      requires uid.Length == 10 && acf.Length == 5 && acf != uid && state == AnticolRunning && Fits(replies)
      modifies this`state, this`uidLen, this`tclCapable, uid, acf
      ensures var out := Select(1, old(uid[..]), old(uidLen), old(acf[..]), replies);
              Outcome(ret, state, uid[..], uidLen, selects) == out
      ensures ret == 0 ==> 1 <= |selects| <= |replies| && Capable(replies[|selects| - 1]) == tclCapable
      ensures ret != 0 ==> tclCapable == old(tclCapable)
    {
      ghost var total := Select(1, uid[..], uidLen, acf[..], replies);
      var level, left, up := 1, replies, true;
      ret, selects := EIO, [];
      assert [] + total.selects == total.selects;
      assert Leads(level, uid[..], uidLen, acf[..], left, selects, total);
      hide OneLevel;
      hide Select;
      while up
        invariant 1 <= level <= 3 && Fits(left)
        invariant if up || ret != 0 then tclCapable == old(tclCapable)
                  else 1 <= |selects| <= |replies| && Capable(replies[|selects| - 1]) == tclCapable
        invariant up ==> |selects| <= |replies| && left == replies[|selects|..]
        invariant if up then state == AnticolRunning && Leads(level, uid[..], uidLen, acf[..], left, selects, total)
                  else total == Outcome(ret, state, uid[..], uidLen, selects)
        decreases up, 3 - level
      {
        ghost var u, n, f := uid[..], uidLen, acf[..];
        LeadsUp(level, u, n, f, left, selects, total);
        if |left| == 0 {
          ret, up := EIO, false;
        } else {
          assert left[0] in left;
          var sent;
          up, ret, sent := DoLevel(acf, level, left[0]);
          selects := selects + sent;
          if up {
            level, left := level + 1, left[1..];
          }
        }
      }
    }

    /** Selects the one card in the field; `anticol` says whether its ATQA announces bit frame
        anticollision, `replies` what it says at each cascade level. `selects` are the frames sent. */
    method Anticol(anticol: bool, replies: seq<LevelReply>) returns (ret: int, selects: seq<Bytes>)
      requires uid.Length == 10 && Fits(replies)
      modifies this`state, this`uidLen, this`tclCapable, uid
      ensures !anticol ==> ret == -1 && state == NoBitframe && selects == []
      ensures anticol ==>
                Outcome(ret, state, uid[..], uidLen, selects)
                == Select(1, seq(10, _ => 0), old(uidLen), [0, 0, 0, 0, 0], replies)
      ensures tclCapable == (if ret == 0 && 1 <= |selects| <= |replies| then Capable(replies[|selects| - 1]) else old(tclCapable))
    {
      forall i | 0 <= i < 10 {
        uid[i] := 0;
      }
      ret, selects := -1, [];
      if !anticol {
        state := NoBitframe;
      } else {
        state := AnticolRunning;
        var acf := new bv8[5](_ => 0);
        assert uid[..] == seq(10, _ => 0) && acf[..] == [0, 0, 0, 0, 0];
        ret, selects := Climb(acf, replies);
      }
    }
  }

  /** Having sent `done`, the selection from `level` on ends as `total` says. */
  ghost predicate Leads(level: nat, uid: Bytes, uidLen: nat, frame: Bytes, replies: seq<LevelReply>, done: seq<Bytes>, total: Outcome)
    requires 1 <= level <= 3 && |uid| == 10 && |frame| == 5 && Fits(replies)
  {
    var out := Select(level, uid, uidLen, frame, replies);
    total == out.(selects := done + out.selects)
  }

  lemma LeadsUp(level: nat, uid: Bytes, uidLen: nat, frame: Bytes, replies: seq<LevelReply>, done: seq<Bytes>, total: Outcome)
    requires 1 <= level <= 3 && |uid| == 10 && |frame| == 5 && Fits(replies)
    requires Leads(level, uid, uidLen, frame, replies, done, total)
    ensures replies == [] ==> total == Outcome(EIO, AnticolRunning, uid, uidLen, done)
    ensures replies != [] ==>
              assert replies[0] in replies;
              var s := OneLevel(level, uid, uidLen, frame, replies[0]);
              if s.Up? then Leads(level + 1, s.uid, uidLen, s.frame, replies[1..], done + s.sent, total)
              else total == Outcome(s.ret, s.state, s.uid, s.uidLen, done + s.sent)
  {
    hide OneLevel;
    if replies != [] {
      assert replies[0] in replies;
      var s := OneLevel(level, uid, uidLen, frame, replies[0]);
      if s.Up? {
        var rest := Select(level + 1, s.uid, uidLen, s.frame, replies[1..]);
        assert done + (s.sent + rest.selects) == (done + s.sent) + rest.selects;
      }
    } else {
      assert done + [] == done;
    }
  }
}
