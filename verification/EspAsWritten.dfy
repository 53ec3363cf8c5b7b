/**
 The firmware's `restart` loop as a pure function of its state, the bytes on the line and the readings of
 the receive FIFO's byte count, for the three start-up readers and for `uart2wifi`.
 */
module EspAsWritten {
  import opened Framing

  /** One reading of the FIFO's byte count: what is next in `polls`, but no more than the FIFO holds and the
      line has brought. */
  function Reading(polls: seq<nat>, rx: bytes): (n: nat)
    ensures n <= |rx| && n <= UART_FIFO_LEN
    ensures polls == [] ==> n == 0
    ensures polls != [] && polls[0] <= |rx| && polls[0] <= UART_FIFO_LEN ==> n == polls[0]
    ensures polls != [] && polls[0] >= |rx| && |rx| <= UART_FIFO_LEN ==> n == |rx|
    ensures polls != [] && polls[0] >= UART_FIFO_LEN && |rx| >= UART_FIFO_LEN ==> n == UART_FIFO_LEN
  {
    var count := if polls == [] then 0 else polls[0];
    var most := if |rx| < UART_FIFO_LEN then |rx| else UART_FIFO_LEN;
    if count < most then count else most
  }

  function Later(polls: seq<nat>): seq<nat> {
    if polls == [] then [] else polls[1..]
  }

  /** The FIFO never reads empty while bytes are waiting. */
  ghost predicate Plenty(polls: seq<nat>, rx: bytes) {
    |polls| >= |rx| && forall c <- polls :: c > 0
  }

  lemma PlentyAfter(polls: seq<nat>, rx: bytes)
    requires Plenty(polls, rx)
    ensures Plenty(Later(polls), rx[Reading(polls, rx)..])
    ensures Reading(polls, rx) == 0 ==> rx == []
  {
    assert polls != [] ==> polls[0] in polls;
    assert polls != [] ==> forall c <- polls[1..] :: c in polls;
  }

  // ---------------------------------------------------------------------------
  // One run of the loop
  // ---------------------------------------------------------------------------

  /** A point of the loop: the state, the bytes buffered, those on the line, and the readings to come. */
  datatype Spot = Spot(status: Status, buf: bytes, rx: bytes, polls: seq<nat>)

  /** How a run ends: with a frame in front that passes every test, or waiting for more. */
  datatype Polled = Polled(ready: bool, spot: Spot)

  function Pending(x: Spot): nat {
    |x.rx| + |x.buf|
  }

  /** Reads what the FIFO holds behind the buffered bytes. */
  function Refilled(x: Spot): Spot {
    var n := Reading(x.polls, x.rx);
    Spot(x.status, x.buf + x.rx[..n], x.rx[n..], Later(x.polls))
  }

  /** The buffer is too short for what the state wants to see. */
  predicate Short(g: Grammar, x: Spot) {
    match x.status
    case STATUS_LEN => |x.buf| < 2
    case STATUS_DATA => |x.buf| < 2 || !LengthOk(g, I16(x.buf)) || |x.buf| < I16(x.buf) + 3
    case STATUS_SPLIT => x.buf == []
  }

  /** What becomes of a buffer that is not too short. */
  function Judged(g: Grammar, x: Spot): Spot
    requires !Short(g, x)
  {
    match x.status
    case STATUS_LEN => x.(status := if LengthOk(g, I16(x.buf)) then STATUS_DATA else STATUS_SPLIT)
    case STATUS_DATA => x.(status := STATUS_SPLIT)
    case STATUS_SPLIT =>
      var k := Find(x.buf, SplitOf(g));
      if k < |x.buf| then x.(status := STATUS_LEN, buf := x.buf[k + 1..]) else x.(buf := [])
  }

  function Looped(g: Grammar, x: Spot): (r: Polled)
    ensures Pending(r.spot) <= Pending(x) && |r.spot.polls| <= |x.polls|
    ensures r.ready || r.spot.polls == [] || |r.spot.polls| < |x.polls| || Pending(r.spot) < Pending(x)
    ensures r.ready ==> r.spot.status == STATUS_DATA && Accepted(g, r.spot.buf)
    decreases Pending(x), |x.rx|, Rank(x.status)
  {
    if Short(g, x) then
      var y := Refilled(x);
      if Reading(x.polls, x.rx) == 0 then Polled(false, y) else Looped(g, y)
    else if x.status == STATUS_DATA && BodyOk(g, x.buf) then
      Polled(true, x)
    else
      var y := Judged(g, x);
      if y.status == STATUS_SPLIT && y.buf == [] then Polled(false, y) else Looped(g, y)
  }

  /** Going round the loop: input is consumed, or moved, or the state moves on. */
  predicate Onward(x: Spot, y: Spot) {
    || Pending(y) < Pending(x)
    || (Pending(y) == Pending(x) && |y.rx| < |x.rx|)
    || (Pending(y) == Pending(x) && |y.rx| == |x.rx| && Rank(y.status) < Rank(x.status))
  }

  /** One turn of the loop. */
  lemma TurnOnce(g: Grammar, x: Spot)
    ensures if Short(g, x) then
              var y := Refilled(x);
              if Reading(x.polls, x.rx) == 0 then Looped(g, x) == Polled(false, y)
              else Looped(g, x) == Looped(g, y) && Onward(x, y)
            else if x.status == STATUS_DATA && BodyOk(g, x.buf) then Looped(g, x) == Polled(true, x)
            else
              var y := Judged(g, x);
              if y.status == STATUS_SPLIT && y.buf == [] then Looped(g, x) == Polled(false, y)
              else Looped(g, x) == Looped(g, y) && Onward(x, y)
  {
  }

  predicate Synced(x: Spot) {
    x.status != STATUS_SPLIT
  }

  /** In STATUS_DATA the length word has been read and is a legal one. */
  predicate Proper(g: Grammar, x: Spot) {
    x.status == STATUS_DATA ==> |x.buf| >= 2 && LengthOk(g, I16(x.buf))
  }

  lemma RefilledKeeps(g: Grammar, x: Spot)
    requires Proper(g, x)
    ensures var y := Refilled(x); y.buf + y.rx == x.buf + x.rx && Proper(g, y)
    ensures Plenty(x.polls, x.rx) ==> Plenty(Refilled(x).polls, Refilled(x).rx)
    ensures Plenty(x.polls, x.rx) && Reading(x.polls, x.rx) == 0 ==> x.rx == []
  {
    var n := Reading(x.polls, x.rx);
    assert x.rx == x.rx[..n] + x.rx[n..];
    if Plenty(x.polls, x.rx) {
      PlentyAfter(x.polls, x.rx);
    }
  }

  lemma JudgedKeeps(g: Grammar, x: Spot)
    requires Proper(g, x) && !Short(g, x) && !(x.status == STATUS_DATA && BodyOk(g, x.buf))
    ensures Proper(g, Judged(g, x))
    ensures var y := Judged(g, x); Next(g, Synced(y), y.buf + y.rx) == Next(g, Synced(x), x.buf + x.rx)
  {
    hide Next, BodyOk;
    if x.status == STATUS_SPLIT {
      var k := Find(x.buf, SplitOf(g));
      if k < |x.buf| {
        HitAt(g, x.buf, x.rx, k);
      } else {
        assert x.buf[..k] == x.buf;
        MissKeeps(g, x.buf, x.rx);
      }
    } else {
      I16Append(x.buf, x.rx);
      if LengthOk(g, I16(x.buf)) && x.status == STATUS_DATA {
        BodyOkAppend(g, x.buf, x.rx);
        NextBad(g, x.buf + x.rx);
      } else if !LengthOk(g, I16(x.buf)) {
        NextBad(g, x.buf + x.rx);
      }
    }
  }

  lemma I16Append(a: bytes, c: bytes)
    requires |a| >= 2
    ensures I16(a + c) == I16(a)
  {
  }

  lemma HitAt(g: Grammar, buf: bytes, rx: bytes, k: nat)
    requires k < |buf| && buf[k] == SplitOf(g) && SplitOf(g) !in buf[..k]
    ensures Next(g, false, buf + rx) == Next(g, true, buf[k + 1..] + rx)
  {
    hide Next, SplitOf;
    var a, c := buf[..k], buf[k + 1..];
    assert buf == a + [SplitOf(g)] + c;
    HitKeeps(g, a, c, rx);
  }

  lemma MissKeeps(g: Grammar, buf: bytes, rx: bytes)
    requires SplitOf(g) !in buf
    ensures Next(g, false, buf + rx) == Next(g, false, [] + rx)
  {
    hide Next, SplitOf;
    assert [] + rx == rx;
    NextLost(g, buf, rx);
  }

  lemma HitKeeps(g: Grammar, a: bytes, c: bytes, rx: bytes)
    requires SplitOf(g) !in a
    ensures Next(g, false, a + [SplitOf(g)] + c + rx) == Next(g, true, c + rx)
  {
    hide Next, SplitOf;
    assert a + [SplitOf(g)] + c + rx == a + [SplitOf(g)] + (c + rx);
    NextLost(g, a, c + rx);
  }

  /** What waiting means: no frame is complete in the buffer. */
  lemma ShortWaits(g: Grammar, x: Spot)
    requires Proper(g, x) && Short(g, x)
    ensures Next(g, Synced(x), x.buf) == Need(Synced(x), x.buf)
  {
    hide Next;
    if x.status == STATUS_SPLIT {
      NextLost(g, [], []);
    } else {
      NextShort(g, x.buf);
    }
  }

  /** A run keeps the meaning of the bytes buffered and on the line, and stops only with a frame or with none
      complete; if the FIFO never reads empty too early, then only when there is nothing more to
      read or something was dropped. */
  lemma {:induction false} LoopedKeeps(g: Grammar, x: Spot)
    requires Proper(g, x)
    ensures var y := Looped(g, x).spot;
            && Proper(g, y) && |y.rx| <= |x.rx|
            && Next(g, Synced(y), y.buf + y.rx) == Next(g, Synced(x), x.buf + x.rx)
            && (Plenty(x.polls, x.rx) ==> Plenty(y.polls, y.rx))
    ensures var r := Looped(g, x); var y := r.spot;
            !r.ready ==> && Next(g, Synced(y), y.buf) == Need(Synced(y), y.buf)
                         && (Plenty(x.polls, x.rx) ==> y.rx == [] || Pending(y) < Pending(x))
    decreases Pending(x), |x.rx|, Rank(x.status)
  {
    hide Next, BodyOk, Plenty, Looped, LengthOk, I16;
    TurnOnce(g, x);
    if Short(g, x) {
      var y := Refilled(x);
      RefilledKeeps(g, x);
      if Reading(x.polls, x.rx) == 0 {
        assert y.buf == x.buf && y.rx == x.rx;
        ShortWaits(g, y);
      } else {
        LoopedKeeps(g, y);
      }
    } else if !(x.status == STATUS_DATA && BodyOk(g, x.buf)) {
      var y := Judged(g, x);
      JudgedKeeps(g, x);
      if y.status == STATUS_SPLIT && y.buf == [] {
        ShortWaits(g, y);
      } else {
        LoopedKeeps(g, y);
      }
    }
  }

  /** The payload and what follows the frame in front. */
  function FrontPayload(g: Grammar, buf: bytes): bytes
    requires Accepted(g, buf)
  {
    buf[2..2 + I16(buf)]
  }

  function BehindFront(g: Grammar, buf: bytes): bytes
    requires Accepted(g, buf)
  {
    buf[I16(buf) + 3..]
  }

  /** A start-up reader: runs of the loop until one is ready, or the readings have run out. */
  function Spin(g: Grammar, x: Spot): (r: Polled)
    ensures r.ready ==> r.spot.status == STATUS_DATA && Accepted(g, r.spot.buf)
    ensures !r.ready ==> r.spot.polls == []
    decreases Pending(x), |x.polls|
  {
    var r := Looped(g, x);
    if r.ready || r.spot.polls == [] then r else Spin(g, r.spot)
  }

  /** A reader finds its frame exactly if it is there, whenever the FIFO never reads empty too early. */
  lemma {:induction false} SpinKeeps(g: Grammar, x: Spot)
    requires Proper(g, x)
    ensures var r := Spin(g, x); var y := r.spot;
            && Proper(g, y)
            && Next(g, Synced(y), y.buf + y.rx) == Next(g, Synced(x), x.buf + x.rx)
            && (Plenty(x.polls, x.rx) ==> Plenty(y.polls, y.rx))
            && (!r.ready ==> Next(g, Synced(y), y.buf).Need?)
            && (!r.ready && Plenty(x.polls, x.rx) ==> Next(g, Synced(x), x.buf + x.rx).Need?)
    decreases Pending(x), |x.polls|
  {
    hide Next, Looped, Plenty;
    LoopedKeeps(g, x);
    var r := Looped(g, x);
    if r.ready {
      return;
    }
    if r.spot.polls == [] {
      if Plenty(x.polls, x.rx) {
        assert r.spot.rx == [] by { NothingLeft(r.spot); }
        assert r.spot.buf + [] == r.spot.buf;
      }
    } else {
      SpinKeeps(g, r.spot);
    }
  }

  lemma NothingLeft(x: Spot)
    requires Plenty(x.polls, x.rx) && x.polls == []
    ensures x.rx == []
  {
  }

  // ---------------------------------------------------------------------------
  // One call of uart2wifi
  // ---------------------------------------------------------------------------

  /** The firmware's receiving side: state, buffer, line, the packet built but not yet accepted by the network,
      and the packets accepted. */
  datatype Esp = Esp(status: Status, buf: bytes, rx: bytes, pbuf: Option<bytes>, output: seq<bytes>)

  function At(s: Esp, polls: seq<nat>): Spot {
    Spot(s.status, s.buf, s.rx, polls)
  }

  /** With an accepted frame in front: the packet is built unless it was, and given to the network. */
  function PassedOn(s: Esp, allocOk: bool, outputOk: bool): Esp
    requires Accepted(Data, s.buf)
  {
    var pbuf := if s.pbuf.None? && allocOk then Some(FrontPayload(Data, s.buf)) else s.pbuf;
    if pbuf.None? || !outputOk then s.(pbuf := pbuf)
    else s.(status := STATUS_LEN, buf := BehindFront(Data, s.buf), pbuf := None, output := s.output + [pbuf.value])
  }

  function Called(s: Esp, polls: seq<nat>, allocOk: bool, outputOk: bool): Esp {
    var r := Looped(Data, At(s, polls));
    var t := s.(status := r.spot.status, buf := r.spot.buf, rx := r.spot.rx);
    if r.ready then PassedOn(t, allocOk, outputOk) else t
  }
}
