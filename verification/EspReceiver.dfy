/**
 The firmware's receiving side: one byte buffer, one state, shared by the three start-up
 readers (ssid, password, interface information) and by the data path `uart2wifi`.

 The device is part of the object: `rx` holds the bytes sent to the firmware and not yet read,
 and `polls` the successive readings of the receive FIFO's byte count. Whatever `polls` holds,
 a reading is at most 128 and at most the bytes there are; after the last entry every
 reading is zero. An arbitrary `polls` is therefore an arbitrary chunking of the input.
 */
module EspReceiver {
  import opened Framing
  import opened EspAsWritten

  const RECV_BUFFER_LEN := MAX_FRAME_LEN + UART_FIFO_LEN

  /** How a state of the `restart` loop ends: go round again, hand a frame over, or return. */
  datatype Flow = Restart | Ready | Idle

  /** The bytes so far are, in order: whole accepted frames and skipped runs in which the
      split byte is last or absent, then the bytes `left`, buffered or still unread. */
  ghost predicate Accounted(g: Grammar, total: bytes, log: seq<Segment>, output: seq<bytes>, left: bytes) {
    total == Join(log) + left && SegmentsOk(g, log) && (g.Data? ==> Payloads(log) == output)
  }

  /** The packets output so far, and those still in `left`, are the packets of `total`. */
  ghost predicate Refines(total: bytes, output: seq<bytes>, synced: bool, left: bytes) {
    Parse(true, total) == Prepend(output, Parse(synced, left))
  }

  /** Disposing of a frame or a skipped run at the front keeps the accounting. */
  lemma Dispose(g: Grammar, total: bytes, log: seq<Segment>, output: seq<bytes>, left: bytes,
                x: Segment, after: bytes)
    requires Accounted(g, total, log, output, left)
    requires left == Raw(x) + after && SegmentOk(g, x)
    ensures x.Skipped? ==> Accounted(g, total, log + [x], output, after)
    ensures x.Frame? ==> Accounted(g, total, log + [x], output + [x.raw[2..|x.raw| - 1]], after)
  {
    hide SegmentOk, Join, Payloads;
    JoinSnoc(log, x);
    assert Join(log) + left == Join(log) + Raw(x) + after;
    if x.Frame? {
      FrameLongEnough(g, x);
    }
  }

  lemma SkippedOk(g: Grammar, run: bytes)
    requires run != [] && SplitOf(g) !in run[..|run| - 1]
    ensures SegmentOk(g, Skipped(run))
  {
  }

  /** Skipping through the first split byte of the buffer. */
  lemma SkipHit(g: Grammar, total: bytes, log: seq<Segment>, output: seq<bytes>, buf: bytes, rx: bytes, skip: nat)
    requires 0 < skip <= |buf| && buf[skip - 1] == SplitOf(g) && SplitOf(g) !in buf[..skip - 1]
    requires Accounted(g, total, log, output, buf + rx)
    ensures Accounted(g, total, log + [Skipped(buf[..skip])], output, buf[skip..] + rx)
    ensures Next(g, false, buf + rx) == Next(g, true, buf[skip..] + rx)
    ensures g.Data? && Refines(total, output, false, buf + rx) ==> Refines(total, output, true, buf[skip..] + rx)
  {
    hide Next, Parse, Accounted, Refines, SegmentOk;
    assert buf + rx == buf[..skip - 1] + [SplitOf(g)] + (buf[skip..] + rx);
    NextLost(g, buf[..skip - 1], buf[skip..] + rx);
    RefinesByNext(g, total, output, false, buf + rx, true, buf[skip..] + rx);
    assert buf[..skip][..skip - 1] == buf[..skip - 1];
    SkippedOk(g, buf[..skip]);
    assert buf + rx == buf[..skip] + (buf[skip..] + rx);
    Dispose(g, total, log, output, buf + rx, Skipped(buf[..skip]), buf[skip..] + rx);
  }

  /** Dropping a buffer without a split byte. */
  lemma SkipMiss(g: Grammar, total: bytes, log: seq<Segment>, output: seq<bytes>, buf: bytes, rx: bytes)
    requires buf != [] && SplitOf(g) !in buf
    requires Accounted(g, total, log, output, buf + rx)
    ensures Accounted(g, total, log + [Skipped(buf)], output, rx)
    ensures Next(g, false, buf + rx) == Next(g, false, rx)
    ensures g.Data? && Refines(total, output, false, buf + rx) ==> Refines(total, output, false, rx)
  {
    hide Next, Parse, Accounted, Refines, SegmentOk;
    NextLost(g, buf, rx);
    RefinesByNext(g, total, output, false, buf + rx, false, rx);
    SkippedOk(g, buf);
    Dispose(g, total, log, output, buf + rx, Skipped(buf), rx);
  }

  lemma FrameLongEnough(g: Grammar, x: Segment)
    requires SegmentOk(g, x) && x.Frame?
    ensures |x.raw| >= 3
  {
  }

  class Receiver {
    var status: Status
    var uartRecvLen: int
    var uartDataLen: int
    const uartRecvBuffer: array<byte>
    var sendPbuf: Option<bytes>

    var rx: bytes
    var polls: seq<nat>
    var output: seq<bytes>  // packets the network accepted in the data phase

    ghost var total: bytes  // every byte of the current phase, read or not
    ghost var log: seq<Segment>  // how the bytes that left the buffer were disposed of

    ghost predicate Synced()
      reads this
    {
      !status.STATUS_SPLIT?
    }

    ghost predicate InBounds()
      reads this
    {
      uartRecvBuffer.Length == RECV_BUFFER_LEN && 0 <= uartRecvLen < RECV_BUFFER_LEN
    }

    ghost function Buf(): bytes
      requires InBounds()
      reads this, uartRecvBuffer
    {
      uartRecvBuffer[..uartRecvLen]
    }

    /** Buffer bound, meaning of the state, byte accounting, and, in the data phase, the
        refinement of the reference decoder. */
    ghost predicate Valid(g: Grammar)
      reads this, uartRecvBuffer
    {
      && InBounds()
      && (status.STATUS_DATA? ==> uartRecvLen >= 2 && uartDataLen == I16(Buf()) && LengthOk(g, uartDataLen))
      && (sendPbuf.Some? ==> g.Data? && status.STATUS_DATA? && Accepted(g, Buf())
                             && sendPbuf.value == Buf()[2..2 + uartDataLen])
      && Accounted(g, total, log, output, Buf() + rx)
      && (if g.Data? then Refines(total, output, Synced(), Buf() + rx) else output == [])
    }

    constructor ()
      ensures InBounds() && (forall g :: Valid(g)) && status == STATUS_LEN && Buf() == [] && fresh(uartRecvBuffer)
      ensures rx == [] && output == [] && total == [] && log == []
    {
      hide Next, Parse, Accounted, Refines;
      status, uartRecvLen, uartDataLen, sendPbuf := STATUS_LEN, 0, 0, None;
      uartRecvBuffer := new byte[RECV_BUFFER_LEN];
      rx, polls, output, total, log := [], [], [], [], [];
      new;
      assert Buf() + rx == [];
      forall g ensures Valid(g) {
        FreshPhase(g, []);
      }
    }

    /** With nothing read yet, the bytes may be meant for any reader. */
    lemma AnyPhase(g: Grammar)
      requires Valid(g) && status == STATUS_LEN && log == [] && output == []
      ensures forall h :: Valid(h)
    {
      hide Next, Parse, Refines;
      forall h ensures Valid(h) {
        assert total == Buf() + rx;
        FreshPhase(h, total);
      }
    }

    /** The other end puts `more` on the wire. */
    method Arrive(ghost g: Grammar, more: bytes)
      requires Valid(g)
      modifies this`rx, this`total
      ensures Valid(g)
      ensures rx == old(rx) + more && total == old(total) + more
    {
      hide Next, Parse, Join, SegmentsOk, Payloads;
      rx := rx + more;
      total := total + more;
      assert Buf() + rx == Buf() + old(rx) + more;
      if g.Data? {
        ParseCongruent(true, old(total), output, Synced(), Buf() + old(rx), more);
      }
    }

    /** Empties the receive FIFO into the buffer at `off`. */
    method Uart0RecvData(off: nat) returns (ret: nat)
      requires off + UART_FIFO_LEN <= uartRecvBuffer.Length
      modifies this`rx, this`polls, uartRecvBuffer
      ensures ret == Reading(old(polls), old(rx)) && rx == old(rx)[ret..]
      ensures old(polls) == [] ==> ret == 0
      ensures old(polls) != [] ==> ret <= old(polls[0]) && (ret == old(polls[0]) || ret == 128 || rx == [])
      ensures polls == if old(polls) == [] then [] else old(polls)[1..]
      ensures uartRecvBuffer[..off + ret] == old(uartRecvBuffer[..off]) + old(rx)[..ret]
      ensures old(Plenty(polls, rx)) ==> Plenty(polls, rx) && (ret == 0 ==> rx == [])
    {
      var count := Reading(polls, rx);
      polls := Later(polls);
      ghost var later := polls;
      ret := 0;
      while ret < count
        modifies this`rx, uartRecvBuffer
        invariant ret <= count && rx == old(rx)[ret..] && polls == later
        invariant uartRecvBuffer[..off + ret] == old(uartRecvBuffer[..off]) + old(rx)[..ret]
      {
        uartRecvBuffer[off + ret] := rx[0];
        rx := rx[1..];
        ret := ret + 1;
      }
      if old(Plenty(polls, rx)) {
        PlentyAfter(old(polls), old(rx));
      }
    }

    /** Drops the first `n` buffered bytes in place. */
    method DropFront(n: nat)
      requires InBounds() && n <= uartRecvLen
      modifies this`uartRecvLen, uartRecvBuffer
      ensures InBounds() && Buf() == old(Buf())[n..]
    {
      forall i | 0 <= i < uartRecvLen - n {
        uartRecvBuffer[i] := uartRecvBuffer[n + i];
      }
      uartRecvLen := uartRecvLen - n;
    }

    /** Where the `restart` loop stands. */
    ghost function Here(): Spot
      requires InBounds()
      reads this, uartRecvBuffer
    {
      Spot(status, Buf(), rx, polls)
    }

    /** The whole state, as the pure specification sees it. */
    ghost function State(): Esp
      requires InBounds()
      reads this, uartRecvBuffer
    {
      Esp(status, Buf(), rx, sendPbuf, output)
    }

    /** What the `restart` loop keeps: the meaning of the pending bytes. */
    twostate predicate Keeps(g: Grammar)
      requires InBounds() && old(InBounds())
      reads this, uartRecvBuffer
    {
      && Next(g, Synced(), Buf() + rx) == old(Next(g, Synced(), Buf() + rx))
      && |rx| + uartRecvLen <= old(|rx| + uartRecvLen) && |rx| <= old(|rx|) && |polls| <= old(|polls|)
      && (old(Plenty(polls, rx)) ==> Plenty(polls, rx))
    }

    /** Returning to the caller with no frame: none is complete in the buffer, and if the FIFO
        never read empty too early then there was nothing more to read or something was dropped. */
    twostate predicate Idles(g: Grammar)
      requires InBounds()
      reads this, uartRecvBuffer
    {
      && Next(g, Synced(), Buf()) == Need(Synced(), Buf())
      && (polls == [] || |polls| < old(|polls|) || |rx| + uartRecvLen < old(|rx| + uartRecvLen))
      && (old(Plenty(polls, rx)) ==> rx == [] || |rx| + uartRecvLen < old(|rx| + uartRecvLen))
    }

    /** The `restart` loop common to the four readers, which comes to exactly what `Looped` says: it runs
        until a complete frame that passes every test stands at the front of the buffer (`ready`), or
        until the FIFO reads empty or a resynchronisation has emptied the buffer. What the pending
        bytes mean never changes. */
    method Poll(g: Grammar) returns (ready: bool)
      requires Valid(g)
      modifies this`status, this`uartRecvLen, this`uartDataLen, this`rx, this`polls, this`log, uartRecvBuffer
      ensures Valid(g) && old(Looped(g, Here())) == Polled(ready, Here())
      ensures Keeps(g)
      ensures ready ==> status.STATUS_DATA? && Accepted(g, Buf())
      ensures !ready ==> Idles(g)
    {
      hide Next, Parse, Accounted, Refines, Accepted, Plenty, Looped;
      LoopedKeeps(g, Here());
      ready := RestartLoop(g);
    }

    method RestartLoop(g: Grammar) returns (ready: bool)
      requires Valid(g)
      modifies this`status, this`uartRecvLen, this`uartDataLen, this`rx, this`polls, this`log, uartRecvBuffer
      ensures Valid(g) && old(Looped(g, Here())) == Polled(ready, Here())
    {
      hide Next, Parse, Accounted, Refines, Accepted, Looped, LengthOk, I16;
      ghost var start := Here();
      var flow := Restart;
      while flow == Restart
        invariant Valid(g)
        invariant if flow == Restart then Looped(g, start) == Looped(g, Here())
                  else Looped(g, start) == Polled(flow == Ready, Here())
        decreases flow == Restart, |rx| + uartRecvLen, |rx|, Rank(status)
      {
        match status
        case STATUS_LEN => flow := OnLen(g);
        case STATUS_DATA => flow := OnData(g);
        case STATUS_SPLIT => flow := OnSplit(g);
      }
      ready := flow == Ready;
    }

    /** One turn of the loop from `x` has led here. */
    ghost predicate Turned(g: Grammar, x: Spot, flow: Flow)
      requires InBounds()
      reads this, uartRecvBuffer
    {
      if flow == Restart then Looped(g, x) == Looped(g, Here()) && Onward(x, Here())
      else Looped(g, x) == Polled(flow == Ready, Here())
    }

    method OnLen(g: Grammar) returns (flow: Flow)
      requires Valid(g) && status == STATUS_LEN
      modifies this`status, this`uartRecvLen, this`uartDataLen, this`rx, this`polls, uartRecvBuffer
      ensures Valid(g) && Turned(g, old(Here()), flow)
    {
      hide Next, Parse, Accounted, Refines, Accepted, Looped;
      TurnOnce(g, Here());
      if uartRecvLen < 2 {
        var ret := Refill(g);
        return if ret <= 0 then Idle else Restart;
      }
      uartDataLen := I16(uartRecvBuffer[..2]);
      if !LengthOk(g, uartDataLen) {
        BecomeLost(g);
        return Restart;
      }
      status := STATUS_DATA;
      return Restart;
    }

    method OnData(g: Grammar) returns (flow: Flow)
      requires Valid(g) && status == STATUS_DATA
      modifies this`status, this`uartRecvLen, this`rx, this`polls, uartRecvBuffer
      ensures Valid(g) && Turned(g, old(Here()), flow)
    {
      hide Next, Parse, Accounted, Refines, Looped, BodyOk;
      TurnOnce(g, Here());
      if uartRecvLen < uartDataLen + 3 {
        var ret := Refill(g);
        return if ret <= 0 then Idle else Restart;
      }
      if !BodyOk(g, uartRecvBuffer[..uartRecvLen]) {
        BecomeLost(g);
        return Restart;
      }
      return Ready;
    }

    method OnSplit(g: Grammar) returns (flow: Flow)
      requires Valid(g) && status == STATUS_SPLIT
      modifies this`status, this`uartRecvLen, this`rx, this`polls, this`log, uartRecvBuffer
      ensures Valid(g) && Turned(g, old(Here()), flow)
    {
      hide Next, Parse, Accounted, Refines, Accepted, Looped;
      TurnOnce(g, Here());
      if uartRecvLen == 0 {
        var ret := Refill(g);
        if ret <= 0 {
          return Idle;
        }
        TurnOnce(g, Here());
      }
      var found := Resync(g);
      return if found then Restart else Idle;
    }

    /** The payload of the frame at the front. */
    method CopyPayload(ghost g: Grammar) returns (p: bytes)
      requires Valid(g) && status.STATUS_DATA? && uartRecvLen >= uartDataLen + 3
      ensures p == Buf()[2..2 + uartDataLen]
    {
      hide Next, Parse, Accounted, Refines, Accepted;
      p := uartRecvBuffer[2..2 + uartDataLen];
    }

    /** Removes the frame at the front; in the data phase the network has just accepted it. */
    method HandOver(g: Grammar, p: bytes)
      requires Valid(g) && status.STATUS_DATA? && Accepted(g, Buf()) && p == Buf()[2..2 + uartDataLen]
      modifies this`status, this`uartRecvLen, this`log, this`sendPbuf, this`output, uartRecvBuffer
      ensures InBounds() && status == STATUS_LEN && sendPbuf.None?
      ensures old(Next(g, true, Buf() + rx)) == Got(p, Buf() + rx) && Buf() == old(Buf())[old(uartDataLen) + 3..]
      ensures output == if g.Data? then old(output) + [p] else old(output)
      ensures g.Data? ==> Valid(g)
    {
      hide Next, Parse, Accounted, Refines;
      TakeFrame(g, total, log, output, Buf(), rx);
      if g.Data? {
        output := output + [p];
      }
      sendPbuf := None;
      log := log + [Frame(Buf()[..uartDataLen + 3])];
      DropFront(uartDataLen + 3);
      status := STATUS_LEN;
    }

    /** The network was given exactly the next packet of the pending bytes, which are now those behind it. */
    twostate predicate SentNext()
      requires InBounds() && old(InBounds())
      reads this, uartRecvBuffer
    {
      && output != [] && output[..|output| - 1] == old(output)
      && old(Next(Data, Synced(), Buf() + rx)) == Got(output[|output| - 1], Buf() + rx)
    }

    /** One call of `uart2wifi`, which comes to exactly what `Called` says. A refused allocation or a refused
        output leaves the frame in the buffer, and the packet built from it stays in `sendPbuf` for the
        next call, which then needs no allocation. */
    method Uart2Wifi(allocOk: bool, outputOk: bool) returns (sent: bool)
      requires Valid(Data)
      modifies this`status, this`uartRecvLen, this`uartDataLen, this`rx, this`polls, this`log,
               this`sendPbuf, this`output, uartRecvBuffer
      ensures Valid(Data)
      ensures State() == old(Called(State(), polls, allocOk, outputOk))
      ensures old(sendPbuf).Some? ==> sent == outputOk && (!sent ==> sendPbuf == old(sendPbuf))
      ensures !sent && allocOk && status.STATUS_DATA? && Accepted(Data, Buf()) ==>
                !outputOk && sendPbuf == Some(FrontPayload(Data, Buf()))
      ensures if sent then SentNext() && status == STATUS_LEN else output == old(output) && Keeps(Data)
      ensures !sent && allocOk && outputOk ==> Idles(Data)
      ensures !sent && allocOk && outputOk && rx == [] ==> output == Parse(true, total).packets
    {
      hide Next, Parse, Accounted, Refines, Plenty, Accepted, Looped, PassedOn;
      if sendPbuf.Some? {
        FrontReady(Here());
      }
      var ready := Poll(Data);
      if !ready {
        NextOfWhole();
        return false;
      }
      sent := PassOn(allocOk, outputOk);
    }

    /** With an accepted frame in front: builds the packet unless it was built, and gives it to the network. */
    method PassOn(allocOk: bool, outputOk: bool) returns (sent: bool)
      requires Valid(Data) && status == STATUS_DATA && Accepted(Data, Buf())
      modifies this`status, this`uartRecvLen, this`log, this`sendPbuf, this`output, uartRecvBuffer
      ensures Valid(Data) && State() == old(PassedOn(State(), allocOk, outputOk))
      ensures old(sendPbuf).Some? ==> sent == outputOk && (!sent ==> sendPbuf == old(sendPbuf))
      ensures !sent && allocOk ==> !outputOk && sendPbuf == Some(FrontPayload(Data, Buf()))
      ensures if sent then SentNext() && status == STATUS_LEN
              else Here() == old(Here()) && output == old(output) && !(allocOk && outputOk)
    {
      hide Next, Parse, Accounted, Refines, Accepted;
      AcceptedIsWhole();
      if sendPbuf.None? {
        if !allocOk {
          return false;
        }
        var p := CopyPayload(Data);
        sendPbuf := Some(p);
      }
      if !outputOk {
        return false;
      }
      HandOver(Data, sendPbuf.value);
      return true;
    }

    /** With a packet built, its frame is in front, and nothing is read. */
    lemma FrontReady(x: Spot)
      requires x.status == STATUS_DATA && Accepted(Data, x.buf)
      ensures Looped(Data, x) == Polled(true, x)
    {
      TurnOnce(Data, x);
    }

    lemma AcceptedIsWhole()
      requires Valid(Data) && status.STATUS_DATA? && Accepted(Data, Buf())
      ensures uartRecvLen >= uartDataLen + 3
    {
      hide Next, Parse, Accounted, Refines;
    }

    lemma NextOfWhole()
      requires Valid(Data) && Next(Data, Synced(), Buf()).Need?
      ensures status.STATUS_DATA? ==> !Accepted(Data, Buf())
      ensures rx == [] ==> output == Parse(true, total).packets
    {
      hide Next, Parse, Accounted;
      assert Buf() + [] == Buf();
      if status.STATUS_DATA? && Accepted(Data, Buf()) {
        NextAccepted(Data, Buf(), []);
        assert false;
      }
      if rx == [] {
        assert Buf() + rx == Buf();
        NothingPending(total, output, Synced(), Buf());
      }
    }

    /** A start-up reader. It spins until its frame has come (`Some`); `None` says the readings in
        `polls` ran out while it was still spinning. */
    method RecvCommand(g: Grammar) returns (r: Option<bytes>)
      requires Valid(g) && !g.Data?
      modifies this`status, this`uartRecvLen, this`uartDataLen, this`rx, this`polls, this`log,
               this`total, this`sendPbuf, this`output, uartRecvBuffer
      ensures InBounds() && output == [] && (r.Some? ==> status == STATUS_LEN && forall h :: Valid(h))
      ensures var y := old(Spin(g, Here()));
              && r.Some? == y.ready && rx == y.spot.rx && polls == y.spot.polls
              && (if y.ready then r.value == FrontPayload(g, y.spot.buf) && Buf() == BehindFront(g, y.spot.buf)
                  else Here() == y.spot)
      ensures r.Some? ==> total == Buf() + rx && old(Next(g, Synced(), Buf() + rx)) == Got(r.value, Buf() + rx)
      ensures r.None? ==> Valid(g) && Next(g, Synced(), Buf() + rx) == old(Next(g, Synced(), Buf() + rx))
      ensures r.None? ==> polls == [] && total == old(total) && Next(g, Synced(), Buf()).Need?
      ensures old(Plenty(polls, rx)) ==> Plenty(polls, rx)
    {
      hide Next, Parse, Accounted, Refines, Plenty, BodyOk, Spin;
      ghost var start := Here();
      SpinKeeps(g, start);
      var ready := SpinUntil(g);
      if !ready {
        return None;
      }
      var p := CopyPayload(g);
      HandOver(g, p);
      total, log := Buf() + rx, [];
      forall h ensures Valid(h) {
        FreshPhase(h, total);
      }
      return Some(p);
    }

    /** The spinning of a start-up reader. */
    method SpinUntil(g: Grammar) returns (ready: bool)
      requires Valid(g)
      modifies this`status, this`uartRecvLen, this`uartDataLen, this`rx, this`polls, this`log, uartRecvBuffer
      ensures Valid(g) && old(Spin(g, Here())) == Polled(ready, Here())
    {
      hide Next, Parse, Accounted, Refines, Plenty, Looped, Accepted;
      ghost var start := Here();
      ready := false;
      while !ready
        invariant Valid(g)
        invariant if ready then Spin(g, start) == Polled(true, Here()) else Spin(g, start) == Spin(g, Here())
        decreases !ready, |rx| + uartRecvLen, |polls|
      {
        ready := Poll(g);
        if !ready && polls == [] {
          return;
        }
      }
    }

    /** Calling `uart2wifi` again and again, with a network that accepts and a FIFO that is
        never read too early, delivers everything there is, whatever state it starts from. */
    method Drain()
      requires Valid(Data)
      modifies this`status, this`uartRecvLen, this`uartDataLen, this`rx, this`polls, this`log,
               this`sendPbuf, this`output, uartRecvBuffer
      ensures Valid(Data) && rx == [] && output == Parse(true, total).packets
    {
      hide Next, Parse, Accounted, Refines;
      var sent := true;
      while sent || rx != []
        invariant Valid(Data)
        invariant !sent && rx == [] ==> output == Parse(true, total).packets
        decreases |rx| + uartRecvLen, |rx|, sent
      {
        polls := seq(|rx|, _ => UART_FIFO_LEN);
        sent := Uart2Wifi(true, true);
      }
    }

    /** Reads whatever the FIFO holds behind the buffered bytes. */
    method Refill(ghost g: Grammar) returns (ret: nat)
      requires Valid(g) && uartRecvLen + UART_FIFO_LEN < RECV_BUFFER_LEN && sendPbuf.None?
      modifies this`uartRecvLen, this`rx, this`polls, uartRecvBuffer
      ensures Valid(g) && Here() == Refilled(old(Here())) && ret == Reading(old(polls), old(rx))
    {
      hide Next, Parse, Accounted, Refines, LengthOk, BodyOk, I16;
      ret := Uart0RecvData(uartRecvLen);
      uartRecvLen := uartRecvLen + ret;
      assert Buf() == old(Buf()) + old(rx)[..ret];
      Moved(old(Buf()), old(rx), ret);
    }

    /** Leaves a frame boundary whose length or body is wrong. */
    method BecomeLost(g: Grammar)
      requires Valid(g) && Synced() && uartRecvLen >= 2 && sendPbuf.None?
      requires LengthOk(g, I16(Buf())) ==> uartRecvLen >= I16(Buf()) + 3 && !BodyOk(g, Buf())
      modifies this`status
      ensures Valid(g) && status == STATUS_SPLIT
    {
      hide Next, Parse, Accounted, Refines, SegmentOk, Join;
      if LengthOk(g, I16(Buf())) {
        BodyOkAppend(g, Buf(), rx);
      }
      NextBad(g, Buf() + rx);
      RefinesByNext(g, total, output, true, Buf() + rx, false, Buf() + rx);
      status := STATUS_SPLIT;
    }

    /** Skips through the first split byte in the buffer, or drops the whole buffer. */
    method Resync(g: Grammar) returns (found: bool)
      requires Valid(g) && status == STATUS_SPLIT && uartRecvLen > 0
      modifies this`status, this`uartRecvLen, this`log, uartRecvBuffer
      ensures Valid(g) && Here() == Judged(g, old(Here())) && found == (SplitOf(g) in old(Buf()))
      ensures status == if found then STATUS_LEN else STATUS_SPLIT
      ensures Buf() == if found then old(Buf())[Find(old(Buf()), SplitOf(g)) + 1..] else []
    {
      hide Next, Parse, Accounted, Refines, Accepted, LengthOk, I16, Find, SplitOf;
      ghost var buf := Buf();
      var skip := 0;
      while skip < uartRecvLen
        invariant 0 <= skip <= uartRecvLen && SplitOf(g) !in buf[..skip]
      {
        skip := skip + 1;
        if uartRecvBuffer[skip - 1] == SplitOf(g) {
          SkipHit(g, total, log, output, buf, rx, skip);
          log := log + [Skipped(buf[..skip])];
          FindIs(buf, SplitOf(g), skip - 1);
          DropFront(skip);
          status := STATUS_LEN;
          return true;
        }
      }
      SkipMiss(g, total, log, output, buf, rx);
      FindIs(buf, SplitOf(g), skip);
      log := log + [Skipped(buf)];
      uartRecvLen := 0;
      assert Buf() + rx == rx;
      return false;
    }
  }

  /** Bytes of the line read behind the buffered ones. */
  lemma Moved(buf: bytes, rx: bytes, n: nat)
    requires n <= |rx|
    ensures buf + rx[..n] + rx[n..] == buf + rx
    ensures |buf| >= 2 ==> I16(buf + rx[..n]) == I16(buf)
  {
    assert rx == rx[..n] + rx[n..];
  }

  /** Handing over the frame at the front. */
  lemma TakeFrame(g: Grammar, total: bytes, log: seq<Segment>, output: seq<bytes>, buf: bytes, rx: bytes)
    requires Accepted(g, buf) && Accounted(g, total, log, output, buf + rx)
    ensures var n, p := I16(buf), buf[2..2 + I16(buf)];
            && Accounted(g, total, log + [Frame(buf[..n + 3])], output + [p], buf[n + 3..] + rx)
            && Next(g, true, buf + rx) == Got(p, buf[n + 3..] + rx)
            && (g.Data? && Refines(total, output, true, buf + rx)
                ==> Refines(total, output + [p], true, buf[n + 3..] + rx))
  {
    hide Next, Accounted;
    var n := I16(buf);
    NextAccepted(g, buf, rx);
    var raw := buf[..n + 3];
    assert buf == raw + buf[n + 3..];
    BodyOkAppend(g, raw, buf[n + 3..]);
    assert buf + rx == raw + (buf[n + 3..] + rx);
    Dispose(g, total, log, output, buf + rx, Frame(raw), buf[n + 3..] + rx);
    assert raw[2..|raw| - 1] == buf[2..2 + n];
    if g.Data? {
      PrependTwice(output, [buf[2..2 + n]], Parse(true, buf[n + 3..] + rx));
    }
  }

  lemma NothingPending(total: bytes, output: seq<bytes>, synced: bool, left: bytes)
    requires Refines(total, output, synced, left) && Next(Data, synced, left).Need?
    ensures Parse(true, total).packets == output
  {
    hide Next;
  }

  /** What has been output is a part of what all the bytes mean. */
  lemma OutputWithin(total: bytes, output: seq<bytes>, synced: bool, left: bytes)
    requires Refines(total, output, synced, left)
    ensures output <= Parse(true, total).packets
  {
    hide Parse;
  }

  lemma FreshPhase(g: Grammar, total: bytes)
    ensures Accounted(g, total, [], [], total) && Refines(total, [], true, total)
  {
    hide Next, Parse;
    assert Join([]) + total == total;
  }

  lemma RefinesByNext(g: Grammar, total: bytes, output: seq<bytes>, m: bool, a: bytes, n: bool, b: bytes)
    requires Next(g, m, a) == Next(g, n, b)
    ensures g.Data? && Refines(total, output, m, a) ==> Refines(total, output, n, b)
  {
    hide Next, Parse;
    if g.Data? {
      ParseByNext(m, a, n, b);
    }
  }
}
