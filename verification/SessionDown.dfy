/**
 The firmware-to-driver half of a first session: the announcement, then the queue and the piecewise
 sender, on one wire into the driver's line discipline.
 */
module SessionDown {
  import opened Framing
  import opened PacketQueue
  import opened EspSender
  import opened HostAsWritten
  import opened HostReceiver
  import opened HostPort
  import opened NetifText
  import Downlink

  // ---------------------------------------------------------------------------
  // The state and its steps
  // ---------------------------------------------------------------------------

  /** The firmware's sender, whether it has announced itself, the wire, the driver's line discipline, and the
      packets the queue has taken. */
  datatype DownView = DownView(sending: Sending, announced: bool, wire: bytes, mode: Mode, accepted: seq<bytes>)

  const DownStart := DownView(Sending([], [], false), false, [], Listening(STATUS_LEN, []), [])

  function Announced(v: DownView, info: bytes): DownView {
    v.(announced := true, wire := info)
  }

  function Offered(v: DownView, p: bytes, elementOk: bool, dataOk: bool): DownView {
    if !Takeable(v.sending.queue, p, elementOk, dataOk) then v
    else v.(sending := v.sending.(queue := v.sending.queue + [p]), accepted := v.accepted + [p])
  }

  function Sent(v: DownView, cnt: byte): DownView {
    var s := Framed(v.sending);
    v.(sending := Remaining(s, cnt), wire := v.wire + Fed(s, cnt))
  }

  function Received(v: DownView, count: nat, allocs: seq<bool>): DownView {
    var r := Heard(v.mode, v.wire[..Min(count, |v.wire|)], allocs, ZeroTail());
    v.(wire := v.wire[r.ret..], mode := r.mode)
  }

  class Down {
    const queue: ThreadSafeQueue
    const sender: Sender
    const port: Port
    const addresses: bytes
    var announced: bool
    var wire: bytes  // written by the firmware, not yet processed by the driver
    var accepted: seq<bytes>  // packets the queue took
    ghost var seen: bytes  // bytes the driver's data receiver processed
    ghost var Repr: set<object>

    ghost predicate Valid()
      reads this, Repr
    {
      && this in Repr && queue in Repr && sender in Repr && sender.uartSendbuffer in Repr
      && port in Repr && port.host in Repr && port.netifInfo in Repr && port.netifInfo != sender.uartSendbuffer
      && (forall x <- queue.spine :: x in Repr)
      && (port.host.skb != null ==> port.host.skb in Repr && port.host.skb !in {sender.uartSendbuffer, port.netifInfo})
      && sender.queue == queue && sender.Holds(accepted) && port.InSession(addresses, sender.taken, seen, Coming())
      && (!announced ==> !port.netifValid && wire == [] && sender.taken == [])
    }

    ghost function State(): DownView
      requires Valid()
      reads this, Repr
    {
      DownView(sender.State(), announced, wire, port.State(), accepted)
    }

    /** Everything the firmware has begun to send and the driver has not processed. */
    ghost function Coming(): bytes
      requires sender.uartSendPtr <= |sender.frame|
      reads this, sender
    {
      var sent := wire + sender.frame[sender.uartSendPtr..];
      if announced then sent else NetifFrame(addresses) + sent
    }

    ghost predicate Drained()
      reads this, queue, sender
    {
      announced && queue.Contents() == [] && sender.uartSendLen == 0 && wire == []
    }

    constructor (addresses: bytes)
      requires |addresses| == 12
      ensures Valid() && fresh(Repr) && this.addresses == addresses && !announced && !port.netifValid
      ensures State() == DownStart
    {
      hide Linked, Total, EncodeAll, NetifFrame, ZeroTail, Port.InSession, Port.State;
      hide Sender.Valid, Sender.Holds, Sender.State;
      var q := new ThreadSafeQueue();
      var s := new Sender(q);
      var p := new Port();
      queue, sender, port := q, s, p;
      this.addresses, announced, wire, accepted, seen := addresses, false, [], [], [];
      new;
      Repr := {this, q, s, s.uartSendbuffer, p, p.host, p.netifInfo};
      NothingEncoded();
      port.Begin(addresses, []);
      assert wire + sender.frame[sender.uartSendPtr..] == EncodeAll([]);
    }

    /** What another end needs to know. */
    lemma Parts()
      requires Valid()
      ensures this in Repr && port in Repr && port.host in Repr && sender in Repr && queue in Repr
      ensures |addresses| == 12 && port.netifInfo.Length == ECHO_LEN && (port.netifValid ==> announced)
      ensures accepted == [] ==> sender.uartSendLen == 0
      ensures var v := State();
              && v.announced == announced && v.accepted == accepted && v.sending.overrun == sender.overrun
              && (if port.netifValid then v.mode.Connected? && v.mode.echo == port.echo else v.mode.Listening?)
    {
      hide Next, Parse, NetifFrame, ZeroTail;
      if accepted == [] {
        assert sender.taken == [] && EncodeAll([]) == [];
      }
    }

    /** In every reachable state the driver has stored the whole announcement or nothing has been
        delivered, what is delivered is a prefix of what the queue took, and with nothing left on
        the way it is all of it, exactly if every packet has 20 to 1500 bytes. */
    lemma InOrder()
      requires Valid()
      ensures if port.netifValid then port.netifInfo[..INFO_LEN] == NetifFrame(addresses) else port.host.delivered == []
      ensures AllCarried(accepted) ==> port.host.delivered <= accepted
      ensures Drained() ==> port.netifValid && (port.host.delivered == accepted <==> AllCarried(accepted))
    {
      hide Next, Parse, EncodeAll, NetifFrame, Linked, DataOf, Total;
      FrameLength(addresses);
      if !port.netifValid {
        return;
      }
      assert accepted == sender.taken + (sender.spilled + queue.Contents());
      EncodeAllAppend(sender.taken, sender.spilled + queue.Contents());
      assert seen + [] == seen;
      Overran();
      if AllCarried(accepted) {
        Within();
        Downlink.PrefixOfAccepted(accepted, seen, [], port.host.delivered, port.host.Synced(), port.host.Buf());
      }
      if Drained() && !sender.overrun {
        assert accepted == sender.taken && Coming() == [];
      }
    }

    /** `send_to_uart0_sync`, of the 15 bytes the firmware keeps for the echo to be compared with. */
    method Announce(info: bytes)
      requires Valid() && !announced && info == NetifFrame(addresses)
      modifies this`announced, this`wire
      ensures Valid() && announced && State() == Announced(old(State()), info)
    {
      hide NetifFrame, Port.InSession, Sender.Holds;
      Within();
      announced, wire := true, info;
      assert [] + sender.frame[sender.uartSendPtr..] == sender.frame[sender.uartSendPtr..];
    }

    method Offer(p: bytes, elementOk: bool, dataOk: bool)
      requires Valid() && announced
      modifies Repr
      ensures Valid() && fresh(Repr - old(Repr)) && Unmoved()
      ensures State() == Offered(old(State()), p, elementOk, dataOk)
      ensures port.host.delivered == old(port.host.delivered)
      ensures accepted == old(accepted) + if old(queue.Takes(p, elementOk, dataOk)) then [p] else []
    {
      hide Port.InSession, Port.State, Sender.Holds, Sender.Valid, Takeable;
      Within();
      accepted := sender.UartWifiRecv(p, elementOk, dataOk, accepted);
      Repr := Repr + set x | x in queue.spine;
    }

    /** The handshake is where it was. */
    twostate predicate Unmoved()
      reads this, port
    {
      announced == old(announced) && port.netifValid == old(port.netifValid) && port.echo == old(port.echo)
    }

    method Send(cnt: byte)
      requires Valid() && announced
      modifies Repr
      ensures Valid() && Repr == old(Repr) && Unmoved() && State() == Sent(old(State()), cnt)
      ensures accepted == old(accepted) && port.host.delivered == old(port.host.delivered)
      ensures old(wire) <= wire && (old(sender.overrun) ==> sender.overrun)
      ensures seen == old(seen) && (cnt < UART_FIFO_LEN && !old(Drained()) && !sender.overrun ==> wire != [])
    {
      hide EncodeAll, DataOf, Total, NetifFrame, Port.InSession, Port.State, Sender.State, Framed, Fed, Remaining;
      ghost var ps, rest, coming := sender.taken, sender.frame[sender.uartSendPtr..], Coming();
      var out := sender.Wifi2Uart(cnt);
      wire := wire + out;
      SentOn(ps, old(sender.written), old(wire), out, sender.frame[sender.uartSendPtr..], rest);
      Grows(ps, sender.taken, coming);
    }

    /** What was written and what is pending now are what was pending before and the frames taken since. */
    lemma SentOn(ps: seq<bytes>, written: bytes, wire: bytes, out: bytes, rest: bytes, was: bytes)
      requires sender.Valid() && ps <= sender.taken && sender.written == written + out
      requires rest == sender.frame[sender.uartSendPtr..] && written + was == EncodeAll(ps)
      ensures wire + out + rest == wire + was + EncodeAll(sender.taken[|ps|..])
    {
      hide EncodeAll;
      var more := sender.taken[|ps|..];
      assert sender.taken == ps + more;
      EncodeAllAppend(ps, more);
      Regroup(wire, written, out, rest, was, EncodeAll(more));
    }

    /** More packets on the way. */
    lemma Grows(ps: seq<bytes>, qs: seq<bytes>, pending: bytes)
      requires port.InSession(addresses, ps, seen, pending) && ps <= qs
      ensures port.InSession(addresses, qs, seen, pending + EncodeAll(qs[|ps|..]))
    {
      hide Next, Parse, EncodeAll, NetifFrame, ZeroTail;
      var more := qs[|ps|..];
      assert qs == ps + more;
      EncodeAllAppend(ps, more);
      assert forall p <- ps :: p in qs;
      assert seen + (pending + EncodeAll(more)) == seen + pending + EncodeAll(more);
      assert port.Info() + (pending + EncodeAll(more)) == port.Info() + pending + EncodeAll(more);
      assert NetifFrame(addresses) + EncodeAll(ps) + EncodeAll(more) == NetifFrame(addresses) + EncodeAll(qs);
    }

    method Receive(count: nat, allocs: seq<bool>)
      requires Valid() && announced
      modifies Repr
      ensures Valid() && fresh(Repr - old(Repr)) && announced && accepted == old(accepted)
      ensures State() == Received(old(State()), count, allocs)
      ensures AllCarried(accepted) ==> old(port.host.delivered) <= port.host.delivered
      ensures old(port.netifValid) ==> Unmoved()
      ensures port.netifValid ==> port.echo == NetifFrame(addresses) + ZeroTail()
      ensures sender.overrun == old(sender.overrun)
      ensures AllTrue(allocs) && count >= old(|wire|) ==>
                if old(port.netifValid) then |seen| == old(|seen| + |wire|)
                else old(sender.uartSendLen) == 0 ==> port.netifValid
    {
      hide EncodeAll, NetifFrame, ZeroTail, Port.InSession, Sender.Holds, Sender.Valid, Heard, Sender.State, Port.State;
      hide AllCarried, AllTrue;
      Within();
      var n := Min(count, |wire|);
      var ret;
      ret, seen := Process(n, allocs);
      wire := wire[ret..];
      if port.host.skb != null {
        Repr := Repr + {port.host.skb};
      }
    }

    lemma Overran()
      requires Valid()
      ensures sender.overrun ==> !AllFit(accepted)
      ensures !sender.overrun && queue.Contents() == [] ==> AllFit(accepted)
    {
      hide Next, Parse, EncodeAll, Linked, DataOf, Total, NetifFrame, ZeroTail, Port.InSession;
      if sender.overrun {
        assert sender.spilled[0] in accepted;
      }
    }

    lemma Within()
      requires Valid()
      ensures forall p <- sender.taken :: p in accepted
      ensures AllCarried(accepted) ==> AllCarried(sender.taken)
      ensures sender.uartSendPtr + sender.uartSendLen == |sender.frame|
    {
    }

    /** The driver processes the first `ret` of the `n` bytes presented to it. */
    method Process(n: nat, allocs: seq<bool>) returns (ret: nat, ghost now: bytes)
      requires Valid() && announced && n <= |wire|
      modifies port, port.netifInfo, port.host, port.host.skb
      ensures ret <= n && sender.Holds(accepted) && port.Valid() && port.host.Valid()
      ensures Reply(port.State(), ret) == Heard(old(port.State()), wire[..n], allocs, ZeroTail())
      ensures port.InSession(addresses, sender.taken, now, wire[ret..] + sender.frame[sender.uartSendPtr..])
      ensures port.host.skb == null || port.host.skb == old(port.host.skb) || fresh(port.host.skb)
      ensures AllCarried(sender.taken) ==> old(port.host.delivered) <= port.host.delivered
      ensures old(port.netifValid) ==> Unmoved()
      ensures port.netifValid ==> port.echo == NetifFrame(addresses) + ZeroTail()
      ensures AllTrue(allocs) && n == |wire| ==>
                if old(port.netifValid) then |now| == old(|seen| + |wire|)
                else sender.uartSendLen == 0 ==> port.netifValid
    {
      hide NetifFrame, ZeroTail, Port.InSession, Port.State, Heard, Sender.Holds, Sender.Valid, AllCarried, AllTrue;
      Within();
      ghost var rest := sender.frame[sender.uartSendPtr..];
      port.Supply(allocs, addresses, sender.taken, seen, Coming());
      assert Coming() == wire[..n] + (wire[n..] + rest);
      ret, now := port.ReceiveBuf2(wire[..n], wire[n..] + rest, addresses, sender.taken, seen);
      assert wire[..n][ret..] + (wire[n..] + rest) == wire[ret..] + rest;
    }

    lemma Bounds()
      requires Valid() && announced
      ensures port.netifValid ==> |seen| + |wire| <= |EncodeAll(accepted)|
      ensures queue.head == null <==> queue.Contents() == []
    {
      hide Next, Parse, EncodeAll, NetifFrame;
      assert accepted == sender.taken + (sender.spilled + queue.Contents());
      EncodeAllAppend(sender.taken, sender.spilled + queue.Contents());
    }

    /** Once the driver has the announcement, steps with a free FIFO and enough memory terminate with
        nothing left on the way, or in an overrun, exactly if the queue ever took a packet above 1500
        bytes; and everything it took has been delivered exactly if all can be carried. */
    method Flush()
      requires Valid() && announced && port.netifValid
      modifies Repr
      ensures Valid() && fresh(Repr - old(Repr)) && Unmoved() && accepted == old(accepted) && wire == []
      ensures if sender.overrun then !AllFit(accepted) else AllFit(accepted) && Drained()
      ensures port.host.delivered == accepted <==> AllCarried(accepted)
    {
      hide EncodeAll, NetifFrame, ZeroTail, Port.InSession, Sender.Holds, Offered, Sent, Received, Down.State;
      while !(wire == [] && (sender.overrun || (queue.head == null && sender.uartSendLen == 0)))
        invariant Valid() && fresh(Repr - old(Repr)) && Unmoved() && accepted == old(accepted)
        decreases |EncodeAll(accepted)| - |seen|, sender.overrun == false
      {
        Bounds();
        Send(0);
        Receive(|wire|, []);
        Bounds();
      }
      Bounds();
      InOrder();
      Overran();
      DeliversCarried();
    }

    lemma DeliversCarried()
      requires Valid()
      ensures AllCarried(port.host.delivered)
      ensures !AllFit(accepted) ==> !AllCarried(accepted)
    {
      hide Next, Parse, EncodeAll, NetifFrame, ZeroTail;
    }
  }

  lemma SameBehind(w: bytes, a: bytes, b: bytes, c: bytes, d: bytes)
    requires w + a + b == w + c + d
    ensures a + b == c + d
  {
    assert a + b == (w + a + b)[|w|..] && c + d == (w + c + d)[|w|..];
  }

  lemma Regroup(x: bytes, w: bytes, a: bytes, b: bytes, c: bytes, d: bytes)
    requires w + a + b == w + c + d
    ensures x + a + b == x + c + d
  {
    SameBehind(w, a, b, c, d);
    assert x + a + b == x + (a + b) && x + c + d == x + (c + d);
  }

  lemma FrameLength(addresses: bytes)
    ensures |NetifFrame(addresses)| == |addresses| + 3
  {
  }
}
