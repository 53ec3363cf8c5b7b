/**
 Firmware to driver, end to end: the queue, the piecewise sender, the bytes in flight and the
 driver's receiver as written, under every interleaving of their steps.
 */
module Downlink {
  import opened Framing
  import opened PacketQueue
  import opened EspSender
  import opened HostAsWritten
  import opened HostReceiver
  import opened HostHazards

  /** One step: a packet offered to the queue, a `wifi2uart` call at some FIFO level, or a
      presentation of up to `count` bytes to the driver with some allocation outcomes. */
  datatype Event =
    | Offer(packet: bytes, elementOk: bool, dataOk: bool)
    | Send(txfifoCnt: byte)
    | Receive(count: nat, allocs: seq<bool>)

  /** What a step adds to the accepted packets, given whether the queue takes what it is offered. */
  function Taken(ev: Event, takes: bool): seq<bytes> {
    if ev.Offer? && takes then [ev.packet] else []
  }

  // ---------------------------------------------------------------------------
  // The state and its steps
  // ---------------------------------------------------------------------------

  /** The sender, the bytes in flight, the driver, and the packets the queue has taken. */
  datatype View = View(sending: Sending, wire: bytes, host: Drv, accepted: seq<bytes>)

  const Start := View(Sending([], [], false), [], Drv(true, true, [], []), [])

  function Offered(v: View, p: bytes, elementOk: bool, dataOk: bool): View {
    if !Takeable(v.sending.queue, p, elementOk, dataOk) then v
    else v.(sending := v.sending.(queue := v.sending.queue + [p]), accepted := v.accepted + [p])
  }

  function Sent(v: View, cnt: byte): View {
    var s := Framed(v.sending);
    v.(sending := Remaining(s, cnt), wire := v.wire + Fed(s, cnt))
  }

  /** The driver is presented with what is in flight, at most `count` bytes of it. */
  function Received(v: View, count: nat, allocs: seq<bool>): View {
    var n := Min(count, |v.wire|);
    var r := Presented(v.host, v.wire[..n], allocs);
    v.(wire := v.wire[Min(r.processed, n)..], host := DrvOf(r))
  }

  function After(v: View, ev: Event): View {
    match ev
    case Offer(p, elementOk, dataOk) => Offered(v, p, elementOk, dataOk)
    case Send(cnt) => Sent(v, cnt)
    case Receive(count, allocs) => Received(v, count, allocs)
  }

  /** After a run of events. */
  function AfterAll(v: View, events: seq<Event>): View {
    if events == [] then v
    else After(AfterAll(v, events[..|events| - 1]), events[|events| - 1])
  }

  lemma AfterNone(v: View, events: seq<Event>)
    ensures AfterAll(v, events[..0]) == v
  {
  }

  lemma AfterOneMore(v: View, events: seq<Event>, i: nat)
    requires i < |events|
    ensures AfterAll(v, events[..i + 1]) == After(AfterAll(v, events[..i]), events[i])
  {
    assert events[..i + 1][..i] == events[..i];
  }

  lemma ReceiveStep(seen: bytes, d: seq<bytes>, m: bool, buf: bytes, c: bytes, more: seq<bytes>, n: bool, left: bytes)
    requires Parse(true, seen) == Parsed(d, m, buf)
    requires Parse(m, buf + c) == Prepend(more, Parse(n, left))
    requires Next(Data, n, left) == Need(n, left)
    ensures Parse(true, seen + c) == Parsed(d + more, n, left)
  {
    hide Next;
    ParseAppend(true, seen, c);
    assert Parse(n, left) == Parsed([], n, left);
  }

  /** The driver has exactly the packets of the bytes it processed, which are a part of all frames. */
  lemma PrefixOfAccepted(accepted: seq<bytes>, seen: bytes, left: bytes, d: seq<bytes>, m: bool, buf: bytes)
    requires AllCarried(accepted) && seen + left <= EncodeAll(accepted) && Parse(true, seen) == Parsed(d, m, buf)
    ensures d <= accepted
    ensures seen == EncodeAll(accepted) ==> d == accepted
  {
    hide Next, Parse, EncodeAll;
    assert seen <= EncodeAll(accepted);
    PrefixDecodesToPrefix(accepted, seen);
    RoundTrip(accepted);
  }

  /** What a presentation delivers is carried, and a presentation that continues a stream of frames is not hazardous. */
  lemma ContinuesFrames(host: Host, cp: bytes, ps: seq<bytes>, seen: bytes)
    requires host.Valid() && AllCarried(host.delivered) && seen + cp <= EncodeAll(ps)
    requires AllCarried(ps) ==> Parse(true, seen) == Parsed(host.delivered, host.Synced(), host.Buf())
    ensures AllCarried(host.Foreseen(cp).delivered) && (AllCarried(ps) ==> !host.Hazardous(cp))
  {
    hide Next, Parse, EncodeAll, Hazard, Written;
    var allocs := if host.skb == null then Later(host.allocs) else host.allocs;
    WrittenDeliversCarried(host.Synced(), host.Buf(), cp, 0, allocs, host.delivered, Tally(0, 0));
    if AllCarried(ps) {
      SafeOnFrames(ps, seen, cp, 0, allocs);
    }
  }

  /** Presents `cp` to the driver, which processed `seen` before; both are a part of the frames of `ps`. */
  method Present(host: Host, cp: bytes, ghost ps: seq<bytes>, ghost seen: bytes) returns (ret: nat)
    requires host.Valid() && !host.repaired && AllCarried(host.delivered) && seen + cp <= EncodeAll(ps)
    requires AllCarried(ps) ==> Parse(true, seen) == Parsed(host.delivered, host.Synced(), host.Buf())
    modifies host, host.skb
    ensures ret <= |cp| && (old(AllTrue(host.allocs)) ==> ret == |cp| && AllTrue(host.allocs))
    ensures host.Valid() && (host.skb == null || host.skb == old(host.skb) || fresh(host.skb))
    ensures AllCarried(host.delivered)
    ensures var r := old(host.Foreseen(cp)); ret == Min(r.processed, |cp|) && host.State() == DrvOf(r)
    ensures AllCarried(ps) ==>
              && old(host.delivered) <= host.delivered
              && Parse(true, seen + cp[..ret]) == Parsed(host.delivered, host.Synced(), host.Buf())
  {
    hide Next, Parse, EncodeAll, Hazard, Written, AllCarried;
    ContinuesFrames(host, cp, ps, seen);
    var done, fault;
    ghost var tally;
    done, fault, tally := host.ReceiveData(cp);
    ret := Min(done, |cp|);
    if AllCarried(ps) {
      ReceiveStep(seen, old(host.delivered), old(host.Synced()), old(host.Buf()), cp[..ret],
                  host.delivered[|old(host.delivered)|..], host.Synced(), host.Buf());
    }
  }

  class Link {
    const queue: ThreadSafeQueue
    const sender: Sender
    const host: Host
    var wire: bytes  // written by the firmware, not yet processed by the driver
    var accepted: seq<bytes>  // packets the queue took
    ghost var processed: bytes  // bytes the driver processed
    ghost var Repr: set<object>

    ghost predicate Valid()
      reads this, Repr
    {
      && this in Repr && queue in Repr && sender in Repr && host in Repr && sender.uartSendbuffer in Repr
      && (forall x <- queue.spine :: x in Repr)
      && (host.skb != null ==> host.skb in Repr && host.skb != sender.uartSendbuffer)
      && sender.queue == queue && sender.Holds(accepted) && host.Valid() && !host.repaired
      && sender.written == processed + wire && AllCarried(host.delivered)
      && (AllCarried(accepted) ==> Parse(true, processed) == Parsed(host.delivered, host.Synced(), host.Buf()))
    }

    ghost function State(): View
      requires Valid()
      reads this, Repr
    {
      View(sender.State(), wire, host.State(), accepted)
    }

    ghost predicate Drained()
      reads this, queue, sender
    {
      queue.Contents() == [] && sender.uartSendLen == 0 && wire == []
    }

    constructor ()
      ensures Valid() && fresh(Repr) && State() == Start
    {
      hide EncodeAll, Linked, Total, Sender.Valid, Sender.Holds, Parse;
      var q := new ThreadSafeQueue();
      var s := new Sender(q);
      var h := new Host(false);
      queue, sender, host := q, s, h;
      wire, accepted, processed := [], [], [];
      new;
      Repr := {this, q, s, h, s.uartSendbuffer};
      NothingEncoded();
    }

    /** In every reachable state the delivered packets are a prefix of the accepted ones, in order
        and unchanged, if these have 20 to 1500 bytes; and once nothing is queued, pending or in
        flight, all accepted packets have been delivered exactly if they have. */
    lemma InOrder()
      requires Valid()
      ensures AllCarried(accepted) ==> host.delivered <= accepted
      ensures Drained() ==> (host.delivered == accepted <==> AllCarried(accepted))
    {
      hide Next, Parse, EncodeAll, Linked, DataOf, Total;
      if !AllCarried(accepted) {
        return;
      }
      NoOverrun();
      EncodeAllAppend(sender.taken, queue.Contents());
      var rest := sender.frame[sender.uartSendPtr..];
      assert processed + (wire + rest) == sender.written + rest;
      PrefixOfAccepted(accepted, processed, wire, host.delivered, host.Synced(), host.Buf());
      if Drained() {
        assert accepted == sender.taken && processed == sender.written + rest;
      }
    }

    method Step(ev: Event)
      requires Valid()
      modifies Repr
      ensures Valid() && fresh(Repr - old(Repr)) && State() == After(old(State()), ev)
      ensures old(accepted) <= accepted && (AllCarried(accepted) ==> old(host.delivered) <= host.delivered)
      ensures accepted == old(accepted) + Taken(ev, old(ev.Offer? && queue.Takes(ev.packet, ev.elementOk, ev.dataOk)))
      ensures ev.Receive? && AllTrue(ev.allocs) && ev.count >= old(|wire|) ==>
                |processed| == old(|processed| + |wire|)
    {
      hide Offered, Sent, Received, Link.Valid;
      match ev
      case Offer(p, elementOk, dataOk) => DoOffer(p, elementOk, dataOk);
      case Send(cnt) => DoSend(cnt);
      case Receive(count, allocs) => DoReceive(count, allocs);
    }

    method DoOffer(p: bytes, elementOk: bool, dataOk: bool)
      requires Valid()
      modifies Repr
      ensures Valid() && fresh(Repr - old(Repr)) && host.delivered == old(host.delivered)
      ensures State() == Offered(old(State()), p, elementOk, dataOk)
      ensures accepted == old(accepted) + if old(queue.Takes(p, elementOk, dataOk)) then [p] else []
    {
      hide Next, Parse, EncodeAll, Linked, DataOf, Total, Sender.Holds, Sender.State, Takeable;
      accepted := sender.UartWifiRecv(p, elementOk, dataOk, accepted);
      Repr := Repr + set x | x in queue.spine;
    }

    method DoSend(cnt: byte)
      requires Valid()
      modifies Repr
      ensures Valid() && Repr == old(Repr) && accepted == old(accepted) && host.delivered == old(host.delivered)
      ensures State() == Sent(old(State()), cnt)
      ensures old(wire) <= wire && (old(sender.overrun) ==> sender.overrun)
      ensures processed == old(processed) && (cnt < UART_FIFO_LEN && !old(Drained()) && !sender.overrun ==> wire != [])
    {
      hide Parse, EncodeAll, Linked, DataOf, Total, Framed, Fed, Remaining, Host.State, AllCarried;
      var out := sender.Wifi2Uart(cnt);
      wire := wire + out;
    }

    method DoReceive(count: nat, allocs: seq<bool>)
      requires Valid()
      modifies Repr
      ensures Valid() && fresh(Repr - old(Repr)) && accepted == old(accepted)
      ensures State() == Received(old(State()), count, allocs)
      ensures AllCarried(accepted) ==> old(host.delivered) <= host.delivered
      ensures AllTrue(allocs) && count >= old(|wire|) ==> |processed| == old(|processed| + |wire|)
      ensures sender.overrun == old(sender.overrun)
    {
      hide Parse, EncodeAll, Sender.Holds, Sender.Valid, Sender.State, Host.State, Presented, AllCarried, AllTrue;
      var n := Min(count, |wire|);
      var ret := Deliver(n, allocs);
      assert processed + wire == (processed + wire[..ret]) + wire[ret..];
      processed := processed + wire[..ret];
      wire := wire[ret..];
      if host.skb != null {
        Repr := Repr + {host.skb};
      }
    }

    /** The driver processes the first `ret` of the `n` bytes presented to it. */
    method Deliver(n: nat, allocs: seq<bool>) returns (ret: nat)
      requires Valid() && n <= |wire|
      modifies host, host.skb
      ensures var r := Presented(old(host.State()), wire[..n], allocs);
              ret == Min(r.processed, n) && host.Valid() && host.State() == DrvOf(r)
      ensures host.skb == null || host.skb == old(host.skb) || fresh(host.skb)
      ensures AllCarried(host.delivered) && (AllTrue(allocs) ==> ret == n)
      ensures AllCarried(accepted) ==>
                && old(host.delivered) <= host.delivered
                && Parse(true, processed + wire[..ret]) == Parsed(host.delivered, host.Synced(), host.Buf())
    {
      hide Next, Parse, EncodeAll, Hazard, Sender.Holds, Sender.State, Presented, AllCarried, AllTrue;
      host.allocs := allocs;
      OnTheWay(n);
      ret := Present(host, wire[..n], accepted, processed);
      assert wire[..n][..ret] == wire[..ret];
    }

    /** What was processed and what is on the wire are a part of the frames of everything accepted. */
    lemma OnTheWay(n: nat)
      requires Valid() && n <= |wire|
      ensures processed + wire[..n] <= EncodeAll(accepted)
    {
      hide Next, Parse, EncodeAll;
      assert accepted == sender.taken + (sender.spilled + queue.Contents());
      EncodeAllAppend(sender.taken, sender.spilled + queue.Contents());
      var rest := sender.frame[sender.uartSendPtr..];
      assert processed + wire + rest == EncodeAll(sender.taken);
      assert (processed + wire)[..|processed| + n] == processed + wire[..n];
    }

    /** Any run. */
    method Run(events: seq<Event>)
      requires Valid()
      modifies Repr
      ensures Valid() && fresh(Repr - old(Repr)) && State() == AfterAll(old(State()), events)
      ensures old(accepted) <= accepted
      ensures AllCarried(accepted) ==> old(host.delivered) <= host.delivered <= accepted
      ensures Drained() ==> (host.delivered == accepted <==> AllCarried(accepted))
    {
      hide Next, Parse, EncodeAll, Linked, DataOf, Total, Hazard;
      AfterNone(old(State()), events);
      for i := 0 to |events|
        invariant Valid() && fresh(Repr - old(Repr)) && State() == AfterAll(old(State()), events[..i])
        invariant old(accepted) <= accepted && (AllCarried(accepted) ==> old(host.delivered) <= host.delivered)
      {
        AfterOneMore(old(State()), events, i);
        Step(events[i]);
      }
      assert events[..|events|] == events;
      InOrder();
    }

    lemma NoOverrun()
      requires Valid()
      ensures AllCarried(accepted) ==> !sender.overrun && accepted == sender.taken + queue.Contents()
    {
      hide EncodeAll, Linked, DataOf, Total;
      if sender.overrun {
        assert sender.spilled[0] in accepted;
      }
    }

    lemma Overran()
      requires Valid() && (sender.overrun || queue.Contents() == [])
      ensures sender.overrun <==> !AllFit(accepted)
    {
      hide EncodeAll, Linked, DataOf, Total;
      if sender.overrun {
        assert sender.spilled[0] in accepted;
      }
    }

    lemma EmptyHead()
      requires Valid()
      ensures queue.head == null <==> queue.Contents() == []
    {
    }

    lemma WithinAccepted()
      requires Valid()
      ensures |processed| <= |EncodeAll(accepted)|
    {
      hide Next, Parse, EncodeAll;
      assert accepted == sender.taken + (sender.spilled + queue.Contents());
      EncodeAllAppend(sender.taken, sender.spilled + queue.Contents());
    }

    /** From any reachable state, steps with a free FIFO and enough memory terminate with nothing left
        on the way, or in an overrun, exactly if the queue ever took a packet above 1500 bytes; and
        everything it took has been delivered exactly if all can be carried. */
    method Flush()
      requires Valid()
      modifies Repr
      ensures Valid() && fresh(Repr - old(Repr)) && accepted == old(accepted) && wire == []
      ensures if sender.overrun then !AllFit(accepted) else AllFit(accepted) && Drained()
      ensures host.delivered == accepted <==> AllCarried(accepted)
    {
      hide Parse, EncodeAll, Linked, DataOf, Total, Sent, Received, Link.State, Sender.Holds;
      while !(wire == [] && (sender.overrun || (queue.head == null && sender.uartSendLen == 0)))
        invariant Valid() && fresh(Repr - old(Repr)) && accepted == old(accepted)
        decreases |EncodeAll(accepted)| - |processed|, sender.overrun == false
      {
        EmptyHead();
        DoSend(0);
        DoReceive(|wire|, []);
        WithinAccepted();
      }
      EmptyHead();
      InOrder();
      Overran();
    }
  }
}
