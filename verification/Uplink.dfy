/**
 Driver to firmware, end to end: the driver's transmit path, the bytes in the tty and in flight, and
 `uart2wifi`, under every interleaving of their steps and every refusal of the network.

 The firmware enters its data phase with `prefix` already waiting or still coming: what the start-up
 left in its buffer and in the tty.
 */
module Uplink {
  import opened Framing
  import opened EspAsWritten
  import opened EspReceiver
  import opened HostTransmit

  /** `Interrupted` is a refused transmission during which the serial driver sends `n1` and `n2` bytes. */
  datatype Event =
    | Transmit(linear: bytes, frags: seq<bytes>)
    | Interrupted(linear: bytes, frags: seq<bytes>, n1: nat, n2: nat)
    | SerialDone(count: nat)
    | Uart2WifiCall(polls: seq<nat>, allocOk: bool, outputOk: bool)
    | Open
    | Stop
    | LinkUp
    | Wakeup

  /** A packet buffer has its link-layer header in front. */
  predicate EventOk(ev: Event) {
    ev.Transmit? || ev.Interrupted? ==> |ev.linear| >= ETH_HLEN
  }

  /** Packets whose length fits its two bytes, as that of every IPv4 packet does. */
  predicate AllShort(ps: seq<bytes>) {
    forall p <- ps :: |p| < 0x1_0000
  }

  /** The payload of a packet handed over. */
  function PayloadOf(ev: Event): bytes
    requires EventOk(ev) && (ev.Transmit? || ev.Interrupted?)
  {
    Payload(ev.linear, ev.frags)
  }

  // ---------------------------------------------------------------------------
  // The state and its steps
  // ---------------------------------------------------------------------------

  /** The driver's transmit side, the firmware with the bytes on the line, and the packets the driver has taken. */
  datatype View = View(net: Net, esp: Esp, accepted: seq<bytes>)

  predicate Running(n: Net) {
    n.carrier && !n.stopped
  }

  function Hand(v: View, capacity: nat, p: bytes): View
    requires |v.net.ttyBuf| <= capacity
  {
    if !Running(v.net) then v
    else v.(net := Sent(v.net, capacity, p),
            accepted := v.accepted + if capacity - |v.net.ttyBuf| >= Asked(p) then [p] else [])
  }

  /** A refusal during which the line goes on; no refusal if there is room. */
  function Interrupt(v: View, capacity: nat, p: bytes, n1: nat, n2: nat): View {
    var k := n1 + n2;
    if !Running(v.net) || capacity - |v.net.ttyBuf| >= Asked(p) || k > |v.net.ttyBuf| then v
    else v.(net := Refused(v.net, n1, n2), esp := v.esp.(rx := v.esp.rx + v.net.ttyBuf[..k]))
  }

  /** The line carries `count` bytes to the firmware, or all there are. */
  function Carry(v: View, count: nat): View {
    var k := Min(count, |v.net.ttyBuf|);
    v.(net := Transmitted(v.net, k), esp := v.esp.(rx := v.esp.rx + v.net.ttyBuf[..k]))
  }

  function After(v: View, capacity: nat, ev: Event): (w: View)
    requires EventOk(ev) && |v.net.ttyBuf| <= capacity
    ensures |w.net.ttyBuf| <= capacity
  {
    match ev
    case Transmit(_, _) => Hand(v, capacity, PayloadOf(ev))
    case Interrupted(_, _, n1, n2) => Interrupt(v, capacity, PayloadOf(ev), n1, n2)
    case SerialDone(count) => Carry(v, count)
    case Uart2WifiCall(polls, allocOk, outputOk) => v.(esp := Called(v.esp, polls, allocOk, outputOk))
    case Open => v.(net := v.net.(carrier := false))
    case Stop => v.(net := v.net.(carrier := false, stopped := true))
    case LinkUp => v.(net := v.net.(carrier := true, stopped := false))
    case Wakeup => v.(net := Woken(v.net))
  }

  /** After a run of events. */
  function AfterAll(v: View, capacity: nat, events: seq<Event>): (w: View)
    requires (forall ev <- events :: EventOk(ev)) && |v.net.ttyBuf| <= capacity
    ensures |w.net.ttyBuf| <= capacity
  {
    if events == [] then v
    else After(AfterAll(v, capacity, events[..|events| - 1]), capacity, events[|events| - 1])
  }

  lemma AfterOneMore(v: View, capacity: nat, events: seq<Event>, i: nat)
    requires i < |events| && (forall ev <- events :: EventOk(ev)) && |v.net.ttyBuf| <= capacity
    ensures forall ev <- events[..i + 1] :: EventOk(ev)
    ensures AfterAll(v, capacity, events[..i + 1]) == After(AfterAll(v, capacity, events[..i]), capacity, events[i])
  {
    assert events[..i + 1][..i] == events[..i];
  }

  /** What a step adds to the accepted packets, given whether the queue is running and the room in the tty. */
  function Taken(ev: Event, running: bool, room: int): seq<bytes>
    requires EventOk(ev)
  {
    if ev.Transmit? && running && room >= Asked(PayloadOf(ev)) then [PayloadOf(ev)] else []
  }

  /** A refusal that leaves the queue stranded: one interrupted at the wrong moments, or one for more room than
      there ever is. */
  ghost predicate Strands(ev: Event, netdev: Netdev)
    requires EventOk(ev)
    reads netdev
  {
    && netdev.Running() && (ev.Transmit? || ev.Interrupted?) && netdev.WriteRoom() < Asked(PayloadOf(ev))
    && (ev.Transmit? ==> netdev.ttyBuf == [])
    && (ev.Interrupted? ==> netdev.Strands(ev.n1, ev.n2))
  }

  /** Only these can: with packets within the MTU, only interrupted refusals. */
  predicate CanStrand(ev: Event)
    requires EventOk(ev)
  {
    ev.Interrupted? || (ev.Transmit? && Asked(PayloadOf(ev)) > MAX_FRAME_LEN)
  }

  lemma OnlyThese(ev: Event, netdev: Netdev)
    requires EventOk(ev) && netdev.Fits()
    ensures Strands(ev, netdev) ==> CanStrand(ev)
    ensures netdev.Stranded() ==> Taken(ev, netdev.Running(), netdev.WriteRoom()) == []
  {
  }

  /** What gets a stranded queue going again, or takes the carrier away. */
  predicate Rescues(ev: Event) {
    ev.Open? || ev.Stop? || ev.LinkUp? || ev.Wakeup?
  }

  class Link {
    const netdev: Netdev
    const esp: Receiver
    ghost const prefix: bytes
    var accepted: seq<bytes>  // payloads the driver took for transmission
    ghost var sent: bytes  // what it wrote of them to the tty

    ghost predicate Valid()
      reads this, netdev, esp, esp.uartRecvBuffer
    {
      && netdev.Sound() && esp.Valid(Data)
      && esp.total + netdev.ttyBuf == prefix + sent
      && (AllShort(accepted) ==> sent == EncodeAll(accepted))
    }

    ghost function State(): View
      requires esp.InBounds()
      reads this, netdev, esp, esp.uartRecvBuffer
    {
      View(netdev.State(), esp.State(), accepted)
    }

    constructor (netdev: Netdev, esp: Receiver)
      requires netdev.Sound() && esp.Valid(Data) && esp.output == []
      ensures Valid() && this.netdev == netdev && this.esp == esp && accepted == []
      ensures prefix == esp.total + netdev.ttyBuf
    {
      this.netdev, this.esp, prefix, accepted, sent := netdev, esp, esp.total + netdev.ttyBuf, [], [];
    }

    /** What the firmware has put on the network is a prefix of what all the bytes mean; with
        nothing left over from start-up and packets of 20 to 1500 bytes, it is a prefix of the
        accepted ones: each at most once, in order, unchanged, however often the network refused. */
    lemma InOrder()
      requires Valid()
      ensures AllShort(accepted) ==> esp.output <= Parse(true, prefix + EncodeAll(accepted)).packets
      ensures prefix == [] && AllCarried(accepted) ==> esp.output <= accepted
    {
      hide Next, Parse, EncodeAll, Accounted, Accepted;
      ParseAppend(true, esp.total, netdev.ttyBuf);
      if prefix == [] && AllCarried(accepted) {
        assert prefix + EncodeAll(accepted) == EncodeAll(accepted);
        RoundTrip(accepted);
      }
    }

    /** One step. A queue is stranded after it exactly if this step strands it, or it was and this step is
        none that rescues it. */
    method Step(ev: Event)
      requires Valid() && EventOk(ev)
      modifies this, netdev, esp, esp.uartRecvBuffer
      ensures Valid() && State() == After(old(State()), netdev.capacity, ev)
      ensures old(esp.output) <= esp.output
      ensures accepted == old(accepted) + Taken(ev, old(netdev.Running()), old(netdev.WriteRoom()))
      ensures netdev.Stranded() <==> old(Strands(ev, netdev)) || (old(netdev.Stranded()) && !Rescues(ev))
    {
      hide Parse, EncodeAll, Accounted, Refines, Accepted, Payload, AllShort, Hand, Interrupt, Called;
      match ev
      case Transmit(linear, frags) => DoTransmit(linear, frags);
      case Interrupted(linear, frags, n1, n2) => DoInterrupted(ev);
      case SerialDone(count) => DoSerial(if count < |netdev.ttyBuf| then count else |netdev.ttyBuf|);
      case Uart2WifiCall(polls, allocOk, outputOk) => DoCall(polls, allocOk, outputOk);
      case Open => netdev.Open();
      case Stop => netdev.Stop();
      case LinkUp => netdev.CarrierUp();
      case Wakeup => netdev.WriteWakeup();
    }

    method DoCall(polls: seq<nat>, allocOk: bool, outputOk: bool)
      requires Valid()
      modifies esp, esp.uartRecvBuffer
      ensures Valid() && old(esp.output) <= esp.output
      ensures State() == old(State()).(esp := Called(old(State()).esp, polls, allocOk, outputOk))
    {
      hide Next, Parse, EncodeAll, Accounted, Refines, Accepted, AllShort, Called;
      esp.polls := polls;
      var _ := esp.Uart2Wifi(allocOk, outputOk);
    }

    method DoTransmit(linear: bytes, frags: seq<bytes>)
      requires Valid() && |linear| >= ETH_HLEN
      modifies this`accepted, this`sent, netdev
      ensures Valid() && State() == Hand(old(State()), netdev.capacity, Payload(linear, frags))
      ensures var ev := Transmit(linear, frags);
              && accepted == old(accepted) + Taken(ev, old(netdev.Running()), old(netdev.WriteRoom()))
              && (netdev.Stranded() <==> old(Strands(ev, netdev)) || old(netdev.Stranded()))
    {
      hide Next, Parse, EncodeAll, Encode, Accounted, Refines, Accepted, Payload, Cut;
      if !netdev.Running() {
        return;
      }
      var p := Payload(linear, frags);
      ghost var before := netdev.ttyBuf;
      var done := netdev.Xmit(linear, frags);
      if done {
        CutKeeps(before, Encode(p), netdev.capacity);
        ghost var more := netdev.ttyBuf[|before|..];
        assert netdev.ttyBuf == before + more;
        if AllShort(accepted + [p]) {
          ShortTaken(accepted, p);
          assert netdev.ttyBuf == before + Encode(p) && more == Encode(p);
        }
        assert esp.total + (before + more) == (esp.total + before) + more;
        assert prefix + (sent + more) == (prefix + sent) + more;
        accepted, sent := accepted + [p], sent + more;
      }
    }

    /** A refusal, while the serial driver goes on. */
    method DoInterrupted(ev: Event)
      requires Valid() && ev.Interrupted? && EventOk(ev)
      modifies netdev, esp`rx, esp`total
      ensures Valid() && esp.output == old(esp.output)
      ensures State() == Interrupt(old(State()), netdev.capacity, PayloadOf(ev), ev.n1, ev.n2)
      ensures netdev.Stranded() <==> old(Strands(ev, netdev)) || old(netdev.Stranded())
    {
      hide Parse, EncodeAll, Accounted, Refines, Accepted, Payload, AllShort, Refused;
      if !netdev.Running() || netdev.WriteRoom() >= Asked(PayloadOf(ev)) || ev.n1 + ev.n2 > |netdev.ttyBuf| {
        return;
      }
      var out := netdev.RefuseInterrupted(Asked(PayloadOf(ev)), ev.n1, ev.n2);
      esp.Arrive(Data, out);
      assert old(netdev.ttyBuf) == out + netdev.ttyBuf;
      assert esp.total + netdev.ttyBuf == old(esp.total) + old(netdev.ttyBuf);
    }

    method DoSerial(n: nat)
      requires Valid() && n <= |netdev.ttyBuf|
      modifies netdev, esp`rx, esp`total
      ensures Valid() && esp.output == old(esp.output) && netdev.ttyBuf == old(netdev.ttyBuf)[n..]
      ensures State() == Carry(old(State()), n)
      ensures netdev.Stranded() <==> old(netdev.Stranded())
    {
      hide Next, Parse, EncodeAll, Accounted, Refines, Accepted, AllShort;
      if n == 0 {
        return;
      }
      var out := netdev.TxDone(n);
      esp.Arrive(Data, out);
      assert old(netdev.ttyBuf) == out + netdev.ttyBuf;
      assert esp.total + netdev.ttyBuf == old(esp.total) + old(netdev.ttyBuf);
    }

    /** Any run. `strands` says which steps strand the queue: only interrupted refusals can, and packets beyond
        the MTU. At the end the queue is stranded exactly if it was stranded at some point and nothing
        since has rescued it; a queue that nothing rescues takes no packet any more. */
    method Run(events: seq<Event>) returns (ghost strands: seq<bool>)
      requires Valid() && forall ev <- events :: EventOk(ev)
      modifies this, netdev, esp, esp.uartRecvBuffer
      ensures Valid() && State() == AfterAll(old(State()), netdev.capacity, events)
      ensures old(accepted) <= accepted && old(esp.output) <= esp.output
      ensures prefix == [] && AllCarried(accepted) ==> esp.output <= accepted
      ensures |strands| == |events| && forall i :: 0 <= i < |events| && strands[i] ==> CanStrand(events[i])
      ensures netdev.Stranded() <==> StrandedBy(events, strands, old(netdev.Stranded()))
      ensures old(netdev.Stranded()) && NoneRescues(events, 0) ==> accepted == old(accepted)
    {
      hide Parse, EncodeAll, Accounted, Refines, Accepted, StrandedBy, After, Strands, Taken, CanStrand;
      assert forall i :: 0 <= i < |events| ==> events[i] in events;
      strands := [];
      NothingStrands(old(netdev.Stranded()));
      for i := 0 to |events|
        invariant Valid() && State() == AfterAll(old(State()), netdev.capacity, events[..i])
        invariant old(accepted) <= accepted && old(esp.output) <= esp.output
        invariant |strands| == i && forall k :: 0 <= k < i && strands[k] ==> CanStrand(events[k])
        invariant netdev.Stranded() <==> StrandedBy(events[..i], strands, old(netdev.Stranded()))
        invariant old(netdev.Stranded()) && NoneRescues(events, 0) ==>
                    netdev.Stranded() && accepted == old(accepted)
      {
        assert events[i] in events && events[..i + 1] == events[..i] + [events[i]];
        AfterOneMore(old(State()), netdev.capacity, events, i);
        OnlyThese(events[i], netdev);
        StrandedOn(events[..i], strands, old(netdev.Stranded()), events[i], Strands(events[i], netdev));
        strands := strands + [Strands(events[i], netdev)];
        Step(events[i]);
      }
      assert events[..|events|] == events;
      InOrder();
    }

    /** From any reachable state, once the serial line has sent what it holds and the network
        accepts, the firmware has put out exactly the packets of the whole stream: if start-up left
        nothing behind, every accepted packet exactly once exactly if all have 20 to 1500 bytes. */
    method Flush()
      requires Valid()
      modifies this, netdev, esp, esp.uartRecvBuffer
      ensures Valid() && accepted == old(accepted) && AllCarried(esp.output)
      ensures AllShort(accepted) ==> esp.output == Parse(true, prefix + EncodeAll(accepted)).packets
      ensures prefix == [] ==> (esp.output == accepted <==> AllCarried(accepted))
    {
      hide Next, Parse, EncodeAll, Accounted, Refines, Accepted;
      DoSerial(|netdev.ttyBuf|);
      assert esp.total + [] == esp.total;
      esp.Drain();
      ParseDeliversCarried(true, esp.total);
      if prefix == [] && AllCarried(accepted) {
        assert prefix + EncodeAll(accepted) == EncodeAll(accepted);
        RoundTrip(accepted);
      }
    }
  }

  predicate NoneRescues(events: seq<Event>, from: nat) {
    forall j :: from <= j < |events| ==> !Rescues(events[j])
  }

  /** The last word is a stranding: nothing since has rescued the queue. */
  ghost predicate StrandedBy(events: seq<Event>, strands: seq<bool>, before: bool)
    requires |strands| == |events|
  {
    || (before && NoneRescues(events, 0))
    || exists i :: 0 <= i < |events| && strands[i] && NoneRescues(events, i + 1)
  }

  lemma NothingStrands(before: bool)
    ensures StrandedBy([], [], before) <==> before
  {
  }

  lemma StrandedOn(events: seq<Event>, strands: seq<bool>, before: bool, ev: Event, now: bool)
    requires |strands| == |events|
    ensures StrandedBy(events + [ev], strands + [now], before)
            <==> now || (StrandedBy(events, strands, before) && !Rescues(ev))
  {
    hide Rescues;
    var es, ss, n := events + [ev], strands + [now], |events|;
    forall k: nat | k <= n
      ensures NoneRescues(es, k) <==> NoneRescues(events, k) && !Rescues(ev)
    {
      assert es[n] == ev && forall j :: 0 <= j < n ==> es[j] == events[j];
    }
    if now {
      assert ss[n] && NoneRescues(es, n + 1);
    }
    forall i | 0 <= i < n && strands[i] && NoneRescues(events, i + 1) && !Rescues(ev)
      ensures StrandedBy(es, ss, before)
    {
      assert ss[i] && NoneRescues(es, i + 1);
    }
  }

  lemma CutKeeps(s: bytes, t: bytes, n: nat)
    requires |s| <= n
    ensures s <= Cut(s + t, n)
  {
  }

  lemma ShortTaken(ps: seq<bytes>, p: bytes)
    requires AllShort(ps + [p])
    ensures AllShort(ps) && |p| < 0x1_0000 && EncodeAll(ps + [p]) == EncodeAll(ps) + Encode(p)
  {
    EncodeAllSnoc(ps, p);
    assert (ps + [p])[|ps|] == p && forall q <- ps :: q in ps + [p];
  }
}
