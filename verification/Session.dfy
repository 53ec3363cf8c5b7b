/**
 A first session with both ends in it, as one system: the firmware announces its addresses, the driver
 stores and echoes them, the firmware opens the data path on that echo, and packets flow both ways.
 The steps of both ends and of both lines interleave in any order.
 */
module Session {
  import opened Framing
  import opened Handshake
  import opened SessionDown
  import opened SessionUp
  import opened EspSender
  import HostAsWritten
  import opened NetifText
  import Downlink
  import Uplink

  datatype Event =
    | Announce
    | Await(polls: seq<nat>)
    | Down(down: Downlink.Event)
    | Up(up: Uplink.Event)

  predicate EventOk(ev: Event) {
    ev.Up? ==> Uplink.EventOk(ev.up)
  }

  // ---------------------------------------------------------------------------
  // The state and its steps
  // ---------------------------------------------------------------------------

  /** What stays: the addresses, the announcement the firmware keeps, and the size of the driver's tty. */
  datatype Setup = Setup(addresses: bytes, netifInfo: bytes, capacity: nat)

  datatype View = View(down: DownView, up: UpView, closed: bool)

  const Start := View(DownStart, UpStart, false)

  /** The driver is given bytes; when it has its 15 it writes the echo. */
  function Heard(v: View, capacity: nat, count: nat, allocs: seq<bool>): View {
    var d := Received(v.down, count, allocs);
    if d.mode.Connected? && !v.up.echoed then v.(down := d, up := Echoes(v.up, capacity, d.mode.echo))
    else v.(down := d)
  }

  function AfterDown(v: View, capacity: nat, ev: Downlink.Event): View {
    match ev
    case Offer(p, elementOk, dataOk) => if v.up.running then v.(down := Offered(v.down, p, elementOk, dataOk)) else v
    case Send(cnt) => if v.up.running then v.(down := Sent(v.down, cnt)) else v
    case Receive(count, allocs) => if v.down.announced then Heard(v, capacity, count, allocs) else v
  }

  /** One step; one that is not possible in the present state does nothing. Stopping the interface ends the
      session. An overrun of the firmware's send buffer ends what the firmware does. */
  function After(v: View, s: Setup, ev: Event): View
    requires EventOk(ev)
  {
    if v.closed || |v.up.link.net.ttyBuf| > s.capacity then v else
    match ev
    case Announce => if v.down.announced then v else v.(down := Announced(v.down, s.netifInfo))
    case Await(polls) =>
      if v.down.announced && !v.up.running then v.(up := Awaited(v.up, s.addresses, polls)) else v
    case Down(x) => AfterDown(v, s.capacity, x)
    case Up(x) =>
      if x.Open? || (x.Uart2WifiCall? && v.down.sending.overrun) then v
      else v.(up := UpAfter(v.up, s.capacity, x), closed := x.Stop?)
  }

  /** After a run of events. */
  function AfterAll(v: View, s: Setup, events: seq<Event>): View
    requires forall ev <- events :: EventOk(ev)
  {
    if events == [] then v
    else After(AfterAll(v, s, events[..|events| - 1]), s, events[|events| - 1])
  }

  lemma AfterOneMore(v: View, s: Setup, events: seq<Event>, i: nat)
    requires i < |events| && forall ev <- events :: EventOk(ev)
    ensures AfterAll(v, s, events[..i + 1]) == After(AfterAll(v, s, events[..i]), s, events[i])
  {
    hide After;
    assert events[..i + 1][..i] == events[..i];
  }

  class Link {
    const down: SessionDown.Down
    const up: SessionUp.Up
    const netifInfo: bytes  // what the firmware announces and compares the echo with
    var closed: bool  // the interface was stopped: the chip is held in reset, and the tty closed

    /** The driver has echoed exactly if it has the announcement; the firmware's queue is used only
        once the firmware runs. */
    ghost predicate Valid()
      reads this, down, down.Repr, up, up.Repr
    {
      && down.Valid() && up.Valid() && down.Repr !! up.Repr && this !in down.Repr && this !in up.Repr
      && down.addresses == up.addresses && netifInfo == NetifFrame(down.addresses)
      && up.echoed == down.port.netifValid
      && (up.link == null ==> down.accepted == [])
    }

    ghost function State(): View
      requires Valid()
      reads this, down, down.Repr, up, up.Repr
    {
      View(down.State(), up.State(), closed)
    }

    ghost function Fixed(): Setup
      reads this, down, up, up.netdev
    {
      Setup(down.addresses, netifInfo, up.netdev.capacity)
    }

    constructor (addresses: bytes, netifInfo: bytes, capacity: nat)
      requires |addresses| == 12 && netifInfo == NetifFrame(addresses) && capacity >= MAX_FRAME_LEN
      ensures Valid() && fresh(down.Repr) && fresh(up.Repr) && down.addresses == addresses
      ensures State() == Start && Fixed() == Setup(addresses, netifInfo, capacity)
    {
      hide SessionDown.Down.Valid, SessionUp.Up.Valid, FirstAlone, NetifFrame, ZeroTail;
      down := new SessionDown.Down(addresses);
      up := new SessionUp.Up(addresses, capacity);
      this.netifInfo, closed := netifInfo, false;
      new;
      down.Parts();
      up.Parts();
    }

    /** What holds in every reachable state. The firmware runs, and the carrier is on, only if the driver has
        stored exactly the announcement; the driver has delivered only what the queue took, in order; and
        the firmware only what is decoded from behind the first split byte of the first frame sent. */
    lemma InOrder()
      requires Valid()
      ensures up.netdev.carrier ==> up.link != null
      ensures up.link != null ==> down.port.netifValid && down.port.netifInfo[..INFO_LEN] == netifInfo
      ensures !down.port.netifValid ==> down.port.host.delivered == []
      ensures AllCarried(down.accepted) ==> down.port.host.delivered <= down.accepted
      ensures up.link == null || up.Accepted() == [] ==> up.esp.output == []
      ensures up.Accepted() != [] && Uplink.AllShort(up.Accepted()) ==>
                up.esp.output
                <= Parse(true, AfterSplit(Encode(up.Accepted()[0])) + EncodeAll(up.Accepted()[1..])).packets
      ensures FirstAlone(up.Accepted()) ==> up.esp.output <= up.Accepted()[1..]
    {
      hide SessionDown.Down.Valid, SessionUp.Up.Valid, FirstAlone, NetifFrame, ZeroTail;
      down.Parts();
      up.Parts();
      down.InOrder();
      up.InOrder();
    }

    /** What a step adds to the packets on their way to the driver: the network is hooked once the firmware runs. */
    ghost function TakenDown(ev: Downlink.Event): seq<bytes>
      reads this, up, down.queue
    {
      var takes := ev.Offer? && down.queue.Takes(ev.packet, ev.elementOk, ev.dataOk);
      if up.link != null && !closed then Downlink.Taken(ev, takes) else []
    }

    /** What a step adds to the packets on their way to the firmware. */
    ghost function TakenUp(ev: Uplink.Event): seq<bytes>
      requires Uplink.EventOk(ev)
      reads this, up.netdev
    {
      if closed then [] else Uplink.Taken(ev, up.netdev.Running(), up.netdev.WriteRoom())
    }

    /** One step; one that is not possible in the present state does nothing. Stopping the interface ends
        the session. An overrun of the firmware's send buffer ends what the firmware does. */
    method Step(ev: Event)
      requires Valid() && EventOk(ev)
      modifies this, down.Repr, up.Repr
      ensures Valid() && fresh(down.Repr - old(down.Repr)) && fresh(up.Repr - old(up.Repr))
      ensures State() == After(old(State()), Fixed(), ev)
      ensures closed == (old(closed) || Stops(ev))
      ensures down.accepted == old(down.accepted) + if ev.Down? then old(TakenDown(ev.down)) else []
      ensures up.Accepted() == old(up.Accepted()) + if ev.Up? then old(TakenUp(ev.up)) else []
      ensures old(up.link) != null ==> up.link != null && old(up.esp.output) <= up.esp.output
    {
      hide AfterDown, UpAfter, Awaited;
      hide SessionDown.Down.Valid, SessionUp.Up.Valid, FirstAlone, NetifFrame, ZeroTail,
           SessionDown.Down.State, SessionUp.Up.State;
      down.Parts();
      up.Parts();
      if closed {
        return;
      }
      match ev
      case Announce =>
        if !down.announced {
          down.Announce(netifInfo);
        }
      case Await(polls) =>
        if down.announced && up.link == null {
          up.Await(polls);
        }
      case Down(x) => StepDown(x);
      case Up(x) =>
        if !x.Open? && !(x.Uart2WifiCall? && down.sender.overrun) {
          up.Step(x);
        }
        closed := x.Stop?;
    }

    method StepDown(ev: Downlink.Event)
      requires Valid() && !closed
      modifies down.Repr, up.Repr
      ensures Valid() && fresh(down.Repr - old(down.Repr)) && up.Repr == old(up.Repr) && up.link == old(up.link)
      ensures State() == AfterDown(old(State()), up.netdev.capacity, ev)
      ensures down.accepted == old(down.accepted) + old(TakenDown(ev)) && up.Accepted() == old(up.Accepted())
      ensures up.esp.output == old(up.esp.output)
    {
      hide SessionDown.Down.Valid, SessionUp.Up.Valid, FirstAlone, NetifFrame, ZeroTail,
           SessionDown.Down.State, SessionUp.Up.State;
      down.Parts();
      up.Parts();
      match ev
      case Offer(p, elementOk, dataOk) =>
        if up.link != null {
          down.Offer(p, elementOk, dataOk);
        }
      case Send(cnt) =>
        if up.link != null {
          down.Send(cnt);
        }
      case Receive(count, allocs) =>
        if down.announced {
          Receive(count, allocs);
        }
    }

    /** The driver's line discipline is given bytes; when it has its 15 it writes the echo. */
    method Receive(count: nat, allocs: seq<bool>)
      requires Valid() && down.announced
      modifies down.Repr, up.Repr
      ensures Valid() && fresh(down.Repr - old(down.Repr)) && up.Repr == old(up.Repr) && up.link == old(up.link)
      ensures State() == Heard(old(State()), up.netdev.capacity, count, allocs)
      ensures down.accepted == old(down.accepted) && up.Accepted() == old(up.Accepted())
      ensures up.esp.output == old(up.esp.output) && down.announced
      ensures HostAsWritten.AllTrue(allocs) && count >= old(|down.wire|) && old(down.sender.uartSendLen) == 0 ==>
                down.port.netifValid
    {
      hide SessionDown.Down.Valid, SessionUp.Up.Valid, FirstAlone, NetifFrame, ZeroTail,
           SessionDown.Down.State, SessionUp.Up.State;
      down.Parts();
      up.Parts();
      down.Receive(count, allocs);
      down.Parts();
      if down.port.netifValid && !up.echoed {
        up.DoEcho(down.port.echo);
      }
    }

    /** Any run. */
    method Run(events: seq<Event>)
      requires Valid() && forall ev <- events :: EventOk(ev)
      modifies this, down.Repr, up.Repr
      ensures Valid() && fresh(down.Repr - old(down.Repr)) && fresh(up.Repr - old(up.Repr))
      ensures State() == AfterAll(old(State()), Fixed(), events)
      ensures old(down.accepted) <= down.accepted && old(up.Accepted()) <= up.Accepted()
      ensures closed == (old(closed) || exists ev <- events :: Stops(ev))
    {
      hide SessionDown.Down.Valid, SessionUp.Up.Valid, NetifFrame, After, Stops;
      hide Link.State, Link.TakenDown, Link.TakenUp;
      for i := 0 to |events|
        invariant Valid() && fresh(down.Repr - old(down.Repr)) && fresh(up.Repr - old(up.Repr))
        invariant old(down.accepted) <= down.accepted && old(up.Accepted()) <= up.Accepted()
        invariant State() == AfterAll(old(State()), Fixed(), events[..i])
        invariant closed == (old(closed) || exists k :: 0 <= k < i && Stops(events[k]))
      {
        assert events[i] in events;
        AfterOneMore(old(State()), Fixed(), events, i);
        Step(events[i]);
      }
      assert events[..|events|] == events;
    }

    /** From every reachable state of an open session: the announcement, the bytes on both lines, and readings
        and memory that are there when needed make the firmware run and leave nothing on the way, or
        lead to an overrun, exactly if the queue ever took a packet above 1500 bytes. */
    method Flush()
      requires Valid() && !closed
      modifies down.Repr, up.Repr
      ensures Valid() && down.accepted == old(down.accepted) && up.Accepted() == old(up.Accepted())
      ensures up.link != null && down.wire == []
      ensures down.port.host.delivered == down.accepted <==> AllCarried(down.accepted)
      ensures if down.sender.overrun then !AllFit(down.accepted) else AllFit(down.accepted) && down.Drained()
      ensures !down.sender.overrun ==> Lost(up.Accepted(), up.esp.output)
      ensures down.sender.overrun && old(up.link) != null ==> up.esp.output == old(up.esp.output)
    {
      hide SessionDown.Down.Valid, SessionUp.Up.Valid, FirstAlone, NetifFrame, ZeroTail,
           SessionDown.Down.State, SessionUp.Up.State;
      Connect();
      down.Parts();
      up.Parts();
      down.Flush();
      down.Parts();
      if !down.sender.overrun {
        up.Flush();
      }
    }

    /** The handshake, from wherever it stands. */
    method Connect()
      requires Valid()
      modifies down.Repr, up.Repr
      ensures Valid() && fresh(down.Repr - old(down.Repr)) && fresh(up.Repr - old(up.Repr))
      ensures down.accepted == old(down.accepted) && up.Accepted() == old(up.Accepted()) && up.link != null
      ensures old(up.link) != null ==> up.esp.output == old(up.esp.output)
    {
      hide SessionDown.Down.Valid, SessionUp.Up.Valid, FirstAlone, NetifFrame, ZeroTail,
           SessionDown.Down.State, SessionUp.Up.State;
      down.Parts();
      up.Parts();
      if !down.announced {
        down.Announce(netifInfo);
        down.Parts();
      }
      if !down.port.netifValid {
        Receive(|down.wire|, []);
      }
      up.Open();
    }
  }

  predicate Stops(ev: Event) {
    ev.Up? && ev.up.Stop?
  }

  /** Of the packets accepted, exactly what is decoded from behind the first split byte of the first frame has
      been put out: all only if there were none, and all but the first if that holds no split byte. */
  predicate Lost(accepted: seq<bytes>, output: seq<bytes>) {
    && (output == accepted <==> accepted == [])
    && (accepted != [] && Uplink.AllShort(accepted) ==>
          output == Parse(true, AfterSplit(Encode(accepted[0])) + EncodeAll(accepted[1..])).packets)
    && (FirstAlone(accepted) ==> output == accepted[1..])
  }

  /** What came of a session: the announcement sent, what the driver stored, the packets the firmware's queue
      took and the driver delivered, and those the driver took and the firmware put out. */
  datatype Summary = Summary(sent: bytes, stored: bytes, taken: seq<bytes>, delivered: seq<bytes>,
                             accepted: seq<bytes>, output: seq<bytes>)

  /** For any interfaces and address and any run of both ends, the lines being emptied at the end unless the
      interface was stopped. The packets taken on both sides are those of the run. In a session that was
      not stopped the handshake succeeds on the announcement sent, the driver has delivered exactly the
      packets the queue took if these have 20 to 1500 bytes, and of the packets the driver took
      exactly those of `Lost` are lost. In one that was, things are as the run left them. */
  method FirstSessionOfBoth(netifs: seq<NetifEntry>, ip: bytes, capacity: nat, events: seq<Event>)
    returns (s: Summary)
    requires (forall x <- netifs :: EntryOk(x)) && capacity >= MAX_FRAME_LEN && forall ev <- events :: EventOk(ev)
    ensures s.sent == [] <==> forall x <- netifs :: x.ip != ip
    ensures s.sent != [] ==> exists x <- netifs :: x.ip == ip && Announces(s.sent, x)
    ensures s.sent != [] ==>
              var v := AfterAll(Start, Setup(s.sent[2..14], s.sent, capacity), events);
              && s.taken == v.down.accepted && s.accepted == v.up.link.accepted
              && (v.closed <==> exists ev <- events :: Stops(ev))
              && (v.closed ==> s.output == v.up.link.esp.output)
              && (v.closed && v.down.mode.Connected? ==>
                    s.stored == v.down.mode.stored && s.delivered == v.down.mode.host.delivered)
    ensures !(exists ev <- events :: Stops(ev)) ==>
              && s.stored == s.sent && (s.delivered == s.taken <==> AllCarried(s.taken))
              && (AllFit(s.taken) ==> Lost(s.accepted, s.output))
    ensures AllCarried(s.taken) ==> s.delivered <= s.taken
    ensures s.delivered != [] || s.output != [] ==> s.stored == s.sent
    ensures FirstAlone(s.accepted) ==> s.output <= s.accepted[1..]
  {
    hide SessionDown.Down.Valid, SessionUp.Up.Valid, ZeroTail, NetifFrame, Parse, EncodeAll, After;
    var target, sent := Announcement(netifs, ip);
    if target.None? {
      return Summary([], [], [], [], [], []);
    }
    FrameAnnounces(target.value);
    var link := new Link(Addresses(target.value), sent, capacity);
    link.Run(events);
    ghost var v := link.State();
    if !link.closed {
      link.Flush();
    }
    link.InOrder();
    link.down.InOrder();
    link.down.Parts();
    var d, u := link.down, link.up;
    s := Summary(sent, d.port.netifInfo[..INFO_LEN], d.accepted, d.port.host.delivered, u.Accepted(), u.esp.output);
  }
}
