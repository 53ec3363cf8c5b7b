/**
 The driver-to-firmware half of a first session: the echo of the announcement and the firmware's
 reader that spins for it, then the data phase on the same buffers and the same line.
 */
module SessionUp {
  import opened Framing
  import opened EspAsWritten
  import opened EspReceiver
  import opened HostTransmit
  import opened Handshake
  import opened NetifText
  import Uplink

  function Echo(addresses: bytes): bytes {
    NetifFrame(addresses) + ZeroTail()
  }

  lemma EchoParts(addresses: bytes)
    requires |addresses| == 12
    ensures |NetifFrame(addresses)| == INFO_LEN && |Echo(addresses)| == ECHO_LEN
    ensures Echo(addresses)[..INFO_LEN] == NetifFrame(addresses)
    ensures Echo(addresses)[INFO_LEN..] == ZeroTail()
    ensures NetifFrame(addresses) == [12, 0] + addresses + [SPLIT_CMD]
  {
  }

  /** However much of the echo has arrived, the reader has its frame exactly if 15 bytes have, and
      leaves exactly the others. */
  lemma EchoSoFar(addresses: bytes, s: bytes)
    requires |addresses| == 12 && s <= Echo(addresses)
    ensures if |s| < INFO_LEN then Next(Netif(addresses), true, s) == Need(true, s)
            else Next(Netif(addresses), true, s) == Got(addresses, s[INFO_LEN..])
  {
    hide Next, NetifFrame, Echo, BodyOk;
    EchoParts(addresses);
    var g, f := Netif(addresses), NetifFrame(addresses);
    if |s| < 15 {
      assert s == f[..|s|] by { assert Echo(addresses)[..|s|] == Echo(addresses)[..15][..|s|]; }
      NextShort(g, s);
    } else {
      var rest := s[15..];
      assert s == f + rest by { assert s[..15] == Echo(addresses)[..15]; }
      FrameFirst(addresses, rest);
    }
  }

  lemma FrameFirst(addresses: bytes, rest: bytes)
    requires |addresses| == 12
    ensures Next(Netif(addresses), true, NetifFrame(addresses) + rest) == Got(addresses, rest)
  {
    hide Next;
    var f := NetifFrame(addresses);
    assert I16(f) == 12 && f[2..14] == addresses && f[..15] == f && f[15..] + rest == rest;
    NextAccepted(Netif(addresses), f, rest);
  }

  /** What the rest of the echo costs. */
  lemma ZerosCost(ps: seq<bytes>)
    ensures var r := Parse(true, ZeroTail() + EncodeAll(ps)).packets;
            && (r == ps <==> ps == [])
            && (ps != [] ==> r == Parse(true, AfterSplit(Encode(ps[0])) + EncodeAll(ps[1..])).packets)
            && (FirstAlone(ps) ==> r == ps[1..])
  {
    hide Parse, EncodeAll, Encode;
    TailCosts(ZeroTail(), ps);
  }

  // ---------------------------------------------------------------------------
  // The state and its steps
  // ---------------------------------------------------------------------------

  /** The data path with the bytes on the line, whether the firmware runs, and whether the driver has echoed. */
  datatype UpView = UpView(link: Uplink.View, running: bool, echoed: bool)

  const UpStart :=
    UpView(Uplink.View(Net([], false, false, false, 0, 0), Esp(STATUS_LEN, [], [], None, []), []), false, false)

  function Echoes(v: UpView, capacity: nat, info: bytes): UpView {
    v.(echoed := true, link := v.link.(net := v.link.net.(ttyBuf := Cut(v.link.net.ttyBuf + info, capacity))))
  }

  /** The reader spins on, or has its frame and the data path opens. */
  function Awaited(v: UpView, addresses: bytes, polls: seq<nat>): UpView {
    v.(running := Spin(Netif(addresses), At(v.link.esp, polls)).ready,
       link := v.link.(esp := Opening(addresses, v.link.esp, polls)))
  }

  /** Before the firmware runs, its line stays down and it forwards nothing. */
  function UpAfter(v: UpView, capacity: nat, ev: Uplink.Event): (w: UpView)
    requires Uplink.EventOk(ev) && |v.link.net.ttyBuf| <= capacity
    ensures |w.link.net.ttyBuf| <= capacity
  {
    if !v.running && (ev.LinkUp? || ev.Uart2WifiCall?) then v
    else v.(link := Uplink.After(v.link, capacity, ev))
  }

  class Up {
    const netdev: Netdev
    const esp: Receiver
    const addresses: bytes
    var echoed: bool
    var link: Uplink.Link?  // the data phase, once the firmware is running
    ghost var Repr: set<object>

    ghost predicate Valid()
      reads this, Repr
    {
      && this in Repr && netdev in Repr && esp in Repr && esp.uartRecvBuffer in Repr && (link != null ==> link in Repr)
      && |addresses| == 12 && netdev.Sound()
      && if link == null then Starting() else echoed && Running(link)
    }

    ghost function State(): UpView
      requires Valid()
      reads this, Repr
    {
      UpView(Uplink.View(netdev.State(), esp.State(), Accepted()), link != null, echoed)
    }

    /** Before the data phase: no carrier, and the reader has taken nothing for its frame yet. */
    ghost predicate Starting()
      reads this, netdev, esp, esp.uartRecvBuffer
    {
      && !netdev.carrier && esp.Valid(Netif(addresses))
      && esp.total + netdev.ttyBuf == (if echoed then Echo(addresses) else [])
      && Next(Netif(addresses), esp.Synced(), esp.Buf() + esp.rx) == Next(Netif(addresses), true, esp.total)
    }

    ghost predicate Running(link: Uplink.Link)
      reads this, link, netdev, esp, esp.uartRecvBuffer
    {
      link.netdev == netdev && link.esp == esp && link.prefix == ZeroTail() && link.Valid()
    }

    constructor (addresses: bytes, capacity: nat)
      requires |addresses| == 12 && capacity >= MAX_FRAME_LEN
      ensures Valid() && fresh(Repr) && this.addresses == addresses && !echoed && link == null
      ensures State() == UpStart && netdev.capacity == capacity
    {
      hide Next, Parse, Accounted, Refines, NetifFrame;
      var n := new Netdev(capacity);
      var r := new Receiver();
      netdev, esp, this.addresses, echoed, link := n, r, addresses, false, null;
      new;
      Repr := {this, n, r, r.uartRecvBuffer};
      assert r.Buf() + r.rx == [];
    }

    /** What the other end needs to know. */
    lemma Parts()
      requires Valid()
      ensures this in Repr && esp in Repr && esp.uartRecvBuffer in Repr && netdev in Repr
      ensures link != null ==> link in Repr && echoed
      ensures link == null ==> !netdev.carrier
      ensures var v := State();
              && v.running == (link != null) && v.echoed == echoed && v.link.net == netdev.State()
              && |v.link.net.ttyBuf| <= netdev.capacity && v.link.accepted == Accepted()
    {
    }

    /** What the driver took for transmission. */
    function Accepted(): seq<bytes>
      reads this, link
    {
      if link == null then [] else link.accepted
    }

    /** The driver writes its copy of the announcement back. */
    method DoEcho(info: bytes)
      requires Valid() && !echoed && info == Echo(addresses)
      modifies this`echoed, netdev
      ensures Valid() && echoed && link == null && State() == Echoes(old(State()), netdev.capacity, info)
    {
      hide Next, Parse, Accounted, Refines, NetifFrame, Echo;
      EchoParts(addresses);
      netdev.Write(info);
      echoed := true;
      assert esp.total + netdev.ttyBuf == info;
    }

    /** `recv_netif_info` with the FIFO readings in `polls`: it is still spinning, or the data path opens. */
    method Await(polls: seq<nat>)
      requires Valid() && link == null
      modifies this`link, this`Repr, esp, esp.uartRecvBuffer
      ensures Valid() && fresh(Repr - old(Repr)) && echoed == old(echoed) && Accepted() == []
      ensures State() == Awaited(old(State()), addresses, polls)
      ensures echoed && netdev.ttyBuf == [] && Plenty(polls, old(esp.rx)) ==> link != null
    {
      hide Next, Parse, Accounted, Refines, NetifFrame, Echo, BodyOk, LengthOk, Plenty, Spin;
      ghost var total := esp.total;
      assert total <= Echo(addresses) by {
        assert total == (total + netdev.ttyBuf)[..|total|];
      }
      EchoSoFar(addresses, total);
      esp.polls := polls;
      var r := esp.RecvCommand(Netif(addresses));
      if r.Some? {
        Opened(total, netdev.ttyBuf);
        link := new Uplink.Link(netdev, esp);
        Repr := Repr + {link};
      } else if echoed {
        Spinning();
      }
    }

    /** The reader spins on only because a reading came too early or the echo is not all there. */
    lemma Spinning()
      requires |addresses| == 12 && esp.InBounds() && esp.polls == [] && esp.total + netdev.ttyBuf == Echo(addresses)
      requires Next(Netif(addresses), esp.Synced(), esp.Buf() + esp.rx) == Next(Netif(addresses), true, esp.total)
      requires Next(Netif(addresses), esp.Synced(), esp.Buf()).Need?
      ensures netdev.ttyBuf != [] || !Plenty(esp.polls, esp.rx)
    {
      hide Next, Echo;
      EchoParts(addresses);
      if netdev.ttyBuf == [] && Plenty(esp.polls, esp.rx) {
        assert esp.total == Echo(addresses) && esp.Buf() + esp.rx == esp.Buf();
        EchoSoFar(addresses, esp.total);
      }
    }

    lemma Opened(total: bytes, tty: bytes)
      requires |addresses| == 12 && total + tty == Echo(addresses) && |total| >= INFO_LEN
      ensures total[INFO_LEN..] + tty == ZeroTail()
    {
      hide Echo;
      EchoParts(addresses);
      assert total[15..] + tty == (total + tty)[15..];
    }

    /** The serial line carries `count` bytes on. */
    method Serial(count: nat)
      requires Valid() && link == null
      modifies netdev, esp`rx, esp`total
      ensures Valid() && State() == old(State()).(link := Uplink.Carry(old(State()).link, count))
      ensures count >= old(|netdev.ttyBuf|) ==> netdev.ttyBuf == []
    {
      hide Next, Parse, Accounted, Refines, NetifFrame, Echo, BodyOk;
      var n := if count < |netdev.ttyBuf| then count else |netdev.ttyBuf|;
      if n == 0 {
        return;
      }
      var out := netdev.TxDone(n);
      ghost var s, t := esp.Synced(), esp.Buf() + esp.rx;
      Resumes(Netif(addresses), s, t, esp.total, out);
      esp.Arrive(Netif(addresses), out);
      assert esp.Buf() + esp.rx == t + out;
      assert old(netdev.ttyBuf) == out + netdev.ttyBuf;
      assert esp.total + netdev.ttyBuf == old(esp.total) + old(netdev.ttyBuf);
    }

    /** One step of the driver's sending side, of the line or of the running firmware. The carrier is on, and so
        packets are handed to the driver, only once the firmware runs. */
    method Step(ev: Uplink.Event)
      requires Valid() && Uplink.EventOk(ev)
      modifies Repr
      ensures Valid() && Repr == old(Repr) && echoed == old(echoed) && link == old(link)
      ensures State() == UpAfter(old(State()), netdev.capacity, ev)
      ensures old(esp.output) <= esp.output
      ensures Accepted() == old(Accepted()) + Uplink.Taken(ev, old(netdev.Running()), old(netdev.WriteRoom()))
    {
      hide Next, Parse, Accounted, Refines, NetifFrame, Echo, BodyOk, EncodeAll;
      if link != null {
        link.Step(ev);
        return;
      }
      match ev
      case SerialDone(count) => Serial(count);
      case Wakeup => netdev.WriteWakeup();
      case Open => netdev.Open();
      case Stop => netdev.Stop();
      case _ =>
    }

    /** In every reachable state, what the firmware has put on the network is a prefix of what the echo's
        rest and the accepted frames mean: what is decoded from behind the first split byte of the first
        frame sent, and so the other packets if the first holds no data split byte. */
    lemma InOrder()
      requires Valid()
      ensures link == null ==> esp.output == [] && Accepted() == []
      ensures link != null && Accepted() == [] ==> esp.output == []
      ensures link != null && Accepted() != [] && Uplink.AllShort(Accepted()) ==>
                esp.output <= Parse(true, AfterSplit(Encode(Accepted()[0])) + EncodeAll(Accepted()[1..])).packets
      ensures FirstAlone(Accepted()) ==> esp.output <= Accepted()[1..]
    {
      hide Next, Parse, Accounted, Refines, NetifFrame, Echo, BodyOk, EncodeAll, Encode, ZeroTail;
      if link != null {
        link.InOrder();
        ZerosCost(Accepted());
        CarriedShort(Accepted());
      }
    }

    /** A running firmware, once the line has sent what it holds and the network accepts: of the accepted
        packets exactly those behind the first loss are out, all of them only if there were none. */
    method Flush()
      requires Valid() && link != null
      modifies Repr
      ensures Valid() && Repr == old(Repr) && echoed == old(echoed) && link == old(link)
      ensures Accepted() == old(Accepted())
      ensures esp.output == Accepted() <==> Accepted() == []
      ensures Accepted() != [] && Uplink.AllShort(Accepted()) ==>
                esp.output == Parse(true, AfterSplit(Encode(Accepted()[0])) + EncodeAll(Accepted()[1..])).packets
      ensures FirstAlone(Accepted()) ==> esp.output == Accepted()[1..]
    {
      hide Next, Parse, Accounted, Refines, NetifFrame, Echo, BodyOk, EncodeAll, Encode, ZeroTail;
      link.Flush();
      ZerosCost(Accepted());
      CarriedShort(Accepted());
    }

    /** From any state in which the driver has echoed, the line and the reader get the firmware running. */
    method Open()
      requires Valid() && echoed
      modifies Repr
      ensures Valid() && fresh(Repr - old(Repr)) && echoed && link != null && Accepted() == old(Accepted())
      ensures old(link) != null ==> esp.output == old(esp.output)
    {
      hide Next, Parse, Accounted, Refines, NetifFrame, Echo, BodyOk;
      if link == null {
        Serial(|netdev.ttyBuf|);
        Await(seq(|esp.rx|, _ => UART_FIFO_LEN));
      }
    }
  }

  /** Two scans of the same outcome stay the same when both go on. */
  lemma Resumes(g: Grammar, m: bool, a: bytes, b: bytes, c: bytes)
    requires Next(g, m, a) == Next(g, true, b)
    ensures Next(g, m, a + c) == Next(g, true, b + c)
  {
    hide Next;
    NextAppend(g, m, a, c);
    NextAppend(g, true, b, c);
  }
}
