/**
 A concrete session, step by step: how the data path opens.
 */
module SessionExample {
  import opened Framing
  import opened Handshake
  import opened EspAsWritten
  import opened HostAsWritten
  import opened HostPort
  import opened NetifText
  import opened Session
  import NetifAsWritten
  import SessionUp
  import Downlink
  import Uplink

  /** The shortest way to an open data path: the announcement arrives at once, its echo is carried at once, and one
      reading of the FIFO suffices. The driver has the 15 bytes, the firmware runs, the carrier is on
      and the queue running, and the firmware holds the rest of the echo. */
  lemma Opens(s: Setup)
    requires |s.addresses| == 12 && s.netifInfo == NetifFrame(s.addresses) && s.capacity >= MAX_FRAME_LEN
    ensures var events := [Announce, Down(Downlink.Receive(15, [])), Up(Uplink.SerialDone(64)), Await([64]),
                           Up(Uplink.LinkUp)];
            var v := AfterAll(Start, s, events);
            && v.up.running && Uplink.Running(v.up.link.net) && v.up.link.net.ttyBuf == []
            && v.up.link.esp == Esp(STATUS_LEN, ZeroTail(), [], None, [])
            && v.down.mode == Connected(s.netifInfo, SessionUp.Echo(s.addresses), Drv(true, true, [], []))
            && v.down.wire == [] && !v.closed
  {
    hide After, AfterAll, SessionUp.Echo, ZeroTail;
    var e1, e2, e3, e4, e5 :=
      Announce, Down(Downlink.Receive(15, [])), Up(Uplink.SerialDone(64)), Await([64]), Up(Uplink.LinkUp);
    InFive(s, e1, e2, e3, e4, e5);
    var v2 := Hears(s);
    var v4 := Runs(s, v2);
    LinkUp(s, v4);
  }

  /** Announced and echoed. */
  lemma Hears(s: Setup) returns (v: View)
    requires |s.addresses| == 12 && s.netifInfo == NetifFrame(s.addresses) && s.capacity >= MAX_FRAME_LEN
    ensures v == After(After(Start, s, Announce), s, Down(Downlink.Receive(15, [])))
    ensures var echo := SessionUp.Echo(s.addresses);
            && v.down.announced && v.down.wire == []
            && v.down.mode == Connected(s.netifInfo, echo, Drv(true, true, [], []))
            && !v.down.sending.overrun && !v.closed && |echo| == 64
            && v.up == SessionUp.Echoes(SessionUp.UpStart, s.capacity, echo) && v.up.link.net.ttyBuf == echo
  {
    hide NetifFrame, ZeroTail, HostPort.Heard;
    SessionUp.EchoParts(s.addresses);
    HeardAtOnce(s.addresses);
    assert s.netifInfo[..15] == s.netifInfo;
    v := After(After(Start, s, Announce), s, Down(Downlink.Receive(15, [])));
    hide SessionUp.Echo;
    assert [] + SessionUp.Echo(s.addresses) == SessionUp.Echo(s.addresses);
  }

  /** The echo carried and read. */
  lemma Runs(s: Setup, v: View) returns (w: View)
    requires |s.addresses| == 12 && s.capacity >= MAX_FRAME_LEN && v.down.announced && !v.closed
    requires var echo := SessionUp.Echo(s.addresses);
             && |echo| == 64 && v.up == SessionUp.Echoes(SessionUp.UpStart, s.capacity, echo)
             && v.up.link.net.ttyBuf == echo
    ensures w == After(After(v, s, Up(Uplink.SerialDone(64))), s, Await([64]))
    ensures w.down == v.down && w.up.running && w.up.link.net.ttyBuf == [] && !w.closed
    ensures w.up.link.esp == Esp(STATUS_LEN, ZeroTail(), [], None, [])
  {
    hide SessionUp.Echo, ZeroTail, Spin;
    var echo := SessionUp.Echo(s.addresses);
    assert [] + echo == echo && echo[..64] == echo && echo[64..] == [];
    EchoAtOnce(s.addresses);
    w := After(After(v, s, Up(Uplink.SerialDone(64))), s, Await([64]));
  }

  lemma LinkUp(s: Setup, v: View)
    requires v.up.running && !v.closed && v.up.link.net.ttyBuf == []
    ensures var w := After(v, s, Up(Uplink.LinkUp));
            && w.down == v.down && w.up.running && Uplink.Running(w.up.link.net) && w.up.link.net.ttyBuf == []
            && w.up.link.esp == v.up.link.esp && !w.closed
  {
  }

  lemma InFive(s: Setup, e1: Event, e2: Event, e3: Event, e4: Event, e5: Event)
    requires EventOk(e1) && EventOk(e2) && EventOk(e3) && EventOk(e4) && EventOk(e5)
    ensures AfterAll(Start, s, [e1, e2, e3, e4, e5])
            == After(After(After(After(After(Start, s, e1), s, e2), s, e3), s, e4), s, e5)
  {
    hide After;
    var events := [e1, e2, e3, e4, e5];
    assert events[..0] == [] && events[..5] == events;
    AfterOneMore(Start, s, events, 0);
    AfterOneMore(Start, s, events, 1);
    AfterOneMore(Start, s, events, 2);
    AfterOneMore(Start, s, events, 3);
    AfterOneMore(Start, s, events, 4);
  }

  /** The whole announcement in one call. */
  lemma HeardAtOnce(addresses: bytes)
    requires |addresses| == 12
    ensures var f := NetifFrame(addresses);
            HostPort.Heard(Listening(STATUS_LEN, []), f, [], ZeroTail())
            == Reply(Connected(f, SessionUp.Echo(addresses), Drv(true, true, [], [])), 15)
  {
    hide ZeroTail, NetifAsWritten.Loops, NetifAsWritten.End;
    var f := NetifFrame(addresses);
    var x := NetifAsWritten.From(STATUS_LEN, [], f);
    assert x.info + f[0..] == f && f[..15] == f;
    NetifAsWritten.ProperRun(f, x);
  }

  /** The whole echo in one reading. */
  lemma EchoAtOnce(addresses: bytes)
    requires |addresses| == 12
    ensures var g := Netif(addresses);
            var x := Spot(STATUS_LEN, SessionUp.Echo(addresses), [], []);
            && Spin(g, At(Esp(STATUS_LEN, [], SessionUp.Echo(addresses), None, []), [64]))
               == Polled(true, x.(status := STATUS_DATA))
            && Accepted(g, SessionUp.Echo(addresses)) && BehindFront(g, SessionUp.Echo(addresses)) == ZeroTail()
  {
    hide Looped, SessionUp.Echo, ZeroTail;
    SessionUp.EchoParts(addresses);
    var g, e := Netif(addresses), SessionUp.Echo(addresses);
    var x := At(Esp(STATUS_LEN, [], e, None, []), [64]);
    assert e[..64] == e && e[64..] == [] && [] + e == e;
    var y := Spot(STATUS_LEN, e, [], []);
    assert Refilled(x) == y;
    assert e[0] == e[..15][0] && e[1] == e[..15][1] && e[14] == e[..15][14];
    TurnOnce(g, x);
    TurnOnce(g, y);
    TurnOnce(g, y.(status := STATUS_DATA));
  }
}
