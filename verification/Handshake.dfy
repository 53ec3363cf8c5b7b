/**
 The address handshake. The firmware announces its address, mask and gateway in a 15-byte command
 frame; the driver echoes its 64-byte copy; the firmware opens the data path only on an echo that
 begins with what it sent. The 49 bytes behind the echoed frame stay in the data path.
 */
module Handshake {
  import opened Framing
  import opened EspAsWritten
  import opened EspReceiver
  import opened HostTransmit
  import Uplink

  // ---------------------------------------------------------------------------
  // Agreement
  // ---------------------------------------------------------------------------

  lemma SliceOfRest(s: bytes, a: nat, j: nat)
    requires a + j + 15 <= |s|
    ensures s[a..][j..j + 15] == s[a + j..a + j + 15]
    ensures s[a..][j + 2..j + 14] == s[a + j + 2..a + j + 14] && s[a..][j + 15..] == s[a + j + 15..]
  {
  }

  /** If the reader finds its frame, the frame stands somewhere in the bytes it was given. */
  lemma {:induction false} FoundSomewhere(addresses: bytes, synced: bool, s: bytes) returns (k: nat)
    requires Next(Netif(addresses), synced, s).Got?
    ensures k + INFO_LEN <= |s| && s[k..k + INFO_LEN] == NetifFrame(addresses)
    ensures Next(Netif(addresses), synced, s) == Got(s[k + 2..k + 14], s[k + 15..])
    decreases |s|, if synced then 2 else 1
  {
    hide Next, NetifFrame;
    var g := Netif(addresses);
    if !synced {
      k := FoundAfterSplit(addresses, s);
    } else if Accepted(g, s) {
      NextAccepted(g, s, []);
      assert s + [] == s && s[15..] + [] == s[15..];
      k := 0;
    } else if |s| < 2 || (LengthOk(g, I16(s)) && |s| < I16(s) + 3) {
      NextShort(g, s);
      assert false;
    } else {
      NextBad(g, s);
      k := FoundSomewhere(addresses, false, s);
    }
  }

  lemma {:induction false} FoundAfterSplit(addresses: bytes, s: bytes) returns (k: nat)
    requires Next(Netif(addresses), false, s).Got?
    ensures k + INFO_LEN <= |s| && s[k..k + INFO_LEN] == NetifFrame(addresses)
    ensures Next(Netif(addresses), false, s) == Got(s[k + 2..k + 14], s[k + 15..])
    decreases |s|, 0
  {
    hide Next, NetifFrame, BodyOk;
    var g, f := Netif(addresses), Find(s, SPLIT_CMD);
    if f == |s| {
      assert s[..f] == s;
      NextLost(g, s, []);
      assert false;
    }
    assert s == s[..f] + [SPLIT_CMD] + s[f + 1..];
    NextLost(g, s[..f], s[f + 1..]);
    var j := FoundSomewhere(addresses, true, s[f + 1..]);
    k := f + 1 + j;
    SliceOfRest(s, f + 1, j);
  }

  /** An echo of 64 bytes, with no command split byte behind its first 15, satisfies the reader
      exactly if its first 15 bytes are the announcement. Address bytes equal to the split byte
      make the reader resynchronise inside the echo, but never into a false match. */
  lemma EchoAgreement(addresses: bytes, echo: bytes)
    requires |echo| == ECHO_LEN && SPLIT_CMD !in echo[INFO_LEN..] && |addresses| == 12
    ensures Next(Netif(addresses), true, echo).Got? <==> echo[..INFO_LEN] == NetifFrame(addresses)
    ensures Next(Netif(addresses), true, echo).Got? ==>
              Next(Netif(addresses), true, echo) == Got(addresses, echo[INFO_LEN..])
  {
    hide Next;
    var f := NetifFrame(addresses);
    if echo[..15] == f {
      assert I16(echo) == I16(f) == 12 && echo[14] == f[14];
      NextAccepted(Netif(addresses), echo, []);
      assert echo + [] == echo && echo[15..] + [] == echo[15..] && echo[2..14] == f[2..14] == addresses;
    }
    if Next(Netif(addresses), true, echo).Got? {
      var k := FoundSomewhere(addresses, true, echo);
      assert echo[k + 14] == echo[k..k + 15][14] == SPLIT_CMD;
      assert forall i :: 15 <= i < 64 ==> echo[i] == echo[15..][i - 15];
      assert k == 0 && echo[..15] == echo[0..15];
    }
  }

  // ---------------------------------------------------------------------------
  // What the rest of the echo does to the data path
  // ---------------------------------------------------------------------------

  lemma {:induction false} PacketsFit(synced: bool, s: bytes)
    ensures |EncodeAll(Parse(synced, s).packets)| + |Parse(synced, s).rest| <= |s|
    decreases |s|
  {
    hide Next;
    match Next(Data, synced, s)
    case Need(_, _) =>
    case Got(p, r) =>
      PacketsFit(true, r);
      assert ([p] + Parse(true, r).packets)[1..] == Parse(true, r).packets;
  }

  function AfterSplit(s: bytes): bytes {
    var k := Find(s, SPLIT_DATA);
    if k < |s| then s[k + 1..] else []
  }

  /** Bytes without a data split byte that do not start with a length, put before the first frame,
      cost that frame: decoding resumes behind the first split byte inside it. */
  lemma TailCostsAFrame(tail: bytes, p: bytes, ps: seq<bytes>)
    requires |tail| >= 2 && SPLIT_DATA !in tail && !LengthOk(Data, I16(tail))
    ensures var s, f := tail + EncodeAll([p] + ps), Encode(p);
            && Parse(true, s) == Parse(true, AfterSplit(f) + EncodeAll(ps))
            && Parse(true, s).packets != [p] + ps
            && (AllCarried(ps) && SPLIT_DATA !in f[..|f| - 1] ==> Parse(true, s) == Parsed(ps, true, []))
  {
    hide Next, Parse, EncodeAll;
    var s, f := tail + EncodeAll([p] + ps), Encode(p);
    EncodeAllAppend([p], ps);
    EncodeOne(p);
    ResumesInside(tail, f, EncodeAll(ps));
    var left := AfterSplit(f) + EncodeAll(ps);
    assert s == tail + f + EncodeAll(ps);
    PacketsFit(true, left);
    if SPLIT_DATA !in f[..|f| - 1] {
      FindIs(f, SPLIT_DATA, |f| - 1);
      assert left == EncodeAll(ps);
      RoundTrip(ps);
    }
  }

  /** Such bytes alone hold no packet, so what follows a start-up that left them behind comes through
      whole only if it is nothing at all. */
  lemma TailCosts(tail: bytes, accepted: seq<bytes>)
    requires |tail| >= 2 && SPLIT_DATA !in tail && !LengthOk(Data, I16(tail))
    ensures Parse(true, tail + EncodeAll(accepted)).packets == accepted <==> accepted == []
    ensures accepted != [] ==>
              Parse(true, tail + EncodeAll(accepted))
              == Parse(true, AfterSplit(Encode(accepted[0])) + EncodeAll(accepted[1..]))
    ensures accepted != [] && AllCarried(accepted[1..]) && SPLIT_DATA !in Encode(accepted[0])[..|accepted[0]| + 2] ==>
              Parse(true, tail + EncodeAll(accepted)).packets == accepted[1..]
  {
    hide Next, Parse, EncodeAll;
    if accepted == [] {
      NothingEncoded();
      assert tail + [] == tail;
      TailHoldsNothing(tail);
    } else {
      assert accepted == [accepted[0]] + accepted[1..];
      TailCostsAFrame(tail, accepted[0], accepted[1..]);
    }
  }

  lemma TailHoldsNothing(tail: bytes)
    requires |tail| >= 2 && SPLIT_DATA !in tail && !LengthOk(Data, I16(tail))
    ensures Parse(true, tail).packets == []
  {
    hide Next;
    NextBad(Data, tail);
    NextLost(Data, tail, []);
  }

  lemma EncodeOne(p: bytes)
    ensures EncodeAll([p]) == Encode(p)
  {
    assert [p][1..] == [];
  }

  lemma ResumesInside(tail: bytes, f: bytes, t: bytes)
    requires |tail| >= 2 && SPLIT_DATA !in tail && !LengthOk(Data, I16(tail)) && SPLIT_DATA in f
    ensures Parse(true, tail + f + t) == Parse(true, AfterSplit(f) + t) && |AfterSplit(f)| < |f|
  {
    hide Next, Parse;
    var s, k := tail + f + t, Find(f, SPLIT_DATA);
    assert f[..|f|] == f && k < |f|;
    assert s == (tail + f[..k]) + [SPLIT_DATA] + (f[k + 1..] + t);
    assert I16(s) == I16(tail);
    NextBad(Data, s);
    NextLost(Data, tail + f[..k], f[k + 1..] + t);
    ParseByNext(true, s, true, f[k + 1..] + t);
  }

  // ---------------------------------------------------------------------------
  // start_hock
  // ---------------------------------------------------------------------------

  datatype NetifEntry = NetifEntry(ip: bytes, netmask: bytes, gw: bytes)

  predicate EntryOk(x: NetifEntry) {
    |x.ip| == 4 && |x.netmask| == 4 && |x.gw| == 4
  }

  function Addresses(x: NetifEntry): bytes {
    x.ip + x.netmask + x.gw
  }

  /** The 15 bytes that announce an interface: the length word, address, mask and gateway, the split byte. */
  predicate Announces(sent: bytes, x: NetifEntry) {
    && |sent| == INFO_LEN && sent[0] == 12 && sent[1] == 0
    && sent[2..6] == x.ip && sent[6..10] == x.netmask && sent[10..14] == x.gw
    && sent[14] == 0xaa
  }

  lemma FrameAnnounces(x: NetifEntry)
    requires EntryOk(x)
    ensures Announces(NetifFrame(Addresses(x)), x) && NetifFrame(Addresses(x))[2..14] == Addresses(x)
  {
    var sent := NetifFrame(Addresses(x));
    assert sent[2..14] == Addresses(x);
    assert sent[2..6] == Addresses(x)[..4] == x.ip;
    assert sent[6..10] == Addresses(x)[4..8] == x.netmask;
    assert sent[10..14] == Addresses(x)[8..] == x.gw;
  }

  /** Walks the interface list to the first entry with the address, and frames its announcement. */
  method Announcement(netifs: seq<NetifEntry>, ip: bytes) returns (target: Option<NetifEntry>, sent: bytes)
    ensures target.Some? ==> target.value in netifs && target.value.ip == ip
    ensures target.Some? ==> sent == NetifFrame(Addresses(target.value))
    ensures target.Some? && EntryOk(target.value) ==> Announces(sent, target.value)
    ensures target.None? <==> forall x <- netifs :: x.ip != ip
    ensures target.None? ==> sent == []
    ensures target.Some? ==>
              exists i :: 0 <= i < |netifs| && netifs[i] == target.value && forall x <- netifs[..i] :: x.ip != ip
  {
    var i := 0;
    while i < |netifs| && netifs[i].ip != ip
      invariant 0 <= i <= |netifs| && forall x <- netifs[..i] :: x.ip != ip
    {
      i := i + 1;
    }
    if i == |netifs| {
      assert netifs[..i] == netifs;
      return None, [];
    }
    assert netifs[i] in netifs;
    if EntryOk(netifs[i]) {
      FrameAnnounces(netifs[i]);
    }
    return Some(netifs[i]), NetifFrame(Addresses(netifs[i]));
  }

  /** The firmware's receiving side when its reader has spun for the echo with some FIFO readings. */
  function Opening(addresses: bytes, e: Esp, polls: seq<nat>): Esp {
    var g := Netif(addresses);
    var r := Spin(g, At(e, polls));
    if r.ready then e.(status := STATUS_LEN, buf := BehindFront(g, r.spot.buf), rx := r.spot.rx)
    else e.(status := r.spot.status, buf := r.spot.buf, rx := r.spot.rx)
  }

  /** Looks the interface up by address, announces it, and spins for the echo. `running` is the
      point where the data path is switched on. */
  method StartHock(netifs: seq<NetifEntry>, ip: bytes, esp: Receiver)
    returns (target: Option<NetifEntry>, sent: bytes, running: bool)
    requires forall x <- netifs :: EntryOk(x)
    requires esp.InBounds() && (forall h :: esp.Valid(h)) && esp.status == STATUS_LEN
    modifies esp, esp.uartRecvBuffer
    ensures target.Some? ==>
              && target.value in netifs && target.value.ip == ip && Announces(sent, target.value)
              && sent == NetifFrame(Addresses(target.value))
              && esp.InBounds() && esp.State() == Opening(Addresses(target.value), old(esp.State()), old(esp.polls))
              && running == Spin(Netif(Addresses(target.value)), old(esp.Here())).ready
    ensures target.None? ==> !running && sent == [] && forall x <- netifs :: x.ip != ip
    ensures running ==> target.Some? && esp.Valid(Data) && esp.output == [] && esp.total == esp.Buf() + esp.rx
    ensures var echo := old(esp.Buf() + esp.rx);
            |echo| == ECHO_LEN && SPLIT_CMD !in echo[INFO_LEN..] ==>
              && (running ==> echo[..INFO_LEN] == sent && esp.total == echo[INFO_LEN..])
              && (target.Some? && echo[..INFO_LEN] == sent && old(Plenty(esp.polls, esp.rx)) ==> running)
  {
    hide Next, Parse, Accounted, Refines, BodyOk, NetifFrame;
    target, sent := Announcement(netifs, ip);
    if target.None? {
      return None, [], false;
    }
    var addresses := Addresses(target.value);
    ghost var echo := esp.Buf() + esp.rx;
    if |echo| == ECHO_LEN && SPLIT_CMD !in echo[INFO_LEN..] {
      EchoAgreement(addresses, echo);
    }
    assert esp.Valid(Netif(addresses));
    var r := esp.RecvCommand(Netif(addresses));
    running := r.Some?;
    assert esp.Valid(Netif(addresses)) && old(esp.Valid(Netif(addresses)));
    if !running && Next(Netif(addresses), true, echo).Got? {
      assert esp.rx == [] ==> esp.Buf() + esp.rx == esp.Buf();
    }
  }

  /** There are packets, the first holds no data split byte, and the others can be carried. */
  predicate FirstAlone(ps: seq<bytes>) {
    && ps != [] && |ps[0]| < 0x1_0000 && AllCarried(ps[1..])
    && SPLIT_DATA !in Encode(ps[0])[..|ps[0]| + 2]
  }

  lemma CarriedShort(ps: seq<bytes>)
    ensures AllCarried(ps) || FirstAlone(ps) ==> Uplink.AllShort(ps)
  {
    if FirstAlone(ps) {
      assert forall p <- ps :: p == ps[0] || p in ps[1..];
    }
  }

  /** The data path when it has just been switched on, with an idle driver. */
  function DataStart(e: Esp): Uplink.View {
    Uplink.View(Net([], false, false, false, 0, 0), e, [])
  }

  /** The data phase from its start to an empty line. */
  method DataPhase(esp: Receiver, capacity: nat, events: seq<Uplink.Event>)
    returns (accepted: seq<bytes>, output: seq<bytes>)
    requires esp.Valid(Data) && esp.output == [] && capacity >= MAX_FRAME_LEN
    requires forall ev <- events :: Uplink.EventOk(ev)
    modifies esp, esp.uartRecvBuffer
    ensures Uplink.AllShort(accepted) ==> output == Parse(true, old(esp.total) + EncodeAll(accepted)).packets
    ensures AllCarried(output)
    ensures accepted == Uplink.AfterAll(DataStart(old(esp.State())), capacity, events).accepted
  {
    hide Next, Parse, Accounted, Refines, BodyOk, EncodeAll, Uplink.EventOk;
    var netdev := new Netdev(capacity);
    assert esp.total + netdev.ttyBuf == esp.total;
    var link := new Uplink.Link(netdev, esp);
    ghost var strands := link.Run(events);
    link.Flush();
    return link.accepted, esp.output;
  }

  /** A whole first session of the firmware: the handshake, then any run of the driver's
      transmissions, and the line emptied at the end. If the data path opens, the packets put on
      the network are those of the leftover echo bytes followed by the accepted packets' frames; with an
      echo tail that holds no data split byte and no length, as zeros and dotted decimal
      text do, the first packet is always lost, and if it holds no data split byte the
      others all come through. */
  method FirstSession(netifs: seq<NetifEntry>, ip: bytes, echo: bytes, polls: seq<nat>,
                      capacity: nat, events: seq<Uplink.Event>)
    returns (sent: bytes, running: bool, accepted: seq<bytes>, output: seq<bytes>)
    requires (forall x <- netifs :: EntryOk(x)) && (forall ev <- events :: Uplink.EventOk(ev))
    requires |echo| == ECHO_LEN && SPLIT_CMD !in echo[INFO_LEN..] && capacity >= MAX_FRAME_LEN
    ensures sent == [] <==> forall x <- netifs :: x.ip != ip
    ensures sent != [] ==> exists x <- netifs :: x.ip == ip && Announces(sent, x)
    ensures var e := Esp(STATUS_LEN, [], echo, None, []);
            sent != [] ==>
              && running == Spin(Netif(sent[2..14]), At(e, polls)).ready
              && (running ==>
                    var v := DataStart(Opening(sent[2..14], e, polls));
                    accepted == Uplink.AfterAll(v, capacity, events).accepted)
    ensures Plenty(polls, echo) ==> (running <==> echo[..INFO_LEN] == sent)
    ensures running && Uplink.AllShort(accepted) ==>
              output == Parse(true, echo[INFO_LEN..] + EncodeAll(accepted)).packets
    ensures var tail := echo[INFO_LEN..];
            running && SPLIT_DATA !in tail && !LengthOk(Data, I16(tail)) ==>
              && (output == accepted <==> accepted == [])
              && (accepted != [] && Uplink.AllShort(accepted) ==>
                    output == Parse(true, AfterSplit(Encode(accepted[0])) + EncodeAll(accepted[1..])).packets)
              && (FirstAlone(accepted) ==> output == accepted[1..])
  {
    hide Next, Parse, Accounted, Refines, BodyOk, EncodeAll, Uplink.EventOk;
    var esp := new Receiver();
    esp.Arrive(Netif([]), echo);
    assert esp.Buf() + esp.rx == echo && esp.status == STATUS_LEN;
    assert esp.Valid(Netif([])) && esp.State() == Esp(STATUS_LEN, [], echo, None, []);
    esp.polls := polls;
    esp.AnyPhase(Netif([]));
    var target;
    target, sent, running := StartHock(netifs, ip, esp);
    if target.Some? {
      FrameAnnounces(target.value);
    }
    if !running {
      return sent, false, [], [];
    }
    accepted, output := DataPhase(esp, capacity, events);
    var tail := echo[INFO_LEN..];
    if SPLIT_DATA !in tail && !LengthOk(Data, I16(tail)) {
      TailCosts(tail, accepted);
      CarriedShort(accepted);
    }
  }
}
