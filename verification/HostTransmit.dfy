/**
 The driver's sending side, `uart_wifi_xmit`, with the carrier, queue and wake-up flags it shares
 with `uart_wifi_open`, `uart_wifi_stop`, the link work handler and `ttyio_write_wakeup`.

 The tty is part of the object: a write appends what fits of it to `ttyBuf`, of `capacity` bytes.
 */
module HostTransmit {
  import opened Framing

  const ETH_HLEN := 14
  const WAKEUP_CHARS := 256

  function Flatten(frags: seq<bytes>): bytes {
    if frags == [] then [] else Flatten(frags[..|frags| - 1]) + frags[|frags| - 1]
  }

  /** What a packet buffer carries behind its link-layer header. */
  function Payload(linear: bytes, frags: seq<bytes>): (r: bytes)
    requires |linear| >= ETH_HLEN
    ensures |r| >= |linear| - 14 && r[..|linear| - 14] == linear[14..]
  {
    linear[ETH_HLEN..] + Flatten(frags)
  }

  /** The first `n` bytes of `s`, or all of it. */
  function Cut(s: bytes, n: nat): (r: bytes)
    ensures |r| <= n && r <= s
  {
    if |s| <= n then s else s[..n]
  }

  lemma CutTwice(a: bytes, b: bytes, n: nat)
    ensures Cut(Cut(a, n) + b, n) == Cut(a + b, n)
  {
  }

  /** Writing one more piece of what is to follow `head`. */
  lemma PieceWritten(head: bytes, part: bytes, piece: bytes, n: nat)
    ensures Cut(Cut(head + part, n) + piece, n) == Cut(head + (part + piece), n)
  {
    hide Cut;
    CutTwice(head + part, piece, n);
    assert head + part + piece == head + (part + piece);
  }

  lemma Le16Wraps(n: nat)
    ensures Le16(n % 0x1_0000) == Le16(n)
  {
    var q, r := n / 0x1_0000, n % 0x1_0000;
    assert n == 0x1_0000 * q + r;
    assert n / 256 == 256 * q + r / 256;
  }

  // ---------------------------------------------------------------------------
  // The state and its steps
  // ---------------------------------------------------------------------------

  datatype Net = Net(ttyBuf: bytes, carrier: bool, stopped: bool, requested: bool, packets: nat, octets: nat)

  function Woken(n: Net): Net {
    n.(requested := false, stopped := n.stopped && !n.carrier)
  }

  /** `k` bytes have been transmitted. */
  function Transmitted(n: Net, k: nat): Net
    requires k <= |n.ttyBuf|
  {
    var m := n.(ttyBuf := n.ttyBuf[k..]);
    if k > 0 && m.requested && |m.ttyBuf| < WAKEUP_CHARS then Woken(m) else m
  }

  /** The room asked for before a payload is written. */
  function Asked(p: bytes): nat {
    |p| % 0x1_0000 + 3
  }

  function Sent(n: Net, capacity: nat, p: bytes): Net
    requires |n.ttyBuf| <= capacity
  {
    if capacity - |n.ttyBuf| < Asked(p) then n.(stopped := true, requested := true)
    else n.(ttyBuf := Cut(n.ttyBuf + Encode(p), capacity), packets := n.packets + 1,
            octets := n.octets + |p| % 0x1_0000)
  }

  /** A refusal during which `n1` and then `n2` bytes are transmitted. */
  function Refused(n: Net, n1: nat, n2: nat): Net
    requires n1 + n2 <= |n.ttyBuf|
  {
    Transmitted(Transmitted(n, n1).(stopped := true), n2).(requested := true)
  }

  class Netdev {
    const capacity: nat
    var ttyBuf: bytes
    var carrier: bool
    var queueStopped: bool
    var wakeupRequested: bool
    var txPackets: nat
    var txBytes: nat

    /** A stopped queue is always going to be woken: while the carrier is on, a stopped queue has a
        wake-up requested, and bytes in the tty whose transmission will trigger it. */
    ghost predicate Valid()
      reads this
    {
      Sound() && !Stranded()
    }

    /** While the carrier is on, a stopped queue has a wake-up requested. */
    ghost predicate Sound()
      reads this
    {
      Fits() && (carrier && queueStopped ==> wakeupRequested)
    }

    ghost predicate Fits()
      reads this
    {
      MAX_FRAME_LEN <= capacity && |ttyBuf| <= capacity
    }

    /** The queue is stopped under carrier and nothing is left to send that could wake it. */
    ghost predicate Stranded()
      reads this
    {
      carrier && queueStopped && ttyBuf == []
    }

    /** The network stack hands packets to a running queue under carrier only. */
    predicate Running()
      reads this
    {
      carrier && !queueStopped
    }

    ghost function State(): Net
      reads this
    {
      Net(ttyBuf, carrier, queueStopped, wakeupRequested, txPackets, txBytes)
    }

    constructor (capacity: nat)
      requires MAX_FRAME_LEN <= capacity
      ensures Valid() && this.capacity == capacity && State() == Net([], false, false, false, 0, 0)
    {
      this.capacity := capacity;
      ttyBuf, carrier, queueStopped, wakeupRequested, txPackets, txBytes := [], false, false, false, 0, 0;
    }

    function WriteRoom(): int
      reads this
    {
      capacity - |ttyBuf|
    }

    method Write(data: bytes)
      requires |ttyBuf| <= capacity
      modifies this`ttyBuf
      ensures |ttyBuf| <= capacity && ttyBuf == Cut(old(ttyBuf) + data, capacity)
    {
      ttyBuf := ttyBuf + if |data| <= WriteRoom() then data else data[..WriteRoom()];
    }

    /** The writes of `uart_wifi_xmit`, piece by piece: together one frame, as far as there is room. */
    method WriteFrame(linear: bytes, frags: seq<bytes>, sendLen: nat)
      requires |ttyBuf| <= capacity && |linear| >= ETH_HLEN
      modifies this`ttyBuf
      ensures ttyBuf == Cut(old(ttyBuf) + (Le16(sendLen) + Payload(linear, frags) + [SPLIT_DATA]), capacity)
    {
      hide Le16, Flatten, Cut;
      ghost var was := ttyBuf;
      ghost var part := Le16(sendLen);
      Write(Le16(sendLen));
      PieceWritten(was, part, linear[ETH_HLEN..], capacity);
      part := part + linear[ETH_HLEN..];
      Write(linear[ETH_HLEN..]);
      FlattenNone();
      assert frags[..0] == [] && part == Le16(sendLen) + (linear[ETH_HLEN..] + Flatten(frags[..0]));
      var i := 0;
      while i < |frags|
        invariant 0 <= i <= |frags| && ttyBuf == Cut(was + part, capacity)
        invariant part == Le16(sendLen) + (linear[ETH_HLEN..] + Flatten(frags[..i]))
      {
        FlattenPart(frags, i);
        PieceWritten(was, part, frags[i], capacity);
        part := part + frags[i];
        Write(frags[i]);
        i := i + 1;
      }
      assert frags[..i] == frags;
      PieceWritten(was, part, [SPLIT_DATA], capacity);
      Write([SPLIT_DATA]);
    }

    /** Sends a packet given as a linear part, link header first, and any list of fragments. It is
        all or nothing: either nothing is written and the packet stays with the caller, or
        one frame of the packet's payload is, whole if its length has 16 bits. */
    method Xmit(linear: bytes, frags: seq<bytes>) returns (sent: bool)
      requires Sound() && |linear| >= ETH_HLEN
      modifies this`ttyBuf, this`queueStopped, this`wakeupRequested, this`txPackets, this`txBytes
      ensures var p := Payload(linear, frags);
              && sent == (old(WriteRoom()) >= |p| % 0x1_0000 + 3)
              && (sent ==> ttyBuf == Cut(old(ttyBuf) + Encode(p), capacity))
              && (sent && |p| < 0x1_0000 ==> ttyBuf == old(ttyBuf) + Encode(p))
              && (sent ==> txPackets == old(txPackets) + 1 && txBytes == old(txBytes) + |p| % 0x1_0000)
              && (|p| <= MTU_LEN ==> !Stranded())
      ensures State() == old(Sent(State(), capacity, Payload(linear, frags)))
      ensures !sent ==> ttyBuf == old(ttyBuf) && txPackets == old(txPackets) && txBytes == old(txBytes)
      ensures !sent ==> queueStopped && wakeupRequested
      ensures sent ==> queueStopped == old(queueStopped) && wakeupRequested == old(wakeupRequested)
      ensures Sound() && (Stranded() <==> !sent && carrier && ttyBuf == [])
    {
      hide Flatten, Le16;
      ghost var p := Payload(linear, frags);
      var sendLen := (|linear| + |Flatten(frags)| - ETH_HLEN) % 0x1_0000;
      if WriteRoom() < sendLen + 3 {
        queueStopped := true;
        wakeupRequested := true;
        return false;
      }
      Le16Wraps(|p|);
      TwoBytes(|p|);
      WriteFrame(linear, frags, sendLen);
      txPackets := txPackets + 1;
      txBytes := txBytes + sendLen;
      return true;
    }

    /** `uart_wifi_open`: the carrier is off until the link reports up. */
    method Open()
      requires Sound()
      modifies this`carrier
      ensures Valid() && !carrier
    {
      carrier := false;
    }

    method Stop()
      requires Sound()
      modifies this`carrier, this`queueStopped
      ensures Valid() && !carrier && queueStopped
    {
      carrier := false;
      queueStopped := true;
    }

    /** The link work handler sees the firmware's line go low. */
    method CarrierUp()
      requires Sound()
      modifies this`carrier, this`queueStopped
      ensures Valid() && carrier && !queueStopped
    {
      carrier := true;
      queueStopped := false;
    }

    /** `ttyio_write_wakeup`. */
    method WriteWakeup()
      requires Fits()
      modifies this`queueStopped, this`wakeupRequested
      ensures State() == Woken(old(State()))
      ensures Valid() && !wakeupRequested && queueStopped == (old(queueStopped) && !carrier)
    {
      wakeupRequested := false;
      if carrier {
        queueStopped := false;
      }
    }

    /** The serial driver has transmitted `n` bytes; below the threshold it asks for more if a
        wake-up was requested. */
    method TxDone(n: nat) returns (out: bytes)
      requires Fits() && 0 < n <= |ttyBuf|
      modifies this`ttyBuf, this`queueStopped, this`wakeupRequested
      ensures State() == Transmitted(old(State()), n)
      ensures Fits() && out == old(ttyBuf)[..n] && ttyBuf == old(ttyBuf)[n..]
      ensures var wakes := old(wakeupRequested) && |ttyBuf| < 256;
              && wakeupRequested == (old(wakeupRequested) && !wakes)
              && queueStopped == (old(queueStopped) && !(wakes && carrier))
      ensures old(Sound()) ==> Valid() && (carrier && |ttyBuf| < WAKEUP_CHARS ==> !queueStopped)
    {
      out, ttyBuf := ttyBuf[..n], ttyBuf[n..];
      if |ttyBuf| < WAKEUP_CHARS && wakeupRequested {
        WriteWakeup();
      }
    }

    /** What the refusing branch of `uart_wifi_xmit` strands when it is not atomic: the serial driver
        transmits `n1` bytes between the room check and the stop, and `n2` between the stop and the request
        for a wake-up. Everything has then been transmitted, and no earlier request was still
        standing, when the queue was stopped, for a transmission to answer. */
    predicate Strands(n1: nat, n2: nat)
      reads this
    {
      && carrier && n1 + n2 == |ttyBuf|
      && !(wakeupRequested && ttyBuf != [] && (n1 == 0 || |ttyBuf| - n1 >= WAKEUP_CHARS))
    }

    /** The refusing branch, interrupted. The queue is left stranded exactly if `Strands` held. */
    method RefuseInterrupted(need: nat, n1: nat, n2: nat) returns (out: bytes)
      requires Sound() && WriteRoom() < need && n1 + n2 <= |ttyBuf|
      modifies this`ttyBuf, this`queueStopped, this`wakeupRequested
      ensures State() == Refused(old(State()), n1, n2)
      ensures Sound() && wakeupRequested
      ensures out == old(ttyBuf)[..n1 + n2] && ttyBuf == old(ttyBuf)[n1 + n2..]
      ensures Stranded() <==> old(Strands(n1, n2))
    {
      out := [];
      if n1 > 0 {
        out := TxDone(n1);
      }
      queueStopped := true;
      if n2 > 0 {
        var more := TxDone(n2);
        out := out + more;
      }
      wakeupRequested := true;
    }
  }

  /** A lost wake-up. A packet of 1500 bytes fills the tty; the next is refused, and all 1503 bytes go out
      before the queue is stopped. */
  method LostWakeup() returns (netdev: Netdev)
    ensures fresh(netdev) && netdev.Sound() && netdev.Stranded() && netdev.txPackets == 1
  {
    hide Encode, Flatten;
    netdev := new Netdev(MAX_FRAME_LEN);
    netdev.CarrierUp();
    var linear := seq(ETH_HLEN + MTU_LEN, _ => 0);
    FlattenNone();
    EncodeLength(Payload(linear, []));
    var sent := netdev.Xmit(linear, []);
    var out := netdev.RefuseInterrupted(MAX_FRAME_LEN, |netdev.ttyBuf|, 0);
  }

  lemma EncodeLength(p: bytes)
    ensures |Encode(p)| == |p| + 3
  {
  }

  lemma TwoBytes(n: nat)
    ensures |Le16(n)| == 2
  {
  }

  lemma FlattenNone()
    ensures Flatten([]) == []
  {
  }

  lemma {:induction false} FlattenPart(frags: seq<bytes>, i: nat)
    requires i < |frags|
    ensures Flatten(frags[..i + 1]) == Flatten(frags[..i]) + frags[i]
    ensures |Flatten(frags[..i + 1])| <= |Flatten(frags)|
    decreases |frags| - i
  {
    assert frags[..i + 1][..i] == frags[..i];
    if i + 1 < |frags| {
      FlattenPart(frags, i + 1);
    } else {
      assert frags[..i + 1] == frags;
    }
  }
}
