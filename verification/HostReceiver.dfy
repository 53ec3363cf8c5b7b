/**
 The driver's receiving side in data mode: `ttyio_receive_data` and the buffer allocation it
 depends on, with the receiver's fields and buffer updated in place.

 `repaired` selects a receiver without the two faults of the code as written: its scan advances by
 what it scanned, and it delivers the declared length and keeps what follows the frame.
 */
module HostReceiver {
  import opened Framing
  import opened HostAsWritten

  const SKB_ROOM := MAX_FRAME_LEN

  /** How a state of the `restart` loop ends: go round again, leave, leave with a complete frame
      held back for want of a buffer (repaired receiver only), or copy a negative count. */
  datatype Flow = Restart | Exit | Held | Fault

  /** What a call starts from: the receiver's state, the presented bytes, whether a hazard lies
      ahead, and what the code as written will come to. */
  datatype Entry = Entry(repaired: bool, synced: bool, buf: bytes, delivered: seq<bytes>, cp: bytes, hazard: bool,
                         written: Result)

  /** Nothing has gone wrong: the first `p` presented bytes have been decoded as the grammar says. */
  ghost predicate Clean(e: Entry, p: int, t: Tally, allocs: seq<bool>, delivered: seq<bytes>, synced: bool, buf: bytes)
  {
    && t == Tally(p, 0) && 0 <= p <= |e.cp| && e.delivered <= delivered
    && Parse(e.synced, e.buf + e.cp[..p]) == Prepend(delivered[|e.delivered|..], Parse(synced, buf))
    && (!e.repaired ==> Hazard(synced, buf, e.cp[p..], p, allocs) == e.hazard)
  }

  /** The code as written has misreported: `p` counts bytes it never looked at, or a packet was too long. */
  ghost predicate Dirty(e: Entry, p: int, t: Tally) {
    !e.repaired && e.hazard && 0 <= t.touched <= p && t.excess >= 0 && (t.touched < p || t.excess > 0)
  }

  ghost predicate Tracks(e: Entry, p: int, t: Tally, allocs: seq<bool>, delivered: seq<bytes>, synced: bool, buf: bytes)
  {
    && 0 <= p && (Dirty(e, p, t) || Clean(e, p, t, allocs, delivered, synced, buf))
    && (!e.repaired ==> Written(synced, buf, e.cp, p, allocs, delivered, t) == e.written)
  }

  // ---------------------------------------------------------------------------
  // One lemma per kind of step
  // ---------------------------------------------------------------------------

  lemma CopyStep(e: Entry, p: int, t: Tally, allocs: seq<bool>, delivered: seq<bytes>, buf: bytes, k: nat)
    requires Tracks(e, p, t, allocs, delivered, true, buf) && p < |e.cp|
    requires |buf| < 2 || (LengthOk(Data, I16(buf)) && |buf| < I16(buf) + 3)
    requires k == Min(|e.cp| - p, (if |buf| < 2 then 2 else I16(buf) + 3) - |buf|)
    requires 0 <= p
    ensures Tracks(e, p + k, t.(touched := t.touched + k), allocs, delivered, true, buf + e.cp[p..p + k])
  {
    hide Next, Parse, Hazard, Written;
    WrittenCopies(buf, e.cp, p, allocs, delivered, t, k);
    if Clean(e, p, t, allocs, delivered, true, buf) {
      var c := e.cp[p..p + k];
      ParseCongruent(e.synced, e.buf + e.cp[..p], delivered[|e.delivered|..], true, buf, c);
      assert e.buf + e.cp[..p] + c == e.buf + e.cp[..p + k];
      HazardCopies(buf, e.cp, p, allocs, k);
    }
  }

  lemma BadStep(e: Entry, p: int, t: Tally, allocs: seq<bool>, delivered: seq<bytes>, buf: bytes)
    requires Tracks(e, p, t, allocs, delivered, true, buf) && |buf| >= 2
    requires LengthOk(Data, I16(buf)) ==> |buf| >= I16(buf) + 3 && !BodyOk(Data, buf)
    ensures Tracks(e, p, t, allocs, delivered, false, buf)
  {
    hide Next, Parse;
    NextBad(Data, buf);
    ParseByNext(true, buf, false, buf);
  }

  lemma ScanBufferStep(e: Entry, p: int, t: Tally, allocs: seq<bool>, delivered: seq<bytes>, buf: bytes, k: nat)
    requires Tracks(e, p, t, allocs, delivered, false, buf)
    requires k < |buf| && buf[k] == SPLIT_DATA && SPLIT_DATA !in buf[..k]
    ensures Tracks(e, p, t, allocs, delivered, true, buf[k + 1..])
  {
    hide Next, Parse;
    FindIs(buf, SPLIT_DATA, k);
    assert buf == buf[..k] + [SPLIT_DATA] + buf[k + 1..];
    NextLost(Data, buf[..k], buf[k + 1..]);
    ParseByNext(false, buf, true, buf[k + 1..]);
  }

  lemma DropBufferStep(e: Entry, p: int, t: Tally, allocs: seq<bool>, delivered: seq<bytes>, buf: bytes)
    requires Tracks(e, p, t, allocs, delivered, false, buf) && SPLIT_DATA !in buf
    ensures Tracks(e, p, t, allocs, delivered, false, [])
  {
    hide Next, Parse;
    assert buf[..|buf|] == buf;
    FindIs(buf, SPLIT_DATA, |buf|);
    NextLost(Data, buf, []);
    NextLost(Data, [], []);
    ParseByNext(false, buf, false, []);
  }

  /** The scan of the presentation hits a split byte: as written, `skip` is counted from its
      start, so everything before `p` is counted twice. */
  lemma ScanHitStep(e: Entry, p: int, t: Tally, allocs: seq<bool>, delivered: seq<bytes>, skip: nat)
    requires Tracks(e, p, t, allocs, delivered, false, [])
    requires 0 <= p < skip <= |e.cp| && e.cp[skip - 1] == SPLIT_DATA && SPLIT_DATA !in e.cp[p..skip - 1]
    ensures Tracks(e, if e.repaired then skip else p + skip, t.(touched := t.touched + skip - p),
                   allocs, delivered, true, [])
  {
    hide Next, Parse, Hazard, Written, Clean;
    WrittenHits([], e.cp, p, allocs, delivered, t, skip - 1 - p);
    if Clean(e, p, t, allocs, delivered, false, []) {
      CleanHit(e, p, t, allocs, delivered, skip);
    }
  }

  lemma CleanHit(e: Entry, p: int, t: Tally, allocs: seq<bool>, delivered: seq<bytes>, skip: nat)
    requires Clean(e, p, t, allocs, delivered, false, [])
    requires 0 <= p < skip <= |e.cp| && e.cp[skip - 1] == SPLIT_DATA && SPLIT_DATA !in e.cp[p..skip - 1]
    ensures p == 0 || e.repaired ==> Clean(e, skip, t.(touched := t.touched + skip - p), allocs, delivered, true, [])
    ensures p > 0 && !e.repaired ==> Dirty(e, p + skip, t.(touched := t.touched + skip - p))
  {
    hide Next, Parse, Hazard;
    SliceOfSlice(e.cp, p, skip - 1 - p);
    SliceOfSlice(e.cp, p, skip - p);
    HazardHit([], e.cp[p..], p, allocs, skip - 1 - p);
    HitParse(e, p, delivered[|e.delivered|..], skip);
  }

  lemma HitParse(e: Entry, p: int, found: seq<bytes>, skip: nat)
    requires 0 <= p < skip <= |e.cp| && e.cp[skip - 1] == SPLIT_DATA && SPLIT_DATA !in e.cp[p..skip - 1]
    requires Parse(e.synced, e.buf + e.cp[..p]) == Prepend(found, Parse(false, []))
    ensures Parse(e.synced, e.buf + e.cp[..skip]) == Prepend(found, Parse(true, []))
  {
    hide Next, Parse;
    var c := e.cp[p..skip];
    ParseCongruent(e.synced, e.buf + e.cp[..p], found, false, [], c);
    assert e.buf + e.cp[..p] + c == e.buf + e.cp[..skip];
    assert [] + c == e.cp[p..skip - 1] + [SPLIT_DATA] + [];
    NextLost(Data, e.cp[p..skip - 1], []);
    ParseByNext(false, [] + c, true, []);
  }

  lemma ScanMissStep(e: Entry, p: int, t: Tally, allocs: seq<bool>, delivered: seq<bytes>)
    requires Tracks(e, p, t, allocs, delivered, false, [])
    requires 0 <= p <= |e.cp| && SPLIT_DATA !in e.cp[p..]
    ensures Finished(e, |e.cp|, t.(touched := t.touched + |e.cp| - p), delivered, false, [], false)
  {
    hide Next, Parse;
    if Clean(e, p, t, allocs, delivered, false, []) {
      var c := e.cp[p..];
      assert c[..|c|] == c;
      FindIs(c, SPLIT_DATA, |c|);
      ParseCongruent(e.synced, e.buf + e.cp[..p], delivered[|e.delivered|..], false, [], c);
      assert e.buf + e.cp[..p] + c == e.buf + e.cp[..|e.cp|];
      NextLost(Data, c, []);
      NextLost(Data, [], []);
      assert [] + c == c && e.cp[|e.cp|..] == [];
      ParseByNext(false, c, false, []);
    }
  }

  /** How a call may end: misreported, or with the reported bytes decoded and no hazard met. */
  ghost predicate Finished(e: Entry, p: int, t: Tally, delivered: seq<bytes>, synced: bool, buf: bytes, bare: bool)
  {
    && (|| Dirty(e, p, t)
        || (&& t == Tally(p, 0) && 0 <= p <= |e.cp| && e.delivered <= delivered
            && Parse(e.synced, e.buf + e.cp[..p]) == Prepend(delivered[|e.delivered|..], Parse(synced, buf))
            && (e.repaired || !e.hazard)))
    && (!e.repaired ==> e.written == Result(p, false, delivered, synced, buf, t, bare))
  }

  lemma StopStep(e: Entry, p: int, t: Tally, allocs: seq<bool>, delivered: seq<bytes>, buf: bytes)
    requires Tracks(e, p, t, allocs, delivered, true, buf) && p == |e.cp|
    requires |buf| < 2 || (LengthOk(Data, I16(buf)) && |buf| < I16(buf) + 3)
    ensures Finished(e, p, t, delivered, true, buf, false)
  {
    hide Next, Parse;
  }

  lemma HoldStep(e: Entry, p: int, t: Tally, allocs: seq<bool>, delivered: seq<bytes>, buf: bytes)
    requires Tracks(e, p, t, allocs, delivered, true, buf) && e.repaired
    ensures Finished(e, p, t, delivered, true, buf, false)
  {
    hide Next, Parse;
  }

  /** Delivery as written: the whole buffer but its first two and its last byte. */
  lemma DeliverStep(e: Entry, p: int, t: Tally, allocs: seq<bool>, delivered: seq<bytes>, buf: bytes)
    requires Tracks(e, p, t, allocs, delivered, true, buf) && Accepted(Data, buf) && !e.repaired
    ensures var d, u := delivered + [buf[2..|buf| - 1]], t.(excess := t.excess + |buf| - (I16(buf) + 3));
            if AllocOk(allocs) then Tracks(e, p, u, Later(allocs), d, true, [])
            else Finished(e, p, u, d, true, [], true)
  {
    hide Next, Parse;
    if Clean(e, p, t, allocs, delivered, true, buf) && |buf| == I16(buf) + 3 {
      ParseAccepted(buf);
      assert buf[I16(buf) + 3..] == [] && |buf| - 1 == 2 + I16(buf);
      DeliveredGrows(e, delivered, buf, []);
    }
  }

  /** Delivery repaired: the declared payload, with what follows the frame kept. */
  lemma DeliverRepairedStep(e: Entry, p: int, t: Tally, allocs: seq<bool>, delivered: seq<bytes>, buf: bytes,
                            later: seq<bool>)
    requires Tracks(e, p, t, allocs, delivered, true, buf) && Accepted(Data, buf) && e.repaired
    ensures var d, left := delivered + [buf[2..2 + I16(buf)]], buf[I16(buf) + 3..];
            Tracks(e, p, t, later, d, true, left) && forall bare :: Finished(e, p, t, d, true, left, bare)
  {
    hide Next, Parse;
    ParseAccepted(buf);
    DeliveredGrows(e, delivered, buf, buf[I16(buf) + 3..]);
  }

  lemma DeliveredGrows(e: Entry, delivered: seq<bytes>, buf: bytes, left: bytes)
    requires e.delivered <= delivered && Accepted(Data, buf)
    ensures var x := buf[2..2 + I16(buf)];
            && (delivered + [x])[|e.delivered|..] == delivered[|e.delivered|..] + [x]
            && Prepend(delivered[|e.delivered|..], Prepend([x], Parse(true, left)))
               == Prepend((delivered + [x])[|e.delivered|..], Parse(true, left))
  {
    hide Next, Parse;
    var x := buf[2..2 + I16(buf)];
    assert (delivered + [x])[|e.delivered|..] == delivered[|e.delivered|..] + [x];
    PrependTwice(delivered[|e.delivered|..], [x], Parse(true, left));
  }

  class Host {
    const repaired: bool
    var status: Status
    var uartDataLen: int
    var skb: array?<byte>
    var skbLen: nat
    var allocs: seq<bool>  // outcomes of the coming allocations; all that follow succeed
    var delivered: seq<bytes>  // packets handed to netif_rx_ni

    ghost predicate Valid()
      reads this, skb
    {
      skb != null ==>
        && skb.Length == SKB_ROOM && skbLen <= SKB_ROOM
        && (status.STATUS_DATA? ==> skbLen >= 2 && uartDataLen == I16(skb[..2]) && LengthOk(Data, uartDataLen))
    }

    function Buf(): bytes
      requires Valid()
      reads this, skb
    {
      if skb == null then [] else skb[..skbLen]
    }

    /** A receiver without a buffer starts its next call at a frame boundary. */
    predicate Synced()
      reads this
    {
      skb == null || !status.STATUS_SPLIT?
    }

    /** No complete frame waits in the buffer. */
    ghost predicate Settled()
      requires Valid()
      reads this, skb
    {
      Next(Data, Synced(), Buf()) == Need(Synced(), Buf())
    }

    ghost predicate After(e: Entry, flow: Flow, p: int, s: int, t: Tally)
      reads this, skb
    {
      && Valid() && 0 <= p
      && match flow
         case Restart =>
           && skb != null && p + s == |e.cp| && Tracks(e, p, t, allocs, delivered, Synced(), Buf())
           && (s < 0 ==> status == STATUS_LEN && skbLen == 0)
         case Exit => Finished(e, p, t, delivered, Synced(), Buf(), skb == null) && Settled()
         case Held => Finished(e, p, t, delivered, Synced(), Buf(), skb == null) && repaired
         case Fault =>
           p > |e.cp| && Dirty(e, p, t) && e.written == Result(p, true, delivered, Synced(), Buf(), t, skb == null)
    }

    constructor (repaired: bool)
      ensures Valid() && skb == null && delivered == [] && status == STATUS_LEN && this.repaired == repaired
    {
      this.repaired := repaired;
      status, uartDataLen, skb, skbLen, allocs, delivered := STATUS_LEN, 0, null, 0, [], [];
    }

    /** Appends `k` presented bytes to the buffer. */
    method Put(cp: bytes, from: nat, k: nat)
      requires Valid() && skb != null && skbLen + k <= SKB_ROOM && from + k <= |cp|
      modifies this`skbLen, skb
      ensures Valid() && skbLen == old(skbLen) + k && Buf() == old(Buf()) + cp[from..from + k]
    {
      ghost var was := skb[..skbLen];
      forall i | 0 <= i < k {
        skb[skbLen + i] := cp[from + i];
      }
      skbLen := skbLen + k;
      assert skb[..skbLen] == was + cp[from..from + k];
      assert status.STATUS_DATA? ==> skb[..2] == was[..2];
    }

    /** Copies what is missing to `want` bytes, or as much of it as was presented. */
    method CopyUpTo(cp: bytes, processed: int, surplus: int, want: nat, ghost e: Entry, ghost t: Tally)
      returns (flow: Flow, p: int, s: int, ghost u: Tally)
      requires After(e, Restart, processed, surplus, t) && e.cp == cp && Synced() && want <= SKB_ROOM
      requires if skbLen < 2 then want == 2 else LengthOk(Data, I16(Buf())) && skbLen < want == I16(Buf()) + 3
      modifies this`skbLen, skb
      ensures After(e, flow, p, s, u) && flow != Held && (flow == Exit ==> p == |cp|)
      ensures flow == Restart ==> Weight(s, skbLen) == old(Weight(surplus, skbLen)) && 0 <= s < surplus
    {
      hide Next, Parse, Clean, Finished, Hazard, Written;
      p, s, u := processed, surplus, t;
      if surplus == 0 {
        StopStep(e, p, t, allocs, delivered, Buf());
        NextShort(Data, Buf());
        return Exit, p, s, u;
      }
      var k := Min(surplus, want - skbLen);
      if k < 0 {
        assert Buf() == [];
        FaultStep(e, p, t, allocs, delivered);
        return Fault, p, s, u;
      }
      CopyStep(e, p, t, allocs, delivered, Buf(), k);
      Put(cp, processed, k);
      return Restart, p + k, s - k, Tally(t.touched + k, t.excess);
    }

    method OnLen(cp: bytes, processed: int, surplus: int, ghost e: Entry, ghost t: Tally)
      returns (flow: Flow, p: int, s: int, ghost u: Tally)
      requires After(e, Restart, processed, surplus, t) && e.cp == cp && status == STATUS_LEN
      modifies this`status, this`uartDataLen, this`skbLen, skb
      ensures After(e, flow, p, s, u) && flow != Held && (flow == Exit ==> p == |cp|)
      ensures flow == Restart ==> Weight(s, skbLen) == old(Weight(surplus, skbLen))
      ensures flow == Restart ==> 0 <= s < surplus || (0 <= s == surplus && Rank(status) < old(Rank(status)))
    {
      hide Next, Parse, Clean, Finished, Hazard, Written;
      if skbLen < 2 {
        flow, p, s, u := CopyUpTo(cp, processed, surplus, 2, e, t);
        return;
      }
      assert skb[..2] == Buf()[..2];
      uartDataLen := I16(skb[..2]);
      if !LengthOk(Data, uartDataLen) {
        BadStep(e, processed, t, allocs, delivered, Buf());
        status := STATUS_SPLIT;
      } else {
        status := STATUS_DATA;
      }
      return Restart, processed, surplus, t;
    }

    method OnData(cp: bytes, processed: int, surplus: int, ghost e: Entry, ghost t: Tally)
      returns (flow: Flow, p: int, s: int, ghost u: Tally)
      requires After(e, Restart, processed, surplus, t) && e.cp == cp && e.repaired == repaired
      requires status == STATUS_DATA
      modifies this`status, this`skb, this`skbLen, this`allocs, this`delivered, skb
      ensures After(e, flow, p, s, u) && (skb == null || skb == old(skb) || fresh(skb))
      ensures flow == Restart ==> Weight(s, skbLen) <= old(Weight(surplus, skbLen))
      ensures flow == Restart && Weight(s, skbLen) == old(Weight(surplus, skbLen)) ==>
                0 <= s < surplus || (0 <= s == surplus && Rank(status) < old(Rank(status)))
      ensures AllTrue(old(allocs)) ==> AllTrue(allocs) && flow != Held && (flow == Exit ==> p == |cp|)
    {
      hide Next, Parse, Clean, Finished, Hazard, Written;
      assert skb[..2] == Buf()[..2];
      if skbLen < uartDataLen + 3 {
        flow, p, s, u := CopyUpTo(cp, processed, surplus, uartDataLen + 3, e, t);
        return;
      }
      if skb[uartDataLen + 2] == SPLIT_DATA {
        if repaired {
          flow := DeliverRepaired(processed, surplus, e, t);
          u := t;
        } else {
          flow, u := Deliver(processed, surplus, e, t);
        }
        return flow, processed, surplus, u;
      }
      BadStep(e, processed, t, allocs, delivered, Buf());
      status := STATUS_SPLIT;
      return Restart, processed, surplus, t;
    }

    /** `alloc_new_skb_to_recv`: a fresh, empty buffer, or none. */
    method AllocNewSkb() returns (ok: bool)
      modifies this`status, this`skb, this`skbLen, this`allocs
      ensures ok == (old(allocs) == [] || old(allocs)[0]) && Valid() && Buf() == []
      ensures allocs == if old(allocs) == [] then [] else old(allocs)[1..]
      ensures if ok then skb != null && fresh(skb) && status == STATUS_LEN && skbLen == 0
              else skb == null && status == old(status)
      ensures old(AllTrue(allocs)) ==> ok && AllTrue(allocs)
    {
      if AllTrue(allocs) {
        AllTrueLater(allocs);
      }
      ok := AllocOk(allocs);
      allocs := Later(allocs);
      skbLen := 0;
      if ok {
        skb := new byte[SKB_ROOM];
        status := STATUS_LEN;
      } else {
        skb := null;
      }
    }

    method Deliver(ghost p: int, ghost s: int, ghost e: Entry, ghost t: Tally) returns (flow: Flow, ghost u: Tally)
      requires After(e, Restart, p, s, t) && Synced() && Accepted(Data, Buf()) && !repaired && !e.repaired
      modifies this`status, this`skb, this`skbLen, this`allocs, this`delivered
      ensures After(e, flow, p, s, u) && (skb == null || fresh(skb))
      ensures flow == Restart ==> skbLen < old(skbLen) && status == STATUS_LEN
      ensures AllTrue(old(allocs)) ==> AllTrue(allocs) && flow == Restart
    {
      hide Next, Parse, Clean, Finished, Hazard, Written;
      DeliverStep(e, p, t, allocs, delivered, Buf());
      u := Tally(t.touched, t.excess + skbLen - (I16(Buf()) + 3));
      assert skb[2..skbLen - 1] == Buf()[2..skbLen - 1];
      delivered := delivered + [skb[2..skbLen - 1]];
      NextShort(Data, []);
      var ok := AllocNewSkb();
      return if ok then Restart else Exit, u;
    }

    /** The repaired delivery. The replacement buffer is needed first if bytes follow the frame. */
    method DeliverRepaired(ghost p: int, ghost s: int, ghost e: Entry, ghost t: Tally) returns (flow: Flow)
      requires After(e, Restart, p, s, t) && status == STATUS_DATA && Accepted(Data, Buf()) && repaired && e.repaired
      modifies this`status, this`skb, this`skbLen, this`allocs, this`delivered
      ensures After(e, flow, p, s, t) && (skb == null || skb == old(skb) || fresh(skb))
      ensures flow == Restart ==> skbLen < old(skbLen) && status == STATUS_LEN
      ensures AllTrue(old(allocs)) ==> AllTrue(allocs) && flow == Restart
    {
      hide Next, Parse, Clean, Finished, Hazard, Written;
      DeliverRepairedStep(e, p, t, allocs, delivered, Buf(), Later(allocs));
      if skbLen > uartDataLen + 3 && !AllocOk(allocs) {
        if AllTrue(allocs) {
          AllTrueLater(allocs);
        }
        HoldStep(e, p, t, allocs, delivered, Buf());
        allocs := Later(allocs);
        return Held;
      }
      var packet, left := SplitBuffer();
      delivered := delivered + [packet];
      NextShort(Data, []);
      var ok := Replace(left);
      return if ok then Restart else Exit;
    }

    /** A fresh buffer that holds `left` already. */
    method Replace(left: bytes) returns (ok: bool)
      requires |left| <= SKB_ROOM
      modifies this`status, this`skb, this`skbLen, this`allocs
      ensures ok == old(AllocOk(allocs)) && allocs == old(Later(allocs)) && Valid()
      ensures if ok then skb != null && fresh(skb) && status == STATUS_LEN && Buf() == left && skbLen == |left|
              else skb == null
      ensures old(AllTrue(allocs)) ==> ok && AllTrue(allocs)
    {
      ok := AllocNewSkb();
      if ok {
        Put(left, 0, |left|);
        assert Buf() == left;
      }
    }

    /** The declared payload of the frame in front, and what follows that frame. */
    method SplitBuffer() returns (packet: bytes, left: bytes)
      requires Valid() && skb != null && status == STATUS_DATA && Accepted(Data, Buf())
      ensures var n := I16(Buf()); packet == Buf()[2..2 + n] && left == Buf()[n + 3..]
      ensures |left| == skbLen - (uartDataLen + 3) < skbLen && I16(Buf()) == uartDataLen
    {
      hide Next, Parse;
      assert skb[..2] == Buf()[..2];
      packet, left := skb[2..uartDataLen + 2], skb[uartDataLen + 3..skbLen];
    }

    method OnSplit(cp: bytes, processed: int, surplus: int, ghost e: Entry, ghost t: Tally)
      returns (flow: Flow, p: int, s: int, ghost u: Tally)
      requires After(e, Restart, processed, surplus, t) && e.cp == cp && e.repaired == repaired
      requires status == STATUS_SPLIT
      modifies this`status, this`skbLen, skb
      ensures After(e, flow, p, s, u) && flow != Held && (flow == Exit ==> p == |cp|)
      ensures flow == Restart ==> Weight(s, skbLen) < old(Weight(surplus, skbLen))
    {
      hide Next, Parse, Clean, Finished, Hazard, Written, Tracks;
      var found := ScanBuffer(processed, surplus, e, t);
      if found {
        return Restart, processed, surplus, t;
      }
      flow, p, s, u := ScanPresented(cp, processed, surplus, e, t);
    }

    /** The first half of STATUS_SPLIT: skips through a split byte in the buffer, or empties it. */
    method ScanBuffer(ghost p: int, ghost s: int, ghost e: Entry, ghost t: Tally) returns (found: bool)
      requires After(e, Restart, p, s, t) && status == STATUS_SPLIT
      modifies this`status, this`skbLen, skb
      ensures After(e, Restart, p, s, t) && skbLen <= old(skbLen)
      ensures if found then status == STATUS_LEN && skbLen < old(skbLen) else status == STATUS_SPLIT && skbLen == 0
    {
      hide Next, Parse, Clean, Finished, Hazard, Written, Tracks;
      ghost var buf := Buf();
      var skip := 0;
      while skip < skbLen
        invariant 0 <= skip <= skbLen && SPLIT_DATA !in buf[..skip]
      {
        skip := skip + 1;
        if skb[skip - 1] == SPLIT_DATA {
          ScanBufferStep(e, p, t, allocs, delivered, buf, skip - 1);
          forall i | 0 <= i < skbLen - skip {
            skb[i] := skb[skip + i];
          }
          skbLen := skbLen - skip;
          assert Buf() == buf[skip..];
          status := STATUS_LEN;
          return true;
        }
      }
      assert buf[..skip] == buf;
      DropBufferStep(e, p, t, allocs, delivered, buf);
      skbLen := 0;
      assert Buf() == [];
      return false;
    }

    /** The bytes from `from` through the first split byte, or all. */
    method Scan(cp: bytes, from: nat) returns (skip: nat, hit: bool)
      requires from <= |cp|
      ensures from <= skip <= |cp|
      ensures hit ==> skip > from && cp[skip - 1] == SPLIT_DATA && SPLIT_DATA !in cp[from..skip - 1]
      ensures !hit ==> SPLIT_DATA !in cp[from..]
    {
      skip := from;
      while skip < |cp|
        invariant from <= skip <= |cp| && SPLIT_DATA !in cp[from..skip]
      {
        skip := skip + 1;
        if cp[skip - 1] == SPLIT_DATA {
          return skip, true;
        }
      }
      return skip, false;
    }

    /** The second half of STATUS_SPLIT, with an empty buffer. */
    method ScanPresented(cp: bytes, processed: int, surplus: int, ghost e: Entry, ghost t: Tally)
      returns (flow: Flow, p: int, s: int, ghost u: Tally)
      requires After(e, Restart, processed, surplus, t) && e.cp == cp && e.repaired == repaired
      requires status == STATUS_SPLIT && skbLen == 0
      modifies this`status
      ensures After(e, flow, p, s, u) && flow != Held && (flow == Exit ==> p == |cp|)
      ensures flow == Restart ==> Weight(s, skbLen) < Weight(surplus, skbLen)
    {
      hide Next, Parse, Clean, Finished, Hazard, Written, Tracks;
      assert Buf() == [];
      var skip, hit := Scan(cp, processed);
      if hit {
        ScanHitStep(e, processed, t, allocs, delivered, skip);
        var advance := if repaired then skip - processed else skip;
        status := STATUS_LEN;
        return Restart, processed + advance, surplus - advance, Tally(t.touched + skip - processed, t.excess);
      }
      ScanMissStep(e, processed, t, allocs, delivered);
      NextLost(Data, [], []);
      return Exit, |cp|, surplus, Tally(t.touched + |cp| - processed, t.excess);
    }

    /** Presenting `cp` now makes the code as written misreport. */
    ghost predicate Hazardous(cp: bytes)
      requires Valid()
      reads this, skb
    {
      && !repaired
      && if skb == null then AllocOk(allocs) && Hazard(true, [], cp, 0, Later(allocs))
         else Hazard(Synced(), Buf(), cp, 0, allocs)
    }

    /** What the code as written makes of a presentation of `cp` now. */
    ghost function Foreseen(cp: bytes): Result
      requires Valid()
      reads this, skb
    {
      Presented(State(), cp, allocs)
    }

    function State(): Drv
      requires Valid()
      reads this, skb
    {
      Drv(skb == null, Synced(), Buf(), delivered)
    }

    /** One call of `ttyio_receive_data`. Unless it is hazardous, the bytes it reports as
        processed are exactly those it looked at, and it has decoded exactly them; if it is
        hazardous it reports more bytes than it looked at, or delivers more than was declared. */
    method ReceiveData(cp: bytes) returns (processed: int, fault: bool, ghost tally: Tally)
      requires Valid()
      modifies this`status, this`uartDataLen, this`skb, this`skbLen, this`allocs, this`delivered, skb
      ensures Valid() && (skb == null || skb == old(skb) || fresh(skb))
      ensures !repaired ==>
                Result(processed, fault, delivered, Synced(), Buf(), tally, skb == null) == old(Foreseen(cp))
      ensures old(Hazardous(cp)) <==> tally.touched < processed || tally.excess > 0
      ensures !old(Hazardous(cp)) ==>
                && !fault && 0 <= processed <= |cp| && old(delivered) <= delivered
                && Parse(old(Synced()), old(Buf()) + cp[..processed])
                   == Prepend(delivered[|old(delivered)|..], Parse(Synced(), Buf()))
      ensures !old(Hazardous(cp)) && (!repaired || AllTrue(old(allocs))) ==> Settled()
      ensures processed >= 0 && (AllTrue(old(allocs)) ==> processed >= |cp|)
      ensures AllTrue(old(allocs)) ==> AllTrue(allocs)
    {
      hide Next, Parse, Clean, Finished, Hazard, Written, Tracks, I16, LengthOk;
      ghost var e := Entry(repaired, Synced(), Buf(), delivered, cp, Hazardous(cp), Foreseen(cp));
      var surplus;
      processed, surplus, fault, tally := 0, |cp|, false, Tally(0, 0);
      if skb == null {
        var ok := AllocNewSkb();
        if !ok {
          NextShort(Data, []);
          assert [] + cp[..0] == [] && delivered[|delivered|..] == [];
          return;
        }
      }
      StartStep(e, allocs);
      var flow := Restart;
      while flow == Restart
        invariant After(e, flow, processed, surplus, tally)
        invariant skb == null || skb == old(skb) || fresh(skb)
        invariant AllTrue(old(allocs)) ==> AllTrue(allocs) && flow != Held && (flow == Exit ==> processed == |cp|)
        decreases flow == Restart, Weight(surplus, skbLen), Weight(surplus, 0), Rank(status)
      {
        match status
        case STATUS_LEN => flow, processed, surplus, tally := OnLen(cp, processed, surplus, e, tally);
        case STATUS_DATA => flow, processed, surplus, tally := OnData(cp, processed, surplus, e, tally);
        case STATUS_SPLIT => flow, processed, surplus, tally := OnSplit(cp, processed, surplus, e, tally);
      }
      fault := flow == Fault;
      if !fault {
        FinishedAsWritten(e, processed, tally, delivered, Synced(), Buf(), skb == null);
      }
      EndStep(e, processed, tally, delivered, Synced(), Buf(), skb == null);
    }
  }

  lemma EndStep(e: Entry, p: int, t: Tally, delivered: seq<bytes>, synced: bool, buf: bytes, bare: bool)
    requires Dirty(e, p, t) || Finished(e, p, t, delivered, synced, buf, bare)
    requires e.hazard ==> !e.repaired
    ensures e.hazard <==> t.touched < p || t.excess > 0
    ensures !e.hazard ==> 0 <= p <= |e.cp| && e.delivered <= delivered
    ensures !e.hazard ==>
              Parse(e.synced, e.buf + e.cp[..p]) == Prepend(delivered[|e.delivered|..], Parse(synced, buf))
  {
  }

  lemma FinishedAsWritten(e: Entry, p: int, t: Tally, delivered: seq<bytes>, synced: bool, buf: bytes, bare: bool)
    requires Finished(e, p, t, delivered, synced, buf, bare)
    ensures !e.repaired ==> e.written == Result(p, false, delivered, synced, buf, t, bare)
  {
    hide Next, Parse, Dirty;
  }

  lemma StartStep(e: Entry, allocs: seq<bool>)
    requires !e.repaired ==> e.hazard == Hazard(e.synced, e.buf, e.cp, 0, allocs)
    requires !e.repaired ==> e.written == Written(e.synced, e.buf, e.cp, 0, allocs, e.delivered, Tally(0, 0))
    ensures Tracks(e, 0, Tally(0, 0), allocs, e.delivered, e.synced, e.buf)
  {
    hide Next, Parse, Hazard, Written;
    assert e.buf + e.cp[..0] == e.buf && e.cp[0..] == e.cp && e.delivered[|e.delivered|..] == [];
  }

  lemma FaultStep(e: Entry, p: int, t: Tally, allocs: seq<bool>, delivered: seq<bytes>)
    requires Tracks(e, p, t, allocs, delivered, true, []) && p > |e.cp|
    ensures Dirty(e, p, t) && e.written == Result(p, true, delivered, true, [], t, false)
  {
    hide Hazard, Next, Parse;
  }
}
