/**
 The two receivers decode alike. Each is fed the same bytes, cut and delayed in its own way and
 hindered by its own allocation and network failures, and then left to finish.
 */
module Agreement {
  import opened Framing
  import opened EspAsWritten
  import EspReceiver
  import HostAsWritten
  import HostReceiver

  /** One `uart2wifi` call: the FIFO readings it gets, and whether the network cooperates. */
  datatype Call = Call(polls: seq<nat>, allocOk: bool, outputOk: bool)

  /** One presentation to the driver: at most `count` bytes, with some allocation outcomes. */
  datatype Presentation = Presentation(count: nat, allocs: seq<bool>)

  /** The firmware after a row of calls. */
  function AfterCalls(s: Esp, calls: seq<Call>): Esp {
    if calls == [] then s else
    var call := calls[|calls| - 1];
    Called(AfterCalls(s, calls[..|calls| - 1]), call.polls, call.allocOk, call.outputOk)
  }

  lemma OneCallMore(s: Esp, calls: seq<Call>, i: nat)
    requires i < |calls|
    ensures AfterCalls(s, calls[..i + 1])
            == Called(AfterCalls(s, calls[..i]), calls[i].polls, calls[i].allocOk, calls[i].outputOk)
  {
    hide Called;
    assert calls[..i + 1][..i] == calls[..i];
  }

  /** On any bytes: what the calls have output (`early`) is a part of what all is in the end. */
  method EspDecodes(stream: bytes, calls: seq<Call>) returns (early: seq<bytes>, packets: seq<bytes>)
    ensures packets == Parse(true, stream).packets
    ensures early == AfterCalls(Esp(STATUS_LEN, [], stream, None, []), calls).output && early <= packets
  {
    hide Next, Parse, I16, LengthOk, BodyOk, EspReceiver.Accounted, EspReceiver.Refines, Called;
    var esp := new EspReceiver.Receiver();
    esp.Arrive(Data, stream);
    ghost var start := esp.State();
    assert calls[..0] == [] && start == Esp(STATUS_LEN, [], stream, None, []);
    for i := 0 to |calls|
      invariant esp.Valid(Data) && esp.total == [] + stream && esp.State() == AfterCalls(start, calls[..i])
      invariant fresh(esp) && fresh(esp.uartRecvBuffer)
    {
      OneCallMore(start, calls, i);
      esp.polls := calls[i].polls;
      var _ := esp.Uart2Wifi(calls[i].allocOk, calls[i].outputOk);
    }
    assert calls[..|calls|] == calls;
    early := esp.output;
    EspReceiver.OutputWithin(esp.total, esp.output, esp.Synced(), esp.Buf() + esp.rx);
    esp.Drain();
    packets := esp.output;
    assert [] + stream == stream;
  }

  /** How many of `n` bytes a row of presentations holds. */
  function Brought(calls: seq<Presentation>, n: nat): nat {
    if calls == [] then 0
    else Min(Brought(calls[..|calls| - 1], n) + calls[|calls| - 1].count, n)
  }

  predicate Enough(calls: seq<Presentation>) {
    forall c <- calls :: HostAsWritten.AllTrue(c.allocs)
  }

  /** The repaired driver, on any bytes whatever. With enough memory it has delivered after every presentation
      exactly the packets complete by then (`early`). */
  method HostDecodes(stream: bytes, calls: seq<Presentation>) returns (early: seq<bytes>, packets: seq<bytes>)
    ensures packets == Parse(true, stream).packets && early <= packets
    ensures Enough(calls) ==> early == Parse(true, stream[..Brought(calls, |stream|)]).packets
  {
    hide Next, Parse, I16, LengthOk, HostAsWritten.Hazard;
    var host := new HostReceiver.Host(true);
    assert Faithful(host, []) by {
      assert [] + Parse(true, []).packets == Parse(true, []).packets;
    }
    assert host.Settled() by { NothingEncoded(); ParseShort([]); NextShort(Data, []); }
    var pending := Serve(host, stream, calls);
    ghost var seen := stream[..|stream| - |pending|];
    early := host.delivered;
    if Enough(calls) {
      Finished(host, seen);
    }
    DeliveredWithin(host, seen, pending);
    assert seen + pending == stream;
    SetAllocs(host, seen, []);
    var ret := Present(host, seen, pending);
    assert seen + pending[..ret] == stream;
    packets := host.delivered;
    Finished(host, stream);
  }

  /** What has been delivered is a part of what the whole stream holds. */
  lemma DeliveredWithin(host: HostReceiver.Host, seen: bytes, rest: bytes)
    requires Faithful(host, seen)
    ensures host.delivered <= Parse(true, seen + rest).packets
  {
    hide Next, Parse;
    ParseCongruent(true, seen, host.delivered, host.Synced(), host.Buf(), rest);
  }

  /** Any sequence of presentations; what a call leaves unprocessed is presented again. */
  method Serve(host: HostReceiver.Host, stream: bytes, calls: seq<Presentation>) returns (pending: bytes)
    requires Faithful(host, []) && host.Valid() && host.Settled()
    modifies host, host.skb
    ensures |pending| <= |stream| && pending == stream[|stream| - |pending|..]
    ensures Faithful(host, stream[..|stream| - |pending|])
    ensures host.skb == null || host.skb == old(host.skb) || fresh(host.skb)
    ensures host.Valid()
    ensures Enough(calls) ==> |stream| - |pending| == Brought(calls, |stream|) && host.Settled()
  {
    hide Parse, HostAsWritten.AllTrue, Faithful, HostReceiver.Host.Settled, HostReceiver.Host.Valid;
    pending := stream;
    ghost var seen := [];
    assert calls[..0] == [];
    for i := 0 to |calls|
      invariant Faithful(host, seen) && host.Valid() && seen + pending == stream
      invariant host.skb == null || host.skb == old(host.skb) || fresh(host.skb)
      invariant Enough(calls) ==> |seen| == Brought(calls[..i], |stream|) && host.Settled()
    {
      var n := Min(calls[i].count, |pending|);
      SetAllocs(host, seen, calls[i].allocs);
      var ret := Present(host, seen, pending[..n]);
      assert pending[..n][..ret] == pending[..ret];
      assert calls[i] in calls && calls[..i + 1][..i] == calls[..i];
      seen, pending := seen + pending[..ret], pending[ret..];
    }
    assert calls[..|calls|] == calls;
    assert stream[..|seen|] == seen && stream[|seen|..] == pending;
  }

  method SetAllocs(host: HostReceiver.Host, ghost seen: bytes, allocs: seq<bool>)
    requires Faithful(host, seen)
    modifies host`allocs
    ensures Faithful(host, seen) && host.Valid() && host.allocs == allocs
  {
    hide Next, Parse;
    host.allocs := allocs;
  }

  ghost predicate Faithful(host: HostReceiver.Host, seen: bytes)
    reads host, host.skb
  {
    && host.repaired && host.Valid()
    && Parse(true, seen) == Prepend(host.delivered, Parse(host.Synced(), host.Buf()))
  }

  method Present(host: HostReceiver.Host, ghost seen: bytes, cp: bytes) returns (ret: nat)
    requires Faithful(host, seen)
    modifies host, host.skb
    ensures ret <= |cp| && Faithful(host, seen + cp[..ret]) && host.Valid()
    ensures host.skb == null || host.skb == old(host.skb) || fresh(host.skb)
    ensures old(HostAsWritten.AllTrue(host.allocs)) ==> ret == |cp| && host.Settled()
  {
    hide Next, Parse;
    var done, fault;
    ghost var tally;
    done, fault, tally := host.ReceiveData(cp);
    ret := done;
    ParseCongruent(true, seen, old(host.delivered), old(host.Synced()), old(host.Buf()), cp[..ret]);
    PrependTwice(old(host.delivered), host.delivered[|old(host.delivered)|..], Parse(host.Synced(), host.Buf()));
  }

  lemma Finished(host: HostReceiver.Host, seen: bytes)
    requires Faithful(host, seen) && host.Settled()
    ensures host.delivered == Parse(true, seen).packets
  {
    hide Next;
  }

  /** On every byte stream, however it is cut for either side and whatever fails on the way, the
      firmware and the repaired driver deliver the same packets. */
  method ReceiversAgree(stream: bytes, calls: seq<Call>, presentations: seq<Presentation>)
    returns (esp: seq<bytes>, host: seq<bytes>)
    ensures esp == host == Parse(true, stream).packets
  {
    var early;
    early, esp := EspDecodes(stream, calls);
    early, host := HostDecodes(stream, presentations);
  }
}
