/**
 The driver's line discipline: `ttyio_receive_buf2` gives incoming bytes to the handshake reader
 `ttyio_netif_info` until that has its 15 bytes, and to the data receiver from then on.
 */
module HostPort {
  import opened Framing
  import opened HostAsWritten
  import opened NetifAsWritten
  import opened NetifNoise
  import opened NetifText
  import opened HostReceiver
  import opened Agreement
  import Downlink


  /** Any part of an announcement followed by data takes the handshake reader on, and the part that
      completes it leaves exactly the data. */
  lemma HandshakeBytes(info: bytes, cp: bytes, after: bytes, addresses: bytes, data: bytes)
    requires |addresses| == 12 && |info| < INFO_LEN && info + (cp + after) == NetifFrame(addresses) + data
    ensures var s := info + cp;
            && Begins(s) && Begins(info) && Verdict(s) != Stuck
            && (|s| < INFO_LEN ==> s + after == NetifFrame(addresses) + data && after != [])
            && (|s| >= INFO_LEN ==> s[..INFO_LEN] == NetifFrame(addresses)
                                    && cp[INFO_LEN - |info|..] + after == data)
  {
    var f, s := NetifFrame(addresses), info + cp;
    assert |f| == INFO_LEN && f[0] == TWELVE && f[1] == 0 && f[INFO_LEN - 1] == SPLIT_CMD;
    hide NetifFrame;
    assert s + after == f + data;
    SameStart(s, after, f, data);
    SameStart(f, data, s, after);
    if |s| >= INFO_LEN {
      assert s[INFO_LEN..] == cp[INFO_LEN - |info|..];
    }
  }

  lemma SameStart(a: bytes, b: bytes, c: bytes, d: bytes)
    requires a + b == c + d
    ensures forall i :: 0 <= i < |a| && i < |c| ==> a[i] == c[i]
    ensures |c| <= |a| ==> a[..|c|] == c && a[|c|..] + b == d
  {
    assert forall i :: 0 <= i < |a| ==> (a + b)[i] == a[i];
    if |c| <= |a| {
      assert (a + b)[..|c|] == a[..|c|] && (a + b)[|c|..] == a[|c|..] + b;
    }
  }

  // ---------------------------------------------------------------------------
  // The state and its steps
  // ---------------------------------------------------------------------------

  /** The line discipline in its two modes: reading the announcement, or with it stored and echoed. */
  datatype Mode = Listening(status: Status, info: bytes) | Connected(stored: bytes, echo: bytes, host: Drv)

  /** What a call leaves, and how many bytes it reports, of those presented. */
  datatype Reply = Reply(mode: Mode, ret: nat)

  function Clamp(p: int, n: nat): nat {
    if p < 0 then 0 else Min(p, n)
  }

  /** One call of `ttyio_receive_buf2`. `tail` is what stands behind the 15 bytes when they are echoed. */
  function Heard(m: Mode, cp: bytes, allocs: seq<bool>, tail: bytes): (r: Reply)
    ensures r.ret <= |cp|
  {
    match m
    case Listening(status, info) =>
      if !Rests(status, info) || Loops(cp, From(status, info, cp)) then Reply(m, 0) else
      (match End(cp, From(status, info, cp))
       case Ends(o, s, i, p) =>
         if o == Waiting then Reply(Listening(s, i), Clamp(p, |cp|))
         else if o == Announced then Reply(Connected(i, i + tail, Drv(true, true, [], [])), Clamp(p, |cp|))
         else Reply(m, 0))
    case Connected(stored, echo, host) =>
      var r := Presented(host, cp, allocs);
      Reply(m.(host := DrvOf(r)), Min(r.processed, |cp|))
  }

  /** The bytes still to be presented, and what the line discipline has come to. */
  datatype Serving = Serving(mode: Mode, pending: bytes)

  function Served(s: Serving, calls: seq<Presentation>): Serving {
    if calls == [] then s else
    var t, call := Served(s, calls[..|calls| - 1]), calls[|calls| - 1];
    var r := Heard(t.mode, t.pending[..Min(call.count, |t.pending|)], call.allocs, ZeroTail());
    Serving(r.mode, t.pending[r.ret..])
  }

  lemma ServedNone(s: Serving, calls: seq<Presentation>)
    ensures Served(s, calls[..0]) == s
  {
  }

  lemma ServedOneMore(s: Serving, calls: seq<Presentation>, i: nat)
    requires i < |calls|
    ensures var t := Served(s, calls[..i]);
            var r := Heard(t.mode, t.pending[..Min(calls[i].count, |t.pending|)], calls[i].allocs, ZeroTail());
            Served(s, calls[..i + 1]) == Serving(r.mode, t.pending[r.ret..])
  {
    hide Heard;
    assert calls[..i + 1][..i] == calls[..i];
  }

  class Port {
    const host: Host
    const netifInfo: array<byte>
    var netifLen: nat
    var netifValid: bool
    var echo: bytes  // what the handshake reader wrote back

    ghost predicate Valid()
      reads this, netifInfo
    {
      netifInfo.Length == ECHO_LEN && netifLen <= INFO_LEN
    }

    /** The bytes stored so far. */
    function Info(): bytes
      requires Valid()
      reads this, netifInfo
    {
      netifInfo[..netifLen]
    }

    /** Where the loop stands, `p` bytes of the call counted as processed and `s` as left. */
    ghost function Here(p: int, s: int): Spot
      requires Valid()
      reads this, netifInfo, host`status
    {
      Spot(host.status, Info(), p, s)
    }

    /** The handshake reader between two calls. */
    ghost predicate Resting()
      requires Valid()
      reads this, netifInfo, host`status
    {
      Rests(host.status, Info())
    }

    constructor ()
      ensures Valid() && Resting() && !netifValid && netifLen == 0 && netifInfo[INFO_LEN..] == ZeroTail()
      ensures fresh(host) && fresh(netifInfo) && host.Valid() && host.skb == null && !host.repaired
      ensures host.status == STATUS_LEN && host.delivered == [] && State() == Listening(STATUS_LEN, [])
    {
      host := new Host(false);
      netifInfo := new byte[ECHO_LEN](_ => 0);
      netifLen, netifValid, echo := 0, false, [];
    }

    ghost predicate On(cp: bytes, p: int, s: int)
      reads this, netifInfo, host`status
    {
      Valid() && Reached(cp, Here(p, s))
    }

    /** One turn from `x` has led here: on with the loop, or to an end. */
    ghost predicate Turned(cp: bytes, x: Spot, again: bool, outcome: Outcome, p: int, s: int)
      requires Placed(cp, x)
      reads this, netifInfo, host`status
    {
      && Valid()
      && Step(cp, x) == (if again then Goes(Here(p, s)) else Ends(outcome, host.status, Info(), p))
      && (!again ==> outcome != Stuck && (outcome.Waiting? ==> Resting())
                     && (outcome.Announced? ==> netifLen == INFO_LEN && host.status == STATUS_DATA))
    }

    /** Stores `k` presented bytes behind those buffered. */
    method Put(cp: bytes, from: nat, k: nat)
      requires Valid() && netifLen + k <= INFO_LEN && from + k <= |cp|
      modifies this`netifLen, netifInfo
      ensures Valid() && netifLen == old(netifLen) + k && Info() == old(Info()) + cp[from..from + k]
      ensures netifInfo[INFO_LEN..] == old(netifInfo[INFO_LEN..])
    {
      ghost var before := Info();
      forall i | 0 <= i < k {
        netifInfo[netifLen + i] := cp[from + i];
      }
      netifLen := netifLen + k;
      assert Info() == before + cp[from..from + k];
    }

    /** Copies what is missing to `want` bytes, or as much of it as was presented. */
    method CopyUpTo(cp: bytes, processed: int, surplus: int, want: nat)
      returns (again: bool, outcome: Outcome, p: int, s: int)
      requires On(cp, processed, surplus) && netifLen < want <= INFO_LEN
      requires host.status == (if netifLen < 2 then STATUS_LEN else STATUS_DATA)
      requires want == if netifLen < 2 then 2 else INFO_LEN
      modifies this`netifLen, netifInfo
      ensures Turned(cp, old(Here(processed, surplus)), again, outcome, p, s)
      ensures netifInfo[INFO_LEN..] == old(netifInfo[INFO_LEN..])
    {
      hide Step, Reached, Rests;
      StepCopies(cp, Here(processed, surplus));
      p, s, outcome := processed, surplus, Waiting;
      if surplus == 0 {
        return false, Waiting, p, s;
      }
      var k := Min(surplus, want - netifLen);
      if k < 0 {
        return false, Overrun, p, s;
      }
      Put(cp, processed, k);
      return true, Waiting, p + k, s - k;
    }

    /** Drops the first `n` buffered bytes in place. */
    method DropFront(n: nat)
      requires Valid() && n <= netifLen
      modifies this`netifLen, netifInfo
      ensures Valid() && Info() == old(Info())[n..] && netifInfo[INFO_LEN..] == old(netifInfo[INFO_LEN..])
    {
      forall i | 0 <= i < netifLen - n {
        netifInfo[i] := netifInfo[n + i];
      }
      netifLen := netifLen - n;
    }

    /** Index of the first 12 in the buffer from `from` on, or its length. */
    method FindTwelve(from: nat) returns (skip: nat)
      requires Valid() && from <= netifLen
      ensures skip == from + Find(Info()[from..], TWELVE)
    {
      hide Find;
      skip := from;
      while skip < netifLen && netifInfo[skip] != TWELVE
        invariant from <= skip <= netifLen && forall i :: from <= i < skip ==> netifInfo[i] != TWELVE
      {
        skip := skip + 1;
      }
      FoundAt(Info(), from, skip);
    }

    method OnLen(cp: bytes, processed: int, surplus: int) returns (again: bool, outcome: Outcome, p: int, s: int)
      requires On(cp, processed, surplus) && host.status == STATUS_LEN
      modifies this`netifLen, netifInfo, host`status
      ensures Turned(cp, old(Here(processed, surplus)), again, outcome, p, s)
      ensures netifInfo[INFO_LEN..] == old(netifInfo[INFO_LEN..])
    {
      if netifLen < 2 {
        again, outcome, p, s := CopyUpTo(cp, processed, surplus, 2);
        return;
      }
      p, s, outcome := processed, surplus, Waiting;
      assert netifInfo[..2] == Info()[..2];
      if I16(netifInfo[..2]) != 12 {
        if netifInfo[0] == TWELVE {
          var skip := FindTwelve(1);
          if skip < netifLen {
            DropFront(skip);
            return true, Waiting, p, s;
          }
          LastTwelve(Info());
        }
        host.status := STATUS_SPLIT;
        return true, Waiting, p, s;
      }
      host.status := STATUS_DATA;
      return true, Waiting, p, s;
    }

    method OnData(cp: bytes, processed: int, surplus: int) returns (again: bool, outcome: Outcome, p: int, s: int)
      requires On(cp, processed, surplus) && host.status == STATUS_DATA
      modifies this`netifLen, netifInfo, host`status
      ensures Turned(cp, old(Here(processed, surplus)), again, outcome, p, s)
      ensures netifInfo[INFO_LEN..] == old(netifInfo[INFO_LEN..])
    {
      if netifLen < INFO_LEN {
        again, outcome, p, s := CopyUpTo(cp, processed, surplus, INFO_LEN);
        return;
      }
      p, s, outcome := processed, surplus, Announced;
      assert netifInfo[14] == Info()[14];
      if netifInfo[14] == SPLIT_CMD {
        return false, Announced, p, s;
      }
      host.status := STATUS_SPLIT;
      return true, Waiting, p, s;
    }

    /** STATUS_SPLIT, off the circles. */
    method OnSplit(cp: bytes, processed: int, surplus: int) returns (again: bool, outcome: Outcome, p: int, s: int)
      requires On(cp, processed, surplus) && host.status == STATUS_SPLIT && !(netifLen > 0 && netifInfo[0] == TWELVE)
      modifies this`netifLen, netifInfo, host`status
      ensures Turned(cp, old(Here(processed, surplus)), again, outcome, p, s) && (!again ==> outcome == Waiting)
      ensures netifInfo[INFO_LEN..] == old(netifInfo[INFO_LEN..])
    {
      p, s, outcome := processed, surplus, Waiting;
      var skip := FindTwelve(0);
      assert Info()[0..] == Info();
      if skip < netifLen {
        DropFront(skip);
        host.status := STATUS_LEN;
        return true, Waiting, p, s;
      }
      netifLen := 0;
      var at := processed;
      while at < |cp| && cp[at] != TWELVE
        invariant processed <= at <= |cp| && forall i :: processed <= i < at ==> cp[i] != TWELVE
      {
        at := at + 1;
      }
      FoundAt(cp, processed, at);
      if at < |cp| {
        host.status := STATUS_LEN;
        return true, Waiting, processed + at, surplus - at;
      }
      return false, Waiting, |cp|, surplus;
    }

    /** `transform_netif_info`: prints the twelve bytes behind the 15. */
    method TransformNetifInfo()
      requires Valid()
      modifies netifInfo
      ensures netifInfo[..INFO_LEN] == old(netifInfo[..INFO_LEN])
      ensures netifInfo[INFO_LEN..] == InfoText(old(netifInfo[2..14]), old(netifInfo[INFO_LEN..]))
    {
      hide Dotted, Printed;
      ghost var tail := netifInfo[INFO_LEN..];
      InfoTextLength(netifInfo[2..14], tail);
      var text := Printed(Dotted(netifInfo[2..14]), TEXT_ROOM);
      forall i | 0 <= i < |text| {
        netifInfo[INFO_LEN + i] := text[i];
      }
      assert netifInfo[INFO_LEN..] == text + tail[|text|..];
    }

    /** How a call ended, from what it left: with the announcement, the 15 bytes stand in front. */
    ghost function Ended(outcome: Outcome, processed: int): Turn
      requires Valid()
      reads this, netifInfo, host`status
    {
      if outcome == Announced then Ends(Announced, STATUS_DATA, netifInfo[..INFO_LEN], processed)
      else Ends(outcome, host.status, Info(), processed)
    }

    /** One call of `ttyio_netif_info`. It is `Stuck`, which stands for a call that never returns, exactly if
        the loop goes round in circles, and otherwise ends where `End` says. State and count live in
        local variables, which the call that gets the announcement does not store back. */
    method NetifInfo(cp: bytes) returns (outcome: Outcome, processed: int)
      requires Valid() && Resting() && !netifValid
      modifies this, netifInfo, host`status
      ensures Valid() && Reached(cp, old(Here(0, |cp|)))
      ensures outcome == Stuck <==> Loops(cp, old(Here(0, |cp|)))
      ensures outcome != Stuck ==> End(cp, old(Here(0, |cp|))) == Ended(outcome, processed)
      ensures outcome == Waiting ==> Resting()
      ensures netifValid == outcome.Announced?
      ensures netifInfo[INFO_LEN..] == if netifValid then InfoText(netifInfo[2..14], old(netifInfo[INFO_LEN..]))
                                       else old(netifInfo[INFO_LEN..])
      ensures netifValid ==> echo == netifInfo[..INFO_LEN] + old(netifInfo[INFO_LEN..])
      ensures netifValid ==> host.status == old(host.status) && netifLen == old(netifLen)
    {
      hide Loops, End, Step, InfoText, Reached;
      var status, len := host.status, netifLen;
      outcome, processed := RestartLoop(cp);
      if outcome == Announced {
        netifValid := true;
        echo := netifInfo[..];
        TransformNetifInfo();
        host.status, netifLen := status, len;
      }
    }

    /** The `restart` loop of a call, on its local variables. */
    method RestartLoop(cp: bytes) returns (outcome: Outcome, processed: int)
      requires Valid() && Resting()
      modifies this`netifLen, netifInfo, host`status
      ensures Valid() && Reached(cp, old(Here(0, |cp|))) && netifInfo[INFO_LEN..] == old(netifInfo[INFO_LEN..])
      ensures outcome == Stuck <==> Loops(cp, old(Here(0, |cp|)))
      ensures outcome != Stuck ==>
                End(cp, old(Here(0, |cp|))) == Ends(outcome, host.status, Info(), processed)
      ensures outcome == Waiting ==> Resting()
      ensures outcome == Announced ==> netifLen == INFO_LEN && host.status == STATUS_DATA
    {
      hide Loops, End, Rests, Reached;
      RestsReached(host.status, Info(), cp);
      ghost var start := Here(0, |cp|);
      var surplus, again;
      processed, surplus, again, outcome := 0, |cp|, true, Waiting;
      while again
        invariant Valid() && Reached(cp, start) && netifInfo[INFO_LEN..] == old(netifInfo[INFO_LEN..])
        invariant again ==> On(cp, processed, surplus) && SameFate(cp, start, Here(processed, surplus))
        invariant !again ==> (outcome == Stuck <==> Loops(cp, start))
        invariant !again && outcome != Stuck ==>
                    End(cp, start) == Ends(outcome, host.status, Info(), processed)
        invariant !again && outcome == Waiting ==> Resting()
        invariant !again && outcome == Announced ==> netifLen == INFO_LEN && host.status == STATUS_DATA
        decreases again, Weight(surplus, netifLen), Weight(surplus, 0), Stage(host.status, netifLen)
      {
        again, outcome, processed, surplus := Turn(cp, processed, surplus);
      }
    }

    /** One turn. `Stuck` says that it would lead round in a circle. */
    method Turn(cp: bytes, processed: int, surplus: int) returns (again: bool, outcome: Outcome, p: int, s: int)
      requires On(cp, processed, surplus)
      modifies this`netifLen, netifInfo, host`status
      ensures Valid() && netifInfo[INFO_LEN..] == old(netifInfo[INFO_LEN..])
      ensures again ==> On(cp, p, s) && SameFate(cp, old(Here(processed, surplus)), Here(p, s))
      ensures again ==> Onward(old(Here(processed, surplus)), Here(p, s))
      ensures !again ==> (outcome == Stuck <==> Loops(cp, old(Here(processed, surplus))))
      ensures !again && outcome != Stuck ==>
                && End(cp, old(Here(processed, surplus))) == Ends(outcome, host.status, Info(), p)
                && (outcome == Waiting ==> Resting())
                && (outcome == Announced ==> netifLen == INFO_LEN && host.status == STATUS_DATA)
    {
      hide Loops, End, Step, Rests, Find, I16, Begins;
      ghost var x := Here(processed, surplus);
      TurnedOn(cp, x);
      if Step(cp, x).Goes? {
        StepKeeps(cp, x);
      }
      match host.status {
        case STATUS_LEN => again, outcome, p, s := OnLen(cp, processed, surplus);
        case STATUS_DATA => again, outcome, p, s := OnData(cp, processed, surplus);
        case STATUS_SPLIT =>
          if netifLen > 0 && netifInfo[0] == TWELVE {
            CirclesLoop(cp, x);
            return false, Stuck, processed, surplus;
          }
          again, outcome, p, s := OnSplit(cp, processed, surplus);
      }
    }

    /** Calls in a row, until one does not wait for more. */
    method Listen(calls: seq<bytes>) returns (outcome: Outcome)
      requires Valid() && Resting() && !netifValid
      modifies this, netifInfo, host`status
      ensures Valid() && outcome == old(Reader(host.status, Info(), calls)).outcome
      ensures netifValid <==> outcome == Announced
      ensures netifValid ==> netifInfo[..INFO_LEN] == old(Reader(host.status, Info(), calls)).info
    {
      hide Loops, End, Reached, Rests, InfoText;
      outcome := Waiting;
      assert calls[0..] == calls;
      for i := 0 to |calls|
        invariant Valid() && Resting() && !netifValid && outcome == Waiting
        invariant old(Reader(host.status, Info(), calls)) == Reader(host.status, Info(), calls[i..])
      {
        ghost var x := From(host.status, Info(), calls[i]);
        assert calls[i..][0] == calls[i] && calls[i..][1..] == calls[i + 1..];
        var processed;
        outcome, processed := NetifInfo(calls[i]);
        if outcome != Waiting {
          return;
        }
      }
    }

    /** A first session in which the firmware sends its announcement and then frames of `ps`, of
        which `pending` is still to come and `seen` has been taken by the data receiver. */
    ghost predicate InSession(addresses: bytes, ps: seq<bytes>, seen: bytes, pending: bytes)
      reads this, netifInfo, host, host.skb
    {
      && Valid() && host.Valid() && !host.repaired && |addresses| == 12 && AllCarried(host.delivered)
      && if netifValid then
           && netifInfo[..INFO_LEN] == NetifFrame(addresses) && echo == NetifFrame(addresses) + ZeroTail()
           && seen + pending == EncodeAll(ps)
           && (AllCarried(ps) ==> Parse(true, seen) == Parsed(host.delivered, host.Synced(), host.Buf()))
         else seen == [] && Hearing(addresses, ps, pending)
    }

    /** The announcement is not complete. */
    ghost predicate Hearing(addresses: bytes, ps: seq<bytes>, pending: bytes)
      requires Valid()
      reads this, netifInfo, host
    {
      && host.skb == null && host.delivered == [] && netifLen < INFO_LEN
      && host.status != STATUS_SPLIT && Resting() && netifInfo[INFO_LEN..] == ZeroTail()
      && Info() + pending == NetifFrame(addresses) + EncodeAll(ps)
    }

    function State(): Mode
      requires Valid() && host.Valid()
      reads this, netifInfo, host, host.skb
    {
      if netifValid then Connected(netifInfo[..INFO_LEN], echo, host.State())
      else Listening(host.status, Info())
    }

    /** A driver that was just set up is at the beginning of a session. */
    lemma Begin(addresses: bytes, ps: seq<bytes>)
      requires Valid() && Resting() && !netifValid && netifLen == 0 && netifInfo[INFO_LEN..] == ZeroTail()
      requires host.Valid() && host.skb == null && !host.repaired && host.delivered == []
      requires host.status == STATUS_LEN && |addresses| == 12
      ensures InSession(addresses, ps, [], NetifFrame(addresses) + EncodeAll(ps))
    {
      hide EncodeAll, NetifFrame, ZeroTail;
      var pending := NetifFrame(addresses) + EncodeAll(ps);
      assert Info() + pending == pending;
    }

    /** With nothing left to come, the announcement is stored and the packets delivered. */
    lemma Done(addresses: bytes, ps: seq<bytes>, seen: bytes)
      requires InSession(addresses, ps, seen, []) && netifValid
      ensures netifInfo.Length == ECHO_LEN && netifInfo[..INFO_LEN] == NetifFrame(addresses)
      ensures echo == NetifFrame(addresses) + ZeroTail() && (host.delivered == ps <==> AllCarried(ps))
    {
      hide Next, Parse, EncodeAll, NetifFrame, ZeroTail;
      assert seen + [] == seen;
      RoundTrip(ps);
    }

    /** The outcomes of the allocations to come. */
    method Supply(allocs: seq<bool>, ghost addresses: bytes, ghost ps: seq<bytes>, ghost seen: bytes,
                  ghost pending: bytes)
      requires InSession(addresses, ps, seen, pending)
      modifies host`allocs
      ensures InSession(addresses, ps, seen, pending) && host.allocs == allocs
      ensures Valid() && host.Valid() && State() == old(State())
    {
      host.allocs := allocs;
    }

    /** One call of `ttyio_receive_buf2` with `cp`, of which `after` is still to follow. */
    method ReceiveBuf2(cp: bytes, ghost after: bytes, ghost addresses: bytes, ghost ps: seq<bytes>, ghost seen: bytes)
      returns (ret: nat, ghost now: bytes)
      requires InSession(addresses, ps, seen, cp + after)
      modifies this, netifInfo, host, host.skb
      ensures ret <= |cp| && InSession(addresses, ps, now, cp[ret..] + after)
      ensures Valid() && host.Valid() && Reply(State(), ret) == old(Heard(State(), cp, host.allocs, ZeroTail()))
      ensures host.skb == null || host.skb == old(host.skb) || fresh(host.skb)
      ensures old(netifValid) ==> netifValid && echo == old(echo)
      ensures !old(netifValid) ==> host.skb == old(host.skb) && (after == [] ==> netifValid)
      ensures !netifValid ==> ret == |cp|
      ensures netifValid ==> echo == NetifFrame(addresses) + ZeroTail()
      ensures now == if old(netifValid) then seen + cp[..ret] else []
      ensures old(AllTrue(host.allocs)) ==> AllTrue(host.allocs) && (old(netifValid) ==> ret == |cp|)
      ensures AllCarried(ps) ==> old(host.delivered) <= host.delivered
    {
      if netifValid {
        ret, now := InDataMode(cp, after, addresses, ps, seen);
      } else {
        ret := InHandshake(cp, after, addresses, ps);
        now := [];
      }
    }

    method InHandshake(cp: bytes, ghost after: bytes, ghost addresses: bytes, ghost ps: seq<bytes>) returns (ret: nat)
      requires InSession(addresses, ps, [], cp + after) && !netifValid
      modifies this, netifInfo, host`status
      ensures ret <= |cp| && InSession(addresses, ps, [], cp[ret..] + after)
      ensures Reply(State(), ret) == old(Heard(State(), cp, host.allocs, ZeroTail()))
      ensures after == [] ==> netifValid
      ensures !netifValid ==> ret == |cp|
    {
      hide Next, Parse, EncodeAll, NetifFrame, Begins, Verdict, ZeroTail, Loops, End, InfoText, InSession;
      assert Valid() by { AlwaysValid(addresses, ps, cp + after); }
      StillHearing(addresses, ps, cp + after);
      ghost var start, s := Here(0, |cp|), Info() + cp;
      HandshakeBytes(Info(), cp, after, addresses, EncodeAll(ps));
      assert Info() + cp[0..] == s;
      ProperRun(cp, start);
      var outcome, processed := NetifInfo(cp);
      assert Ended(outcome, processed) == ProperEnd(cp, s);
      ret := processed;
      if outcome == Announced {
        Announces(addresses, ps, cp[ret..] + after);
      } else {
        assert cp[ret..] + after == after && Info() == s;
        StillHearing(addresses, ps, after);
        assert cp[ret..] == [];
      }
    }

    lemma AlwaysValid(addresses: bytes, ps: seq<bytes>, pending: bytes)
      requires InSession(addresses, ps, [], pending)
      ensures Valid()
    {
    }

    lemma StillHearing(addresses: bytes, ps: seq<bytes>, pending: bytes)
      requires Valid() && !netifValid
      ensures InSession(addresses, ps, [], pending)
              <==> Hearing(addresses, ps, pending) && host.Valid() && !host.repaired && |addresses| == 12
    {
      assert host.delivered == [] ==> AllCarried(host.delivered);
    }

    lemma Announces(addresses: bytes, ps: seq<bytes>, pending: bytes)
      requires Valid() && host.Valid() && !host.repaired && |addresses| == 12 && netifValid
      requires netifInfo[..INFO_LEN] == NetifFrame(addresses) && echo == NetifFrame(addresses) + ZeroTail()
      requires host.skb == null && host.delivered == [] && pending == EncodeAll(ps)
      ensures InSession(addresses, ps, [], pending)
    {
      hide Next, Parse, EncodeAll, NetifFrame, ZeroTail;
      NothingEncoded();
      assert [] + pending == pending;
    }

    method InDataMode(cp: bytes, ghost after: bytes, ghost addresses: bytes, ghost ps: seq<bytes>, ghost seen: bytes)
      returns (ret: nat, ghost now: bytes)
      requires InSession(addresses, ps, seen, cp + after) && netifValid
      modifies host, host.skb
      ensures ret <= |cp| && InSession(addresses, ps, now, cp[ret..] + after) && now == seen + cp[..ret]
      ensures Reply(State(), ret) == old(Heard(State(), cp, host.allocs, ZeroTail()))
      ensures host.skb == null || host.skb == old(host.skb) || fresh(host.skb)
      ensures old(AllTrue(host.allocs)) ==> ret == |cp| && AllTrue(host.allocs)
      ensures AllCarried(ps) ==> old(host.delivered) <= host.delivered
    {
      hide Next, Parse, EncodeAll, NetifFrame;
      assert seen + cp <= EncodeAll(ps) by {
        assert seen + cp == (seen + (cp + after))[..|seen| + |cp|];
      }
      ret := Downlink.Present(host, cp, ps, seen);
      now := seen + cp[..ret];
      assert now + (cp[ret..] + after) == seen + (cp + after);
    }
  }

  lemma FoundAt(s: bytes, from: nat, k: nat)
    requires from <= k <= |s| && (k < |s| ==> s[k] == TWELVE)
    requires forall i :: from <= i < k ==> s[i] != TWELVE
    ensures Find(s[from..], TWELVE) == k - from
  {
    FindIs(s[from..], TWELVE, k - from);
  }

  /** Before the last 12 of the bytes there is none behind the first. */
  lemma LastTwelve(info: bytes)
    requires |info| >= 2 && info[0] == TWELVE && 1 + Find(info[1..], TWELVE) == |info|
    ensures TWELVE !in info[1..]
  {
    assert info[1..][..|info| - 1] == info[1..];
  }

  /** A whole first session of the driver: an announcement followed by frames, presented in any
      pieces with any allocation failures and then to the end. The first 15 bytes are stored and
      echoed in front of an all-zero tail, and every later byte reaches the data receiver, which
      delivers exactly the packets if these have 20 to 1500 bytes. */
  method FirstConnection(addresses: bytes, ps: seq<bytes>, calls: seq<Presentation>)
    returns (before: Serving, info: bytes, echo: bytes, packets: seq<bytes>)
    requires |addresses| == 12
    ensures before == Served(Serving(Listening(STATUS_LEN, []), NetifFrame(addresses) + EncodeAll(ps)), calls)
    ensures info == NetifFrame(addresses) && (packets == ps <==> AllCarried(ps))
    ensures echo == NetifFrame(addresses) + ZeroTail()
  {
    hide EncodeAll, NetifFrame, ZeroTail, Port.InSession, Port.State, Heard, Served, AllCarried;
    ServedNone(Serving(Listening(STATUS_LEN, []), NetifFrame(addresses) + EncodeAll(ps)), calls);
    var port := new Port();
    var pending := NetifFrame(addresses) + EncodeAll(ps);
    ghost var seen := [];
    port.Begin(addresses, ps);
    ghost var start := Serving(port.State(), pending);
    for i := 0 to |calls|
      invariant port.InSession(addresses, ps, seen, pending) && port.Valid() && port.host.Valid()
      invariant Serving(port.State(), pending) == Served(start, calls[..i])
      invariant fresh(port) && fresh(port.netifInfo) && fresh(port.host)
      invariant port.host.skb == null || fresh(port.host.skb)
    {
      ServedOneMore(start, calls, i);
      port.Supply(calls[i].allocs, addresses, ps, seen, pending);
      var ret;
      var n := Min(calls[i].count, |pending|);
      assert pending == pending[..n] + pending[n..];
      ret, seen := port.ReceiveBuf2(pending[..n], pending[n..], addresses, ps, seen);
      assert pending[..n][ret..] + pending[n..] == pending[ret..];
      pending := pending[ret..];
    }
    assert calls[..|calls|] == calls;
    before := Serving(port.State(), pending);
    port.Supply([], addresses, ps, seen, pending);
    var ret;
    assert pending + [] == pending;
    ret, seen := port.ReceiveBuf2(pending, [], addresses, ps, seen);
    pending := pending[ret..];
    assert pending + [] == pending;
    ret, seen := port.ReceiveBuf2(pending, [], addresses, ps, seen);
    assert pending[ret..] + [] == [];
    port.Done(addresses, ps, seen);
    return before, port.netifInfo[..INFO_LEN], port.echo, port.host.delivered;
  }
}
