/**
 The driver's receiver, as written, over a whole stream: which streams it takes right however they are
 cut into presentations and whichever allocations fail.
 */
module HostCuts {
  import opened Framing
  import opened HostAsWritten
  import opened HostReceiver
  import opened Agreement
  import HostHazards

  // ---------------------------------------------------------------------------
  // One long call is the worst
  // ---------------------------------------------------------------------------

  /** The more bytes of a call are done, the more hazards. */
  lemma {:induction false} MoreDoneMoreHazard(synced: bool, buf: bytes, rest: bytes, done: nat, more: nat)
    requires Hazard(synced, buf, rest, done, []) && done <= more
    ensures Hazard(synced, buf, rest, more, [])
    decreases |buf| + |rest|, |rest|, synced
  {
    hide Hazard;
    if !synced {
      var k, j := Find(buf, SPLIT_DATA), Find(rest, SPLIT_DATA);
      if k < |buf| {
        HazardSkip(buf, rest, done, [], k);
        HazardSkip(buf, rest, more, [], k);
        MoreDoneMoreHazard(true, buf[k + 1..], rest, done, more);
      } else {
        assert buf[..k] == buf;
        if j < |rest| {
          HazardHit(buf, rest, done, [], j);
          HazardHit(buf, rest, more, [], j);
        } else {
          assert rest[..j] == rest;
          HazardMiss(buf, rest, done, []);
        }
      }
    } else if |buf| < 2 || (LengthOk(Data, I16(buf)) && |buf| < I16(buf) + 3) {
      var want := if |buf| < 2 then 2 else I16(buf) + 3;
      HazardFill(buf, rest, done, [], want);
      HazardFill(buf, rest, more, [], want);
      var k := Min(|rest|, want - |buf|);
      MoreDoneMoreHazard(true, buf + rest[..k], rest[k..], done + k, more + k);
    } else if Accepted(Data, buf) {
      HazardFrame(buf, rest, done, []);
      HazardFrame(buf, rest, more, []);
      if |buf| == I16(buf) + 3 {
        MoreDoneMoreHazard(true, [], rest, done, more);
      }
    } else {
      HazardBad(buf, rest, done, []);
      HazardBad(buf, rest, more, []);
      MoreDoneMoreHazard(false, buf, rest, done, more);
    }
  }

  /** Copying a part of what is missing first changes nothing. */
  lemma FillPart(buf: bytes, rest: bytes, done: nat, want: nat, k: nat)
    requires if |buf| < 2 then want == 2 else LengthOk(Data, I16(buf)) && |buf| < want == I16(buf) + 3
    requires k <= |rest| && |buf| + k <= want
    ensures Hazard(true, buf, rest, done, []) == Hazard(true, buf + rest[..k], rest[k..], done + k, [])
  {
    hide Hazard;
    var b, r := buf + rest[..k], rest[k..];
    HazardFill(buf, rest, done, [], want);
    if k == 0 {
      assert b == buf && r == rest;
    } else if |b| < want {
      HazardFill(b, r, done + k, [], want);
      if r != [] {
        var i, j := Min(|rest|, want - |buf|), Min(|r|, want - |b|);
        assert i == k + j && b + r[..j] == buf + rest[..i] && r[j..] == rest[i..];
      } else {
        assert k == Min(|rest|, want - |buf|);
      }
    }
  }

  /** A longer call meets every hazard of a shorter one. */
  lemma {:induction false} LongerCall(synced: bool, buf: bytes, a: bytes, c: bytes, done: nat)
    requires Hazard(synced, buf, a, done, [])
    ensures Hazard(synced, buf, a + c, done, [])
    decreases |buf| + |a|, |a|, synced
  {
    hide Hazard;
    if !synced {
      var k, j := Find(buf, SPLIT_DATA), Find(a, SPLIT_DATA);
      if k < |buf| {
        HazardSkip(buf, a, done, [], k);
        HazardSkip(buf, a + c, done, [], k);
        LongerCall(true, buf[k + 1..], a, c, done);
      } else {
        assert buf[..k] == buf;
        if j < |a| {
          SliceOfSum(a, c, j);
          SliceOfSum(a, c, j + 1);
          HazardHit(buf, a, done, [], j);
          HazardHit(buf, a + c, done, [], j);
          if done == 0 {
            LongerCall(true, [], a[j + 1..], c, j + 1);
          }
        } else {
          assert a[..j] == a;
          HazardMiss(buf, a, done, []);
        }
      }
    } else if |buf| < 2 || (LengthOk(Data, I16(buf)) && |buf| < I16(buf) + 3) {
      var want := if |buf| < 2 then 2 else I16(buf) + 3;
      HazardFill(buf, a, done, [], want);
      var k := Min(|a|, want - |buf|);
      FillPart(buf, a + c, done, want, k);
      SliceOfSum(a, c, k);
      LongerCall(true, buf + a[..k], a[k..], c, done + k);
    } else if Accepted(Data, buf) {
      HazardFrame(buf, a, done, []);
      HazardFrame(buf, a + c, done, []);
      if |buf| == I16(buf) + 3 {
        LongerCall(true, [], a, c, done);
      }
    } else {
      HazardBad(buf, a, done, []);
      HazardBad(buf, a + c, done, []);
      LongerCall(false, buf, a, c, done);
    }
  }

  /** A call without a hazard, followed by another: what that meets, one long call would have met. */
  lemma {:induction false} TwoCalls(synced: bool, buf: bytes, cp: bytes, p: nat, allocs: seq<bool>,
                                    delivered: seq<bytes>, t: Tally, c: bytes)
    requires p <= |cp| && !Hazard(synced, buf, cp[p..], p, allocs)
    ensures var r := Written(synced, buf, cp, p, allocs, delivered, t);
            && p <= r.processed <= |cp|
            && (Hazard(r.synced, r.buf, cp[r.processed..] + c, 0, []) ==> Hazard(synced, buf, cp[p..] + c, p, []))
    decreases Weight(|cp| - p, 0) + |buf|, Weight(|cp| - p, 0), synced
  {
    hide Written, Hazard;
    if !synced {
      TwoCallsLost(buf, cp, p, allocs, delivered, t, c);
    } else if |buf| < 2 || (LengthOk(Data, I16(buf)) && |buf| < I16(buf) + 3) {
      var want := if |buf| < 2 then 2 else I16(buf) + 3;
      if p == |cp| {
        WrittenStops(buf, cp, p, allocs, delivered, t);
        Restarted(true, buf, cp[p..] + c, p);
      } else {
        var k := Min(|cp| - p, want - |buf|);
        WrittenCopies(buf, cp, p, allocs, delivered, t, k);
        HazardCopies(buf, cp, p, allocs, k);
        TwoCalls(true, buf + cp[p..p + k], cp, p + k, allocs, delivered, t.(touched := t.touched + k), c);
        FillPart(buf, cp[p..] + c, p, want, k);
        SliceOfSum(cp[p..], c, k);
        SliceOfSlice(cp, p, k);
      }
    } else if Accepted(Data, buf) {
      WrittenDelivers(buf, cp, p, allocs, delivered, t);
      HazardFrame(buf, cp[p..], p, allocs);
      HazardFrame(buf, cp[p..] + c, p, []);
      if AllocOk(allocs) {
        TwoCalls(true, [], cp, p, Later(allocs), delivered + [buf[2..|buf| - 1]],
                 t.(excess := t.excess + |buf| - (I16(buf) + 3)), c);
      } else {
        Restarted(true, [], cp[p..] + c, p);
      }
    } else {
      WrittenBad(buf, cp, p, allocs, delivered, t);
      HazardBad(buf, cp[p..], p, allocs);
      HazardBad(buf, cp[p..] + c, p, []);
      TwoCalls(false, buf, cp, p, allocs, delivered, t, c);
    }
  }

  lemma {:induction false} TwoCallsLost(buf: bytes, cp: bytes, p: nat, allocs: seq<bool>,
                                        delivered: seq<bytes>, t: Tally, c: bytes)
    requires p <= |cp| && !Hazard(false, buf, cp[p..], p, allocs)
    ensures var r := Written(false, buf, cp, p, allocs, delivered, t);
            && p <= r.processed <= |cp|
            && (Hazard(r.synced, r.buf, cp[r.processed..] + c, 0, []) ==> Hazard(false, buf, cp[p..] + c, p, []))
    decreases Weight(|cp| - p, 0) + |buf|, Weight(|cp| - p, 0), false, 0
  {
    hide Written, Hazard;
    var k, j := Find(buf, SPLIT_DATA), Find(cp[p..], SPLIT_DATA);
    if k < |buf| {
      WrittenSkips(buf, cp, p, allocs, delivered, t, k);
      HazardSkip(buf, cp[p..], p, allocs, k);
      HazardSkip(buf, cp[p..] + c, p, [], k);
      TwoCalls(true, buf[k + 1..], cp, p, allocs, delivered, t, c);
      return;
    }
    assert buf[..k] == buf;
    if j < |cp| - p {
      HazardHit(buf, cp[p..], p, allocs, j);
      assert p == 0 && cp[0..] == cp && cp[0..j] == cp[..j];
      SliceOfSum(cp, c, j);
      SliceOfSum(cp, c, j + 1);
      HazardHit(buf, cp + c, 0, [], j);
      WrittenHits(buf, cp, 0, allocs, delivered, t, j);
      TwoCalls(true, [], cp, j + 1, allocs, delivered, t.(touched := t.touched + j + 1), c);
    } else {
      assert cp[p..][..j] == cp[p..];
      WrittenMisses(buf, cp, p, allocs, delivered, t);
      assert cp[|cp|..] + c == c;
      LostBefore(buf, cp[p..], c, p);
    }
  }

  lemma Restarted(synced: bool, buf: bytes, rest: bytes, p: nat)
    ensures Hazard(synced, buf, rest, 0, []) ==> Hazard(synced, buf, rest, p, [])
  {
    hide Hazard;
    if Hazard(synced, buf, rest, 0, []) {
      MoreDoneMoreHazard(synced, buf, rest, 0, p);
    }
  }

  /** A lost receiver that has dropped bytes without a split byte. */
  lemma LostBefore(buf: bytes, a: bytes, c: bytes, p: nat)
    requires SPLIT_DATA !in buf && SPLIT_DATA !in a
    ensures Hazard(false, [], c, 0, []) ==> Hazard(false, buf, a + c, p, [])
  {
    hide Hazard;
    var j := Find(c, SPLIT_DATA);
    if j < |c| {
      assert (a + c)[..|a| + j] == a + c[..j] && (a + c)[|a| + j + 1..] == c[j + 1..];
      HazardHit([], c, 0, [], j);
      HazardHit(buf, a + c, p, [], |a| + j);
      if Hazard(true, [], c[j + 1..], j + 1, []) {
        MoreDoneMoreHazard(true, [], c[j + 1..], j + 1, |a| + j + 1);
      }
    } else {
      assert c[..j] == c;
      HazardMiss([], c, 0, []);
    }
  }

  // ---------------------------------------------------------------------------
  // Calls in a row
  // ---------------------------------------------------------------------------

  /** No presentation of `s`, cut and hindered as `calls` says, is hazardous; what a call leaves unprocessed is
      presented again. A call that gets no first buffer does nothing, and one that gets it is as one
      without the first of its allocations. */
  predicate SafeCalls(synced: bool, buf: bytes, s: bytes, calls: seq<Presentation>)
    decreases |calls|
  {
    calls == []
    || var cp := s[..Min(calls[0].count, |s|)];
       var r := Written(synced, buf, cp, 0, calls[0].allocs, [], Tally(0, 0));
       && !Hazard(synced, buf, cp, 0, calls[0].allocs) && 0 <= r.processed <= |cp|
       && SafeCalls(r.synced, r.buf, s[r.processed..], calls[1..])
  }

  /** A call of a stream without hazards has none either, and leaves a stream without. */
  lemma PartOfSafe(synced: bool, buf: bytes, s: bytes, n: nat, allocs: seq<bool>, delivered: seq<bytes>)
    requires n <= |s| && !Hazard(synced, buf, s, 0, [])
    ensures !Hazard(synced, buf, s[..n], 0, allocs)
    ensures var r := Written(synced, buf, s[..n], 0, allocs, delivered, Tally(0, 0));
            0 <= r.processed <= n && !Hazard(r.synced, r.buf, s[r.processed..], 0, [])
  {
    hide Hazard, Written;
    var cp, c := s[..n], s[n..];
    assert s == cp + c && cp[0..] == cp;
    if Hazard(synced, buf, cp, 0, allocs) {
      MoreMemoryMoreHazard(synced, buf, cp, 0, allocs);
      LongerCall(synced, buf, cp, c, 0);
      assert false;
    }
    TwoCalls(synced, buf, cp, 0, allocs, delivered, Tally(0, 0), c);
    var p := Written(synced, buf, cp, 0, allocs, delivered, Tally(0, 0)).processed;
    assert s[p..] == cp[p..] + c;
  }

  lemma {:induction false} SafeInCalls(synced: bool, buf: bytes, s: bytes, calls: seq<Presentation>)
    requires !Hazard(synced, buf, s, 0, [])
    ensures SafeCalls(synced, buf, s, calls)
    decreases |calls|
  {
    hide Hazard, Written;
    if calls != [] {
      var n := Min(calls[0].count, |s|);
      PartOfSafe(synced, buf, s, n, calls[0].allocs, []);
      var r := Written(synced, buf, s[..n], 0, calls[0].allocs, [], Tally(0, 0));
      SafeInCalls(r.synced, r.buf, s[r.processed..], calls[1..]);
    }
  }

  // ---------------------------------------------------------------------------
  // The streams
  // ---------------------------------------------------------------------------

  /** Decoding `s`, of which the first `w` bytes have been read: every run that is skipped ends in a split byte
      among those read, or no split byte follows at all; and no frame ends before them. */
  predicate Tame(s: bytes, w: nat)
    requires w <= |s|
    decreases |s|, |s| - w
  {
    if w < 2 then |s| < 2 || Tame(s, 2)
    else if LengthOk(Data, I16(s)) && w < I16(s) + 3 then |s| < I16(s) + 3 || Tame(s, I16(s) + 3)
    else if LengthOk(Data, I16(s)) && BodyOk(Data, s) then w == I16(s) + 3 && Tame(s[w..], 0)
    else
      var k := Find(s[..w], SPLIT_DATA);
      if k < w then Tame(s[k + 1..], w - (k + 1)) else SPLIT_DATA !in s[w..]
  }

  lemma TameFill(buf: bytes, rest: bytes, want: nat)
    requires if |buf| < 2 then want == 2 else LengthOk(Data, I16(buf)) && |buf| < want == I16(buf) + 3
    ensures Tame(buf + rest, |buf|) <==> |buf| + |rest| < want || Tame(buf + rest, want)
  {
  }

  lemma TameFrame(buf: bytes, rest: bytes)
    requires Accepted(Data, buf)
    ensures Tame(buf + rest, |buf|) <==> |buf| == I16(buf) + 3 && Tame(rest, 0)
  {
    BodyOkAppend(Data, buf, rest);
    assert (buf + rest)[|buf|..] == rest;
  }

  lemma TameSkip(s: bytes, w: nat)
    requires 2 <= w <= |s|
    requires LengthOk(Data, I16(s)) ==> w >= I16(s) + 3 && !BodyOk(Data, s)
    ensures var k := Find(s[..w], SPLIT_DATA);
            Tame(s, w) <==> if k < w then Tame(s[k + 1..], w - (k + 1)) else SPLIT_DATA !in s[w..]
  {
  }

  lemma TameBad(buf: bytes, rest: bytes)
    requires |buf| >= 2
    requires LengthOk(Data, I16(buf)) ==> |buf| >= I16(buf) + 3 && !BodyOk(Data, buf)
    ensures var k := Find(buf, SPLIT_DATA);
            Tame(buf + rest, |buf|)
            <==> if k < |buf| then Tame(buf[k + 1..] + rest, |buf| - (k + 1)) else SPLIT_DATA !in rest
  {
    hide Tame, Find, BodyOk, LengthOk;
    var s, k := buf + rest, Find(buf, SPLIT_DATA);
    if LengthOk(Data, I16(buf)) {
      BodyOkAppend(Data, buf, rest);
    }
    assert s[..|buf|] == buf && s[|buf|..] == rest && I16(s) == I16(buf);
    TameSkip(s, |buf|);
    if k < |buf| {
      assert s[k + 1..] == buf[k + 1..] + rest;
    }
  }

  lemma {:induction false} TameExact(buf: bytes, rest: bytes, done: nat)
    requires done > 0 || buf == []
    ensures Hazard(true, buf, rest, done, []) <==> !Tame(buf + rest, |buf|)
    decreases |buf| + |rest|, |rest|
  {
    hide Hazard, Tame;
    if |buf| < 2 || (LengthOk(Data, I16(buf)) && |buf| < I16(buf) + 3) {
      var want := if |buf| < 2 then 2 else I16(buf) + 3;
      TameFill(buf, rest, want);
      HazardFill(buf, rest, done, [], want);
      if rest != [] {
        var k := Min(|rest|, want - |buf|);
        var b := buf + rest[..k];
        assert b + rest[k..] == buf + rest;
        if |b| < want {
          HazardFill(b, rest[k..], done + k, [], want);
        } else {
          TameExact(b, rest[k..], done + k);
        }
      }
    } else if Accepted(Data, buf) {
      TameFrame(buf, rest);
      HazardFrame(buf, rest, done, []);
      assert [] + rest == rest;
      TameExact([], rest, done);
    } else {
      TameBad(buf, rest);
      HazardBad(buf, rest, done, []);
      TameLost(buf, rest, done);
    }
  }

  lemma {:induction false} TameLost(buf: bytes, rest: bytes, done: nat)
    requires done > 0 && |buf| >= 2
    ensures var k := Find(buf, SPLIT_DATA);
            Hazard(false, buf, rest, done, [])
            <==> if k < |buf| then !Tame(buf[k + 1..] + rest, |buf| - (k + 1)) else SPLIT_DATA in rest
    decreases |buf| + |rest|, |rest|, 0
  {
    hide Hazard, Tame;
    var k, j := Find(buf, SPLIT_DATA), Find(rest, SPLIT_DATA);
    if k < |buf| {
      HazardSkip(buf, rest, done, [], k);
      TameExact(buf[k + 1..], rest, done);
    } else {
      assert buf[..k] == buf;
      if j < |rest| {
        HazardHit(buf, rest, done, [], j);
      } else {
        assert rest[..j] == rest;
        HazardMiss(buf, rest, done, []);
      }
    }
  }

  /** The streams the driver's receiver takes without a hazard however they are cut and whichever allocations
      fail are exactly the tame ones. */
  lemma SafeExactly(s: bytes)
    ensures (forall calls :: SafeCalls(true, [], s, calls)) <==> Tame(s, 0)
  {
    hide Hazard, Tame, SafeCalls;
    assert [] + s == s;
    TameExact([], s, 0);
    if Tame(s, 0) {
      forall calls ensures SafeCalls(true, [], s, calls) {
        SafeInCalls(true, [], s, calls);
      }
    } else {
      InOneCall(s);
    }
  }

  lemma InOneCall(s: bytes)
    requires Hazard(true, [], s, 0, [])
    ensures !SafeCalls(true, [], s, [Presentation(|s|, [])])
  {
    hide Hazard, Written;
    assert s[..Min(|s|, |s|)] == s;
  }

  // ---------------------------------------------------------------------------
  // And takes them right
  // ---------------------------------------------------------------------------

  /** What holds between two presentations of a tame stream. */
  ghost predicate OnTame(host: Host, seen: bytes, pending: bytes)
    reads host, host.skb
  {
    && host.Valid() && !host.repaired && !Hazard(host.Synced(), host.Buf(), pending, 0, [])
    && Parse(true, seen) == Prepend(host.delivered, Parse(host.Synced(), host.Buf()))
  }

  method SetAllocs(host: Host, ghost seen: bytes, ghost pending: bytes, allocs: seq<bool>)
    requires OnTame(host, seen, pending)
    modifies host`allocs
    ensures OnTame(host, seen, pending) && host.allocs == allocs && host.Valid() && host.State() == old(host.State())
  {
    hide Hazard, Parse;
    host.allocs := allocs;
  }

  method PresentTame(host: Host, ghost seen: bytes, pending: bytes, n: nat) returns (ret: nat)
    requires OnTame(host, seen, pending) && n <= |pending|
    modifies host, host.skb
    ensures ret <= n && OnTame(host, seen + pending[..ret], pending[ret..])
    ensures var r := Presented(old(host.State()), pending[..n], old(host.allocs));
            host.Valid() && host.State() == DrvOf(r) && ret == Min(r.processed, n)
    ensures host.skb == null || host.skb == old(host.skb) || fresh(host.skb)
    ensures old(AllTrue(host.allocs)) ==> ret == n && host.Settled()
  {
    hide Next, Parse, Hazard, Written, AllTrue;
    SafeHere(host, pending, n);
    var done, fault;
    ghost var tally;
    done, fault, tally := host.ReceiveData(pending[..n]);
    ret := done;
    assert pending[..n][..ret] == pending[..ret];
    TamePart(seen, old(host.delivered), old(host.Synced()), old(host.Buf()), pending[..ret],
             host.delivered, host.Synced(), host.Buf());
  }

  lemma SafeHere(host: Host, pending: bytes, n: nat)
    requires host.Valid() && !host.repaired && !Hazard(host.Synced(), host.Buf(), pending, 0, []) && n <= |pending|
    ensures !host.Hazardous(pending[..n])
    ensures var r := host.Foreseen(pending[..n]);
            0 <= r.processed <= n && !Hazard(r.synced, r.buf, pending[r.processed..], 0, [])
  {
    hide Hazard, Written;
    var used := if host.skb == null then Later(host.allocs) else host.allocs;
    PartOfSafe(host.Synced(), host.Buf(), pending, n, used, host.delivered);
  }

  lemma TamePart(seen: bytes, d: seq<bytes>, m: bool, buf: bytes, c: bytes, all: seq<bytes>, n: bool, left: bytes)
    requires Parse(true, seen) == Prepend(d, Parse(m, buf))
    requires d <= all && Parse(m, buf + c) == Prepend(all[|d|..], Parse(n, left))
    ensures Parse(true, seen + c) == Prepend(all, Parse(n, left))
  {
    hide Next, Parse;
    ParseCongruent(true, seen, d, m, buf, c);
    PrependTwice(d, all[|d|..], Parse(n, left));
    assert d + all[|d|..] == all;
  }

  /** The driver and the bytes still to be presented, after a row of presentations. */
  datatype Serving = Serving(host: Drv, pending: bytes)

  function Served(s: Serving, calls: seq<Presentation>): Serving {
    if calls == [] then s
    else ServedOne(Served(s, calls[..|calls| - 1]), calls[|calls| - 1])
  }

  function ServedOne(s: Serving, call: Presentation): Serving {
    var n := Min(call.count, |s.pending|);
    var r := Presented(s.host, s.pending[..n], call.allocs);
    Serving(DrvOf(r), s.pending[Min(r.processed, n)..])
  }

  lemma ServedNone(s: Serving, calls: seq<Presentation>)
    ensures Served(s, calls[..0]) == s
  {
  }

  lemma ServedOneMore(s: Serving, calls: seq<Presentation>, i: nat)
    requires i < |calls|
    ensures Served(s, calls[..i + 1]) == ServedOne(Served(s, calls[..i]), calls[i])
  {
    hide ServedOne;
    assert calls[..i + 1][..i] == calls[..i];
  }

  /** On a tame stream the driver as written delivers exactly the packets of the reference decoding, whatever
      the cuts and the failures; after any presentations it has delivered a part of them (`early`). */
  method TameDecodes(stream: bytes, calls: seq<Presentation>) returns (early: seq<bytes>, packets: seq<bytes>)
    requires Tame(stream, 0)
    ensures packets == Parse(true, stream).packets && early <= packets
    ensures early == Served(Serving(Drv(true, true, [], []), stream), calls).host.delivered
  {
    hide Parse, Hazard, Tame, OnTame, Presented, Served;
    var host := new Host(false);
    assert OnTame(host, [], stream) by { TameStart(host, stream); }
    FreshDrv(host);
    var pending := ServeTame(host, stream, calls);
    ghost var seen := stream[..|stream| - |pending|];
    early := host.delivered;
    assert early == host.State().delivered && seen + pending == stream;
    TameWithin(host, seen, pending);
    SetAllocs(host, seen, pending, []);
    var ret := PresentTame(host, seen, pending, |pending|);
    assert seen + pending[..ret] == stream;
    TameEnd(host, stream, pending[ret..]);
    packets := host.delivered;
  }

  /** Any row of presentations. */
  method ServeTame(host: Host, stream: bytes, calls: seq<Presentation>) returns (pending: bytes)
    requires OnTame(host, [], stream) && host.Valid()
    modifies host, host.skb
    ensures |pending| <= |stream| && pending == stream[|stream| - |pending|..]
    ensures OnTame(host, stream[..|stream| - |pending|], pending) && host.Valid()
    ensures Serving(host.State(), pending) == Served(Serving(old(host.State()), stream), calls)
    ensures host.skb == null || host.skb == old(host.skb) || fresh(host.skb)
  {
    hide Parse, Hazard, Tame, OnTame, Presented, Served, Host.State, Host.Valid, AllTrue;
    pending := stream;
    ghost var seen := [];
    ghost var start := Serving(host.State(), pending);
    ServedNone(start, calls);
    for i := 0 to |calls|
      invariant OnTame(host, seen, pending) && host.Valid() && seen + pending == stream
      invariant Serving(host.State(), pending) == Served(start, calls[..i])
      invariant host.skb == null || host.skb == old(host.skb) || fresh(host.skb)
    {
      ServedOneMore(start, calls, i);
      SetAllocs(host, seen, pending, calls[i].allocs);
      var ret := PresentTame(host, seen, pending, Min(calls[i].count, |pending|));
      seen, pending := seen + pending[..ret], pending[ret..];
    }
    assert calls[..|calls|] == calls;
    assert stream[..|seen|] == seen && stream[|seen|..] == pending;
  }

  lemma FreshDrv(host: Host)
    requires host.Valid() && host.skb == null && host.delivered == []
    ensures host.State() == Drv(true, true, [], [])
  {
  }

  /** What has been delivered is a part of what the whole stream holds. */
  lemma TameWithin(host: Host, seen: bytes, pending: bytes)
    requires OnTame(host, seen, pending)
    ensures host.delivered <= Parse(true, seen + pending).packets
  {
    hide Next, Parse, Hazard;
    ParseCongruent(true, seen, host.delivered, host.Synced(), host.Buf(), pending);
  }

  lemma TameStart(host: Host, stream: bytes)
    requires Tame(stream, 0) && host.Valid() && host.skb == null && host.delivered == [] && !host.repaired
    ensures OnTame(host, [], stream)
  {
    hide Hazard, Tame, Next;
    assert [] + stream == stream;
    TameExact([], stream, 0);
    NothingEncoded();
  }

  lemma TameEnd(host: Host, seen: bytes, pending: bytes)
    requires OnTame(host, seen, pending) && host.Settled()
    ensures host.delivered == Parse(true, seen).packets
  {
    hide Hazard, Next;
  }

  /** Streams of frames of carried packets are tame. */
  lemma FramesAreTame(ps: seq<bytes>)
    requires AllCarried(ps)
    ensures Tame(EncodeAll(ps), 0)
  {
    hide Hazard, Tame, EncodeAll;
    assert [] + EncodeAll(ps) == EncodeAll(ps);
    TameExact([], EncodeAll(ps), 0);
    HostHazards.NoHazardOnFrames(ps, [], EncodeAll(ps), 0, []);
  }
}
