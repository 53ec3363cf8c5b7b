/**
 When the driver's receiver, as written, is right: on every stream of whole frames, however it is
 cut, and after a resynchronisation that starts with the presentation. And where it is wrong.
 */
module HostHazards {
  import opened Framing
  import opened HostAsWritten
  import opened HostReceiver

  // ---------------------------------------------------------------------------
  // Streams of frames
  // ---------------------------------------------------------------------------

  lemma FirstFrame(ps: seq<bytes>, s: bytes)
    requires ps != [] && AllCarried(ps) && s <= EncodeAll(ps)
    ensures |Encode(ps[0])| == |ps[0]| + 3 && AllCarried(ps[1..])
    ensures |s| >= 2 ==> I16(s) == |ps[0]| && LengthOk(Data, I16(s))
    ensures |s| <= |Encode(ps[0])| ==> s <= Encode(ps[0])
    ensures |s| >= |Encode(ps[0])| ==>
              Encode(ps[0]) <= s && Accepted(Data, s) && s[|Encode(ps[0])|..] <= EncodeAll(ps[1..])
  {
    var f := Encode(ps[0]);
    assert EncodeAll(ps) == f + EncodeAll(ps[1..]);
    assert Carried(ps[0]);
    assert f[0] == |ps[0]| % 256 && f[1] == |ps[0]| / 256 % 256;
    if |s| >= |f| {
      assert s[..|f|] == f;
      assert s[|ps[0]| + 2] == f[|ps[0]| + 2] == SPLIT_DATA;
    }
  }

  /** On the bytes of whole frames the code as written meets no hazard: whatever part of the
      current frame is buffered, however much is presented, whichever allocations fail. */
  lemma {:induction false} NoHazardOnFrames(ps: seq<bytes>, buf: bytes, rest: bytes, done: nat, allocs: seq<bool>)
    requires AllCarried(ps) && buf + rest <= EncodeAll(ps)
    requires |buf| <= if ps == [] then 0 else |Encode(ps[0])|
    ensures !Hazard(true, buf, rest, done, allocs)
    decreases |buf| + |rest|, |rest|
  {
    hide Hazard, EncodeAll, Encode, BodyOk;
    if ps == [] {
      assert EncodeAll(ps) == [] by { NothingEncoded(); }
      HazardFill(buf, rest, done, allocs, 2);
    } else {
      assert buf <= EncodeAll(ps);
      FirstFrame(ps, buf + rest);
      FirstFrame(ps, buf);
      var want := if |buf| < 2 then 2 else |Encode(ps[0])|;
      if |buf| < want {
        HazardFill(buf, rest, done, allocs, want);
        if rest != [] {
          var k := Min(|rest|, want - |buf|);
          assert buf + rest == (buf + rest[..k]) + rest[k..];
          NoHazardOnFrames(ps, buf + rest[..k], rest[k..], done + k, allocs);
        }
      } else {
        HazardFrame(buf, rest, done, allocs);
        assert (buf + rest)[|buf|..] == rest == [] + rest;
        NoHazardOnFrames(ps[1..], [], rest, done, Later(allocs));
      }
    }
  }

  /** The state the reference decoder is in after a part of a stream of frames. */
  lemma {:induction false} InsideFrames(ps: seq<bytes>, seen: bytes) returns (k: nat)
    requires AllCarried(ps) && seen <= EncodeAll(ps)
    ensures k <= |ps|
    ensures var r := Parse(true, seen);
            && r.packets == ps[..k] && r.synced && seen == EncodeAll(ps[..k]) + r.rest
            && |r.rest| <= if k == |ps| then 0 else |Encode(ps[k])|
  {
    hide Next, Parse, EncodeAll, Encode, BodyOk;
    if ps == [] {
      NothingEncoded();
      ParseShort(seen);
      return 0;
    }
    FirstFrame(ps, seen);
    var f := Encode(ps[0]);
    if |seen| < |f| {
      ParseShort(seen);
      NothingEncoded();
      assert ps[..0] == [] && [] + seen == seen;
      return 0;
    }
    k := InsideFrames(ps[1..], seen[|f|..]);
    assert seen == f + seen[|f|..];
    OneFrameMore(ps, seen[|f|..], k);
    k := k + 1;
  }

  lemma FirstOfMore(ps: seq<bytes>, k: nat)
    requires k < |ps|
    ensures ps[..k + 1] == [ps[0]] + ps[1..][..k] && ps[..k + 1][1..] == ps[1..][..k]
  {
  }

  lemma OneFrameMore(ps: seq<bytes>, t: bytes, k: nat)
    requires ps != [] && k <= |ps| - 1 && Carried(ps[0])
    requires var r := Parse(true, t); r.packets == ps[1..][..k] && t == EncodeAll(ps[1..][..k]) + r.rest
    ensures var f, r := Encode(ps[0]), Parse(true, t);
            && Parse(true, f + t) == Parsed(ps[..k + 1], r.synced, r.rest)
            && f + t == EncodeAll(ps[..k + 1]) + r.rest
  {
    hide Next;
    NextOfEncode(ps[0], t);
    FirstOfMore(ps, k);
  }

  /** A receiver that has decoded a part of a stream of frames can be presented any part of the
      rest without a hazard. */
  lemma SafeOnFrames(ps: seq<bytes>, seen: bytes, next: bytes, done: nat, allocs: seq<bool>)
    requires AllCarried(ps) && seen + next <= EncodeAll(ps)
    ensures var r := Parse(true, seen); r.synced && !Hazard(true, r.rest, next, done, allocs)
  {
    hide Next, Parse, Hazard, EncodeAll, Encode;
    assert seen <= EncodeAll(ps);
    var k := InsideFrames(ps, seen);
    var r := Parse(true, seen);
    assert ps == ps[..k] + ps[k..];
    EncodeAllAppend(ps[..k], ps[k..]);
    var head := EncodeAll(ps[..k]);
    assert seen + next == head + (r.rest + next);
    assert r.rest + next <= EncodeAll(ps[k..]) by {
      assert EncodeAll(ps)[|head|..] == EncodeAll(ps[k..]);
      assert (seen + next)[|head|..] == r.rest + next;
    }
    assert ps[k..] != [] ==> ps[k..][0] == ps[k];
    NoHazardOnFrames(ps[k..], r.rest, next, done, allocs);
  }

  // ---------------------------------------------------------------------------
  // Garbage
  // ---------------------------------------------------------------------------

  /** A resynchronisation that begins with the presentation is right: the only scan of the
      presented bytes then starts at zero. */
  lemma RecoversFromLost(garbage: bytes, ps: seq<bytes>, rest: bytes, allocs: seq<bool>)
    requires SPLIT_DATA !in garbage && AllCarried(ps) && rest <= EncodeAll(ps)
    ensures !Hazard(false, [], garbage + [SPLIT_DATA] + rest, 0, allocs)
  {
    var s := garbage + [SPLIT_DATA] + rest;
    assert s[..|garbage|] == garbage && s[|garbage| + 1..] == rest == [] + rest;
    FindIs(s, SPLIT_DATA, |garbage|);
    NoHazardOnFrames(ps, [], rest, |garbage| + 1, allocs);
  }

  /** But two garbage bytes at a frame boundary are enough to make the code as written misreport,
      whenever the next split byte comes in the same presentation. */
  lemma GarbageAtBoundary(cp: bytes, allocs: seq<bool>)
    requires |cp| >= 2 && !LengthOk(Data, I16(cp)) && SPLIT_DATA !in cp[..2] && SPLIT_DATA in cp[2..]
    ensures Hazard(true, [], cp, 0, allocs)
  {
    hide Hazard;
    var buf := cp[..2];
    HazardFill([], cp, 0, allocs, 2);
    assert [] + cp[..2] == buf;
    HazardBad(buf, cp[2..], 2, allocs);
    HazardSomeHit(buf, cp[2..], 2, allocs);
  }

  lemma HazardSomeHit(buf: bytes, rest: bytes, done: nat, allocs: seq<bool>)
    requires SPLIT_DATA !in buf && SPLIT_DATA in rest && done > 0
    ensures Hazard(false, buf, rest, done, allocs)
  {
    hide Hazard;
    var j := Find(rest, SPLIT_DATA);
    assert rest[..|rest|] == rest;
    HazardHit(buf, rest, done, allocs, j);
  }

  /** An instance, to the end: a zero length, a split byte and one good frame of twenty zero bytes, in
      one presentation. The packet is there, but the code as written delivers nothing: the first
      scan counts the two length bytes twice and so skips those of the frame, the second
      scan then moves 7 bytes past the end, and a negative count is copied. */
  lemma OverrunExample()
    ensures var zeros := seq(20, _ => 0); var cp := [0, 0, SPLIT_DATA] + Encode(zeros);
            && Parse(true, cp).packets == [zeros]
            && Hazard(true, [], cp, 0, [])
            && Written(true, [], cp, 0, [], [], Tally(0, 0)) == Result(33, true, [], true, [], Tally(24, 0), false)
  {
    hide Hazard, Written, Parse, Next;
    var zeros: bytes := seq(20, _ => 0);
    var cp := [0, 0, SPLIT_DATA] + Encode(zeros);
    assert EncodeAll([zeros]) == Encode(zeros) + EncodeAll([]);
    assert cp == [0, 0] + [SPLIT_DATA] + EncodeAll([zeros]) + [];
    Recovery(true, [0, 0], [zeros], []);
    ParseShort([]);
    assert cp[2..][0] == SPLIT_DATA;
    GarbageAtBoundary(cp, []);
    assert cp[25] == SPLIT_DATA && |cp| == 26 && forall i :: 3 <= i < 25 ==> cp[i] == 20 || cp[i] == 0;
    WrittenBadLength(cp, 0, [], [], Tally(0, 0), 2);
    WrittenBadLength(cp, 5, [], [], Tally(3, 0), 25);
    WrittenStops([], cp, 33, [], [], Tally(24, 0));
  }

  /** A misreporting call can still end right: here the bytes skipped unseen do not matter. */
  lemma BenignHazard()
    ensures var cp: bytes := [0, 0, SPLIT_DATA, 1, SPLIT_DATA];
            && Hazard(true, [], cp, 0, [])
            && Written(true, [], cp, 0, [], [], Tally(0, 0)) == Result(5, false, [], true, [], Tally(3, 0), false)
            && Parse(true, cp) == Parsed([], true, [])
  {
    hide Hazard, Written, Parse, Next;
    var cp: bytes := [0, 0, SPLIT_DATA, 1, SPLIT_DATA];
    assert cp[2..][0] == SPLIT_DATA;
    GarbageAtBoundary(cp, []);
    WrittenBadLength(cp, 0, [], [], Tally(0, 0), 2);
    WrittenStops([], cp, 5, [], [], Tally(3, 0));
    NextBad(Data, cp);
    assert cp == [0, 0] + [SPLIT_DATA] + [1, SPLIT_DATA];
    NextLost(Data, [0, 0], [1, SPLIT_DATA]);
    ParseByNext(true, cp, true, [1, SPLIT_DATA]);
    NextBad(Data, [1, SPLIT_DATA]);
    assert [1, SPLIT_DATA] == [1] + [SPLIT_DATA] + [];
    NextLost(Data, [1], []);
    ParseByNext(true, [1, SPLIT_DATA], true, []);
    ParseShort([]);
  }

  /** A frame with a damaged trailer inside which, after the first split byte, stands a whole
      frame with bytes behind it: the code as written delivers those bytes with the inner frame. */
  lemma OverlongDelivery(s: bytes, k: nat, allocs: seq<bool>, delivered: seq<bytes>)
    requires |s| >= 2 && LengthOk(Data, I16(s)) && |s| == I16(s) + 3 && s[|s| - 1] != SPLIT_DATA
    requires k < |s| && s[k] == SPLIT_DATA && SPLIT_DATA !in s[..k]
    requires Accepted(Data, s[k + 1..]) && |s[k + 1..]| > I16(s[k + 1..]) + 3
    ensures Hazard(true, [], s, 0, allocs)
    ensures Written(true, [], s, 0, allocs, delivered, Tally(0, 0))
            == Result(|s|, false, delivered + [s[k + 3..|s| - 1]], true, [],
                      Tally(|s|, |s[k + 1..]| - (I16(s[k + 1..]) + 3)), !AllocOk(allocs))
    ensures |s[k + 3..|s| - 1]| > I16(s[k + 1..]) == |Next(Data, true, s[k + 1..]).payload|
  {
    hide Hazard, Written, Next;
    DamagedFrame(s, I16(s), allocs);
    HazardSkip(s, [], |s|, allocs, k);
    var inner := s[k + 1..];
    HazardFrame(inner, [], |s|, allocs);
    WrittenDamaged(s, allocs, delivered);
    WrittenSkips(s, s, |s|, allocs, delivered, Tally(|s|, 0), k);
    WrittenDelivers(inner, s, |s|, allocs, delivered, Tally(|s|, 0));
    WrittenStops([], s, |s|, Later(allocs), delivered + [inner[2..|inner| - 1]],
                 Tally(|s|, |inner| - (I16(inner) + 3)));
    assert inner[2..|inner| - 1] == s[k + 3..|s| - 1];
    NextAccepted(Data, inner, []);
    assert inner + [] == inner;
  }

  lemma Sixty(zeros: bytes, s: bytes)
    requires zeros == seq(20, _ => 0) && s == [60, 0, SPLIT_DATA] + Encode(zeros) + seq(37, _ => 0)
    ensures |s| == 63 && I16(s) == 60 && s[2] == SPLIT_DATA && SPLIT_DATA !in s[..2] && s[62] == 0
    ensures var inner := s[3..]; |inner| == 60 && I16(inner) == 20 && Accepted(Data, inner)
    ensures s[5..62] == zeros + [SPLIT_DATA] + seq(36, _ => 0)
  {
    assert s[..2] == [60, 0];
    var inner := s[3..];
    assert inner[0] == 20 && inner[1] == 0 && inner[22] == SPLIT_DATA;
  }

  /** An instance: sixty payload bytes that begin with a split byte and a frame of twenty zero bytes, and a
      wrong trailer. The inner packet is delivered with 37 bytes too many. */
  lemma OverlongExample()
    ensures var zeros := seq(20, _ => 0);
            var s := [60, 0, SPLIT_DATA] + Encode(zeros) + seq(37, _ => 0);
            Written(true, [], s, 0, [], [], Tally(0, 0))
            == Result(63, false, [zeros + [SPLIT_DATA] + seq(36, _ => 0)], true, [], Tally(63, 37), false)
  {
    hide Written, Hazard;
    var zeros: bytes := seq(20, _ => 0);
    var s: bytes := [60, 0, SPLIT_DATA] + Encode(zeros) + seq(37, _ => 0);
    Sixty(zeros, s);
    OverlongDelivery(s, 2, [], []);
  }

  lemma WrittenDamaged(s: bytes, allocs: seq<bool>, delivered: seq<bytes>)
    requires |s| >= 2 && LengthOk(Data, I16(s)) && |s| == I16(s) + 3 && s[|s| - 1] != SPLIT_DATA
    ensures Written(true, [], s, 0, allocs, delivered, Tally(0, 0))
            == Written(false, s, s, |s|, allocs, delivered, Tally(|s|, 0))
  {
    hide Written;
    WrittenCopies([], s, 0, allocs, delivered, Tally(0, 0), 2);
    assert [] + s[0..2] == s[..2] && s[..2] + s[2..|s|] == s;
    WrittenCopies(s[..2], s, 2, allocs, delivered, Tally(2, 0), |s| - 2);
    WrittenBad(s, s, |s|, allocs, delivered, Tally(|s|, 0));
  }

  /** A frame presented whole with a wrong trailer is copied whole before it is found wrong. */
  lemma DamagedFrame(s: bytes, n: nat, allocs: seq<bool>)
    requires MIN_LEN <= n <= MTU_LEN && |s| == n + 3 && I16(s) == n && s[n + 2] != SPLIT_DATA
    ensures Hazard(true, [], s, 0, allocs) == Hazard(false, s, [], n + 3, allocs)
  {
    hide Hazard;
    HazardFill([], s, 0, allocs, 2);
    assert [] + s[..2] == s[..2];
    HazardFill(s[..2], s[2..], 2, allocs, n + 3);
    assert s[2..][..n + 1] == s[2..] && s[2..][n + 1..] == [] && s[..2] + s[2..] == s;
    HazardBad(s, [], n + 3, allocs);
  }
}
