/**
 What the handshake reader as written makes of bytes that do not begin like its frame: when its scan of
 the presented bytes goes astray, and what noise before the announcement costs.
 */
module NetifNoise {
  import opened Framing
  import opened HostAsWritten
  import opened NetifAsWritten

  // ---------------------------------------------------------------------------
  // The scan that goes astray
  // ---------------------------------------------------------------------------

  /** Bytes one turn looks at: copied, or passed over in search of a 12. */
  function Here(cp: bytes, x: Spot): nat
    requires Placed(cp, x)
  {
    if x.surplus <= 0 then 0
    else if x.status == STATUS_SPLIT then (if TWELVE in x.info then 0 else Find(cp[x.processed..], TWELVE))
    else if x.status == STATUS_LEN then (if |x.info| < 2 then Min(x.surplus, 2 - |x.info|) else 0)
    else if |x.info| < INFO_LEN then Min(x.surplus, INFO_LEN - |x.info|) else 0
  }

  /** Bytes a call really looks at from `x` on. */
  function Looked(cp: bytes, x: Spot): nat
    requires Reached(cp, x) && !Loops(cp, x)
    decreases Weight(x.surplus, |x.info|), Weight(x.surplus, 0), Stage(x.status, |x.info|)
  {
    Here(cp, x) + match Step(cp, x)
           case Ends(_, _, _, _) => 0
           case Goes(y) => StepKeeps(cp, x); Looked(cp, y)
  }

  /** A reader in state `status` with `info` buffered, to be given `rest` in a call of which it has used bytes
      already or not, will find a 12 by scanning presented bytes after it has used some. */
  predicate Strays(status: Status, info: bytes, rest: bytes, used: bool)
    decreases |info| + |rest|, |rest|, Stage(status, |info|)
  {
    match status
    case STATUS_LEN =>
      if |info| < 2 then
        rest != [] && var k := Min(|rest|, 2 - |info|); Strays(STATUS_LEN, info + rest[..k], rest[k..], true)
      else if I16(info) == 12 then Strays(STATUS_DATA, info, rest, used)
      else if info[0] == TWELVE then
        var k := 1 + Find(info[1..], TWELVE);
        k < |info| && Strays(STATUS_LEN, info[k..], rest, used)
      else Strays(STATUS_SPLIT, info, rest, used)
    case STATUS_DATA =>
      |info| < INFO_LEN && rest != []
      && var k := Min(|rest|, INFO_LEN - |info|); Strays(STATUS_DATA, info + rest[..k], rest[k..], true)
    case STATUS_SPLIT =>
      var k, j := Find(info, TWELVE), Find(rest, TWELVE);
      if k == |info| then j < |rest| && (used || Strays(STATUS_LEN, [], rest[j..], j > 0))
      else k > 0 && Strays(STATUS_LEN, info[k..], rest, used)
  }

  /** A call reports at least the bytes it looked at. */
  lemma {:induction false} LookedAtMost(cp: bytes, x: Spot)
    requires Reached(cp, x) && !Loops(cp, x)
    ensures x.processed + Looked(cp, x) <= End(cp, x).processed
    decreases Weight(x.surplus, |x.info|), Weight(x.surplus, 0), Stage(x.status, |x.info|)
  {
    hide Loops, End;
    TurnedOn(cp, x);
    if Step(cp, x).Goes? {
      StepKeeps(cp, x);
      NotOnCircle(cp, x);
      LookedAtMost(cp, Step(cp, x).spot);
    }
  }

  lemma NotOnCircle(cp: bytes, x: Spot)
    requires Reached(cp, x) && !Loops(cp, x)
    ensures !Circles(x)
  {
  }

  /** The condition is exact: a call that returns reports bytes it never looked at if and only if its scan
      goes astray. */
  lemma {:induction false} StraysExact(cp: bytes, x: Spot)
    requires Reached(cp, x) && x.surplus >= 0 && !Loops(cp, x)
    ensures Strays(x.status, x.info, cp[x.processed..], x.processed > 0)
            <==> x.processed + Looked(cp, x) < End(cp, x).processed
    decreases Weight(x.surplus, |x.info|), Weight(x.surplus, 0), Stage(x.status, |x.info|)
  {
    hide Loops, End, Circles;
    TurnedOn(cp, x);
    NotOnCircle(cp, x);
    if Step(cp, x).Ends? {
      EndsUnstrayed(cp, x);
    } else {
      StepKeeps(cp, x);
      var y := Step(cp, x).spot;
      if StraysHere(cp, x) {
        LookedAtMost(cp, y);
        StrayStep(cp, x);
      } else {
        StrayGoesOn(cp, x);
        StraysExact(cp, y);
      }
    }
  }

  /** The scan hits in presented bytes after some were used. */
  predicate StraysHere(cp: bytes, x: Spot)
    requires Placed(cp, x) && x.surplus >= 0
  {
    x.status == STATUS_SPLIT && TWELVE !in x.info && TWELVE in cp[x.processed..] && x.processed > 0
  }

  lemma EndsUnstrayed(cp: bytes, x: Spot)
    requires Reached(cp, x) && x.surplus >= 0 && Step(cp, x).Ends?
    ensures !Strays(x.status, x.info, cp[x.processed..], x.processed > 0)
    ensures Step(cp, x).processed == x.processed + Here(cp, x)
  {
    hide I16, Begins, Circles, Find;
    AllFound(x.info);
    AllFound(cp[x.processed..]);
  }

  lemma AllFound(s: bytes)
    ensures Find(s, TWELVE) == |s| <==> TWELVE !in s
  {
    assert s[..|s|] == s;
  }

  lemma StrayStep(cp: bytes, x: Spot)
    requires Reached(cp, x) && x.surplus >= 0 && StraysHere(cp, x)
    ensures Strays(x.status, x.info, cp[x.processed..], x.processed > 0)
    ensures Step(cp, x).Goes? && Step(cp, x).spot.processed > x.processed + Here(cp, x)
  {
    AllFound(x.info);
    AllFound(cp[x.processed..]);
  }

  predicate GoesOn(cp: bytes, x: Spot, y: Spot)
    requires Placed(cp, x) && Placed(cp, y) && x.surplus >= 0
  {
    && y.surplus >= 0 && y.processed == x.processed + Here(cp, x)
    && (Strays(x.status, x.info, cp[x.processed..], x.processed > 0)
        <==> Strays(y.status, y.info, cp[y.processed..], y.processed > 0))
  }

  lemma StrayGoesOn(cp: bytes, x: Spot)
    requires Reached(cp, x) && x.surplus >= 0 && !Circles(x) && Step(cp, x).Goes? && !StraysHere(cp, x)
    ensures GoesOn(cp, x, Step(cp, x).spot)
  {
    hide Circles, GoesOn;
    if x.status == STATUS_SPLIT {
      SplitGoesOn(cp, x);
    } else if |x.info| < if x.status == STATUS_LEN then 2 else INFO_LEN {
      CopyGoesOn(cp, x);
    } else {
      StateGoesOn(cp, x);
    }
  }

  lemma CopyGoesOn(cp: bytes, x: Spot)
    requires Reached(cp, x) && x.surplus >= 0 && Step(cp, x).Goes?
    requires x.status != STATUS_SPLIT && |x.info| < if x.status == STATUS_LEN then 2 else INFO_LEN
    ensures GoesOn(cp, x, Step(cp, x).spot)
  {
    hide Circles, Find, Begins, I16;
    SliceOfSlice(cp, x.processed, Step(cp, x).spot.processed - x.processed);
  }

  lemma StateGoesOn(cp: bytes, x: Spot)
    requires Reached(cp, x) && x.surplus >= 0 && !Circles(x) && Step(cp, x).Goes?
    requires x.status != STATUS_SPLIT && |x.info| >= if x.status == STATUS_LEN then 2 else INFO_LEN
    ensures GoesOn(cp, x, Step(cp, x).spot)
  {
    AllFound(x.info[1..]);
  }

  lemma SplitGoesOn(cp: bytes, x: Spot)
    requires Reached(cp, x) && x.surplus >= 0 && !Circles(x) && Step(cp, x).Goes? && !StraysHere(cp, x)
    requires x.status == STATUS_SPLIT
    ensures GoesOn(cp, x, Step(cp, x).spot)
  {
    hide Circles, GoesOn, Step;
    AllFound(x.info);
    if TWELVE in x.info {
      BufferGoesOn(cp, x);
    } else {
      ScanGoesOn(cp, x);
    }
  }

  lemma BufferGoesOn(cp: bytes, x: Spot)
    requires Reached(cp, x) && x.surplus >= 0 && !Circles(x) && x.status == STATUS_SPLIT && TWELVE in x.info
    ensures Step(cp, x).Goes? && GoesOn(cp, x, Step(cp, x).spot)
  {
    hide Circles, Begins, I16;
    AllFound(x.info);
  }

  lemma ScanGoesOn(cp: bytes, x: Spot)
    requires Reached(cp, x) && x.surplus >= 0 && x.status == STATUS_SPLIT && TWELVE !in x.info
    requires Step(cp, x).Goes? && !StraysHere(cp, x)
    ensures GoesOn(cp, x, Step(cp, x).spot)
  {
    hide Circles, Begins, I16, GoesOn;
    AllFound(x.info);
    AllFound(cp[x.processed..]);
    assert x.processed == 0 && cp[0..] == cp;
    var j := Find(cp, TWELVE);
    assert Step(cp, x) == Goes(Spot(STATUS_LEN, [], j, x.surplus - j));
    ScanStrays(cp, x.info);
    assert GoesOn(cp, x, Step(cp, x).spot) by { GoesOnFrom(cp, x, Step(cp, x).spot); }
  }

  lemma ScanStrays(cp: bytes, info: bytes)
    requires TWELVE !in info && TWELVE in cp
    ensures Strays(STATUS_SPLIT, info, cp, false)
            <==> Strays(STATUS_LEN, [], cp[Find(cp, TWELVE)..], Find(cp, TWELVE) > 0)
  {
    AllFound(info);
    AllFound(cp);
  }

  lemma GoesOnFrom(cp: bytes, x: Spot, y: Spot)
    requires Placed(cp, x) && Placed(cp, y) && x.surplus >= 0 && y.surplus >= 0
    requires y.processed == x.processed + Here(cp, x)
    requires Strays(x.status, x.info, cp[x.processed..], x.processed > 0)
             <==> Strays(y.status, y.info, cp[y.processed..], y.processed > 0)
    ensures GoesOn(cp, x, y)
  {
  }

  // ---------------------------------------------------------------------------
  // Calls in a row
  // ---------------------------------------------------------------------------

  /** A call that waits for more has used all it was given, and leaves the reader at rest. */
  lemma {:induction false} WaitingRests(cp: bytes, x: Spot)
    requires Reached(cp, x) && !Loops(cp, x) && End(cp, x).outcome == Waiting
    ensures Rests(End(cp, x).status, End(cp, x).info) && End(cp, x).processed == |cp|
    decreases Weight(x.surplus, |x.info|), Weight(x.surplus, 0), Stage(x.status, |x.info|)
  {
    hide Loops, End, Circles;
    TurnedOn(cp, x);
    NotOnCircle(cp, x);
    if Step(cp, x).Goes? {
      StepKeeps(cp, x);
      WaitingRests(cp, Step(cp, x).spot);
    }
  }

  /** How the reader takes what comes call by call: it is still waiting after all of it, or what ended its
      waiting; with the bytes stored. */
  datatype Reading = Reading(outcome: Outcome, info: bytes)

  function Reader(status: Status, info: bytes, calls: seq<bytes>): Reading
    requires Rests(status, info)
    decreases |calls|
  {
    if calls == [] then Reading(Waiting, info) else
    var x := From(status, info, calls[0]);
    if Loops(calls[0], x) then Reading(Stuck, info) else
    match End(calls[0], x)
    case Ends(o, s, i, _) =>
      if o != Waiting then Reading(o, i)
      else assert Rests(s, i) by { WaitingRests(calls[0], x); } Reader(s, i, calls[1..])
  }

  function Joined(calls: seq<bytes>): bytes {
    if calls == [] then [] else calls[0] + Joined(calls[1..])
  }

  // ---------------------------------------------------------------------------
  // Too few bytes left
  // ---------------------------------------------------------------------------

  /** With fewer than 15 bytes buffered and to come, a call does not get its frame. */
  lemma {:induction false} TooShort(cp: bytes, x: Spot)
    requires Reached(cp, x) && !Loops(cp, x) && Weight(x.surplus, |x.info|) < INFO_LEN
    ensures End(cp, x).outcome != Announced
    ensures End(cp, x).outcome == Waiting ==> |End(cp, x).info| <= Weight(x.surplus, |x.info|)
    decreases Weight(x.surplus, |x.info|), Weight(x.surplus, 0), Stage(x.status, |x.info|)
  {
    hide Loops, End, Circles;
    TurnedOn(cp, x);
    NotOnCircle(cp, x);
    if Step(cp, x).Goes? {
      StepKeeps(cp, x);
      TooShort(cp, Step(cp, x).spot);
    }
  }

  lemma {:induction false} NeverAnnounced(status: Status, info: bytes, calls: seq<bytes>)
    requires Rests(status, info) && |info| + |Joined(calls)| < INFO_LEN
    ensures Reader(status, info, calls).outcome != Announced
    decreases |calls|
  {
    hide Loops, End;
    if calls != [] {
      var x := From(status, info, calls[0]);
      if !Loops(calls[0], x) {
        TooShort(calls[0], x);
        if End(calls[0], x).outcome == Waiting {
          WaitingRests(calls[0], x);
          NeverAnnounced(End(calls[0], x).status, End(calls[0], x).info, calls[1..]);
        }
      }
    }
  }

  // ---------------------------------------------------------------------------
  // Noise before the announcement
  // ---------------------------------------------------------------------------

  /** The reader that has been given `noise`, bytes without a 12, and nothing else. */
  function NoisyStatus(noise: bytes): Status {
    if |noise| < 2 then STATUS_LEN else STATUS_SPLIT
  }

  function NoisyInfo(noise: bytes): bytes {
    if |noise| < 2 then noise else []
  }

  lemma WordBegins(s: bytes)
    requires |s| >= 2 && I16(s) == 12
    ensures s[0] == TWELVE && s[1] == 0
  {
  }

  lemma NoTwelve(s: bytes)
    requires TWELVE !in s
    ensures Find(s, TWELVE) == |s|
    ensures |s| >= 2 ==> I16(s) != 12 && s[0] != TWELVE
  {
    hide I16;
    AllFound(s);
    if |s| >= 2 && I16(s) == 12 {
      WordBegins(s);
    }
  }

  /** A call that brings only noise. */
  lemma NoiseCall(before: bytes, cp: bytes)
    requires TWELVE !in before && TWELVE !in cp
    ensures var x := From(NoisyStatus(before), NoisyInfo(before), cp);
            && Reached(cp, x) && !Loops(cp, x)
            && End(cp, x) == Ends(Waiting, NoisyStatus(before + cp), NoisyInfo(before + cp), |cp|)
  {
    hide Loops, End, Step, I16, Reached, Rests;
    var x := From(NoisyStatus(before), NoisyInfo(before), cp);
    NoiseRests(before, cp);
    TurnedOn(cp, x);
    if |before| >= 2 {
      NothingFound(cp, x);
    } else if cp == [] {
      WaitsAtOnce(before);
      assert before + cp == before;
    } else {
      var y := NoiseCopied(before, cp);
      NoiseSecond(before, cp, y);
    }
  }

  lemma NoiseRests(before: bytes, cp: bytes)
    ensures Reached(cp, From(NoisyStatus(before), NoisyInfo(before), cp))
  {
  }

  lemma NoiseSecond(before: bytes, cp: bytes, y: Spot)
    requires Reached(cp, y) && y.status == STATUS_LEN && y.surplus >= 0 && TWELVE !in y.info && TWELVE !in cp
    requires |y.info| <= 2 && (|y.info| == 2 <==> |before + cp| >= 2)
    requires |y.info| < 2 ==> y.info == before + cp && Step(cp, y) == Ends(Waiting, STATUS_LEN, before + cp, |cp|)
    ensures !Loops(cp, y) && End(cp, y) == Ends(Waiting, NoisyStatus(before + cp), NoisyInfo(before + cp), |cp|)
  {
    hide Loops, End, Step, I16;
    TurnedOn(cp, y);
    if |y.info| == 2 {
      NoiseRefused(cp, y);
      TurnedOn(cp, y.(status := STATUS_SPLIT));
      NothingFound(cp, y.(status := STATUS_SPLIT));
    }
  }

  lemma WaitsAtOnce(info: bytes)
    requires |info| < 2
    ensures Step([], From(STATUS_LEN, info, [])) == Ends(Waiting, STATUS_LEN, info, 0)
  {
  }

  /** The first bytes of noise are copied; if they are too few to be a length, that is all. */
  lemma NoiseCopied(before: bytes, cp: bytes) returns (y: Spot)
    requires |before| < 2 && cp != [] && TWELVE !in before && TWELVE !in cp
    ensures Placed(cp, y) && y.status == STATUS_LEN && y.surplus >= 0 && |y.info| <= 2 && TWELVE !in y.info
    ensures Step(cp, From(STATUS_LEN, before, cp)) == Goes(y) && (|y.info| == 2 <==> |before + cp| >= 2)
    ensures |y.info| < 2 ==> y.info == before + cp && Step(cp, y) == Ends(Waiting, STATUS_LEN, before + cp, |cp|)
  {
    hide I16, Find;
    var k := Min(|cp|, 2 - |before|);
    y := Spot(STATUS_LEN, before + cp[..k], k, |cp| - k);
    assert cp[0..k] == cp[..k];
    assert k == |cp| ==> cp[..k] == cp;
  }

  lemma NoiseRefused(cp: bytes, y: Spot)
    requires Placed(cp, y) && y.status == STATUS_LEN && |y.info| == 2 && TWELVE !in y.info
    ensures Step(cp, y) == Goes(y.(status := STATUS_SPLIT))
  {
    NoTwelve(y.info);
  }

  /** A resynchronisation without a 12 in reach drops everything. */
  lemma NothingFound(cp: bytes, x: Spot)
    requires Placed(cp, x) && x.surplus >= 0 && x.status == STATUS_SPLIT && TWELVE !in x.info && TWELVE !in cp
    ensures Step(cp, x) == Ends(Waiting, STATUS_SPLIT, [], |cp|)
  {
    NoTwelve(x.info);
    NoTwelve(cp[x.processed..]);
  }

  /** The frame, when the reader has its first bytes or none, in any calls. */
  lemma {:induction false} FrameInCalls(frame: bytes, k: nat, calls: seq<bytes>)
    requires |frame| == INFO_LEN && k < INFO_LEN && Begins(frame) && frame[INFO_LEN - 1] == SPLIT_CMD
    requires Joined(calls) == frame[k..]
    ensures Rests(if k < 2 then STATUS_LEN else STATUS_DATA, frame[..k])
    ensures Reader(if k < 2 then STATUS_LEN else STATUS_DATA, frame[..k], calls) == Reading(Announced, frame)
    decreases |calls|
  {
    hide Loops, End;
    var cp := calls[0];
    var x := From(if k < 2 then STATUS_LEN else STATUS_DATA, frame[..k], cp);
    Given(frame, k, cp, Joined(calls[1..]));
    assert cp[0..] == cp;
    ProperRun(cp, x);
    if k + |cp| < INFO_LEN {
      FrameInCalls(frame, k + |cp|, calls[1..]);
    }
  }

  lemma Given(frame: bytes, k: nat, cp: bytes, rest: bytes)
    requires k <= |frame| && frame[k..] == cp + rest
    ensures k + |cp| <= |frame|
    ensures frame[..k] + cp == frame[..k + |cp|] && rest == frame[k + |cp|..]
  {
    assert frame == frame[..k] + cp + rest;
  }

  /** The call that brings the first bytes `part` of the frame, behind the noise `g` of its own, when enough
      noise came before or there is hardly any. */
  lemma HeardCall(before: bytes, g: bytes, part: bytes)
    requires TWELVE !in before && TWELVE !in g && (|before| >= 2 || |before + g| <= 1)
    requires 1 <= |part| <= INFO_LEN && Begins(part) && Verdict(part) != Stuck
    ensures var cp := g + part; var x := From(NoisyStatus(before), NoisyInfo(before), cp);
            Reached(cp, x) && !Loops(cp, x) && End(cp, x) == ProperEnd(cp, part)
  {
    hide Loops, End, Circles, Verdict, ProperEnd, Step;
    var cp := g + part;
    var x := From(NoisyStatus(before), NoisyInfo(before), cp);
    if |before| >= 2 {
      ScanFinds(g, part);
      var y := Spot(STATUS_LEN, [], |g|, |part|);
      TurnedOn(cp, x);
      assert y.info + cp[|g|..] == part;
      ProperRun(cp, y);
    } else if |before + g| == 0 {
      assert x.info + cp[0..] == part;
      ProperRun(cp, x);
    } else {
      OneByteOfNoise(before, g, part);
    }
  }

  lemma ScanFinds(g: bytes, part: bytes)
    requires TWELVE !in g && part != [] && part[0] == TWELVE
    ensures Step(g + part, From(STATUS_SPLIT, [], g + part)) == Goes(Spot(STATUS_LEN, [], |g|, |part|))
  {
    var cp := g + part;
    assert cp[0..] == cp && cp[..|g|] == g;
    FindIs(cp, TWELVE, |g|);
  }

  /** A buffered byte that is no 12 in front of the 12 is dropped. */
  lemma DropsTheOne(cp: bytes, y: Spot, b: byte)
    requires Placed(cp, y) && y.status == STATUS_LEN && y.info == [b, TWELVE] && b != TWELVE
    ensures Step(cp, y) == Goes(y.(status := STATUS_SPLIT))
    ensures Step(cp, y.(status := STATUS_SPLIT)) == Goes(y.(info := [TWELVE]))
  {
    assert I16(y.info) == b + 256 * TWELVE;
    FindIs(y.info, TWELVE, 1);
    assert y.info[1..] == [TWELVE];
  }

  lemma CopiesTheTwelve(before: bytes, g: bytes, part: bytes)
    requires |before + g| == 1 && part != [] && part[0] == TWELVE
    ensures var cp, k := g + part, 2 - |before|;
            Step(cp, From(STATUS_LEN, before, cp)) == Goes(Spot(STATUS_LEN, before + g + [TWELVE], k, |cp| - k))
  {
    hide I16, Find;
    var cp, k := g + part, 2 - |before|;
    assert k == |g| + 1 && cp[0..k] == g + [TWELVE];
    assert before + (g + [TWELVE]) == before + g + [TWELVE];
  }

  lemma OneByteOfNoise(before: bytes, g: bytes, part: bytes)
    requires TWELVE !in before && TWELVE !in g && |before + g| == 1
    requires 1 <= |part| <= INFO_LEN && Begins(part) && Verdict(part) != Stuck
    ensures var cp := g + part; var x := From(STATUS_LEN, before, cp);
            Reached(cp, x) && !Loops(cp, x) && End(cp, x) == ProperEnd(cp, part)
  {
    hide Loops, End, Circles, Verdict, ProperEnd, Step;
    var cp, k, b := g + part, 2 - |before|, (before + g)[0];
    var x, y := From(STATUS_LEN, before, cp), Spot(STATUS_LEN, [b, TWELVE], k, |cp| - k);
    assert before + g == [b] && b != TWELVE;
    CopiesTheTwelve(before, g, part);
    assert before + g + [TWELVE] == y.info;
    DropsTheOne(cp, y, b);
    TurnedOn(cp, x);
    TurnedOn(cp, y);
    TurnedOn(cp, y.(status := STATUS_SPLIT));
    var u := y.(info := [TWELVE]);
    assert u.info + cp[k..] == part;
    ProperRun(cp, u);
  }

  /** The call that brings them too soon: behind its own noise, when fewer than two bytes came before and two
      or more have come by then. */
  lemma StrayCall(before: bytes, g: bytes, part: bytes)
    requires TWELVE !in before && TWELVE !in g && |before| < 2 <= |before + g|
    requires 1 <= |part| <= INFO_LEN && part[0] == TWELVE
    ensures var cp := g + part; var x := From(STATUS_LEN, before, cp);
            && Reached(cp, x)
            && (!Loops(cp, x) ==> var r := End(cp, x);
                  && r.outcome != Announced
                  && (r.outcome == Waiting ==> |r.info| + INFO_LEN - |part| < INFO_LEN))
  {
    hide Loops, End, Circles, Step;
    var cp, k := g + part, 2 - |before|;
    var x, y := From(STATUS_LEN, before, cp), Spot(STATUS_LEN, before + g[..k], k, |cp| - k);
    StraySteps(before, g, part);
    TurnedOn(cp, x);
    TurnedOn(cp, y);
    TurnedOn(cp, y.(status := STATUS_SPLIT));
    if !Loops(cp, x) {
      TooShort(cp, Spot(STATUS_LEN, [], k + |g|, |part| - k));
    }
  }

  lemma StraySteps(before: bytes, g: bytes, part: bytes)
    requires TWELVE !in before && TWELVE !in g && |before| < 2 <= |before + g| && part != [] && part[0] == TWELVE
    ensures var cp, k := g + part, 2 - |before|;
            var y := Spot(STATUS_LEN, before + g[..k], k, |cp| - k);
            && Step(cp, From(STATUS_LEN, before, cp)) == Goes(y)
            && Step(cp, y) == Goes(y.(status := STATUS_SPLIT))
            && Step(cp, y.(status := STATUS_SPLIT)) == Goes(Spot(STATUS_LEN, [], k + |g|, |part| - k))
  {
    hide I16, Find;
    var cp, k := g + part, 2 - |before|;
    assert cp[0..k] == g[..k];
    NoTwelve(before + g[..k]);
    FindBehind(g, part, k);
  }

  lemma FindBehind(g: bytes, part: bytes, k: nat)
    requires TWELVE !in g && k <= |g| && part != [] && part[0] == TWELVE
    ensures Find((g + part)[k..], TWELVE) == |g| - k
  {
    var s := (g + part)[k..];
    assert s == g[k..] + part && s[..|g| - k] == g[k..];
    FindIs(s, TWELVE, |g| - k);
  }

  /** A call ends when at least two of the `n` bytes of noise have come, and not yet a byte behind them. */
  predicate Pause(seen: nat, n: nat, calls: seq<bytes>)
    decreases |calls|
  {
    || 2 <= seen <= n
    || (calls != [] && seen + |calls[0]| <= n && Pause(seen + |calls[0]|, n, calls[1..]))
  }

  lemma PieceOfNoise(g: bytes, frame: bytes, cp: bytes, rest: bytes)
    requires g + frame == cp + rest && |cp| <= |g| && TWELVE !in g
    ensures cp + g[|cp|..] == g && rest == g[|cp|..] + frame
    ensures TWELVE !in cp && TWELVE !in g[|cp|..]
  {
    assert cp == (g + frame)[..|cp|] == g[..|cp|];
    assert rest == (g + frame)[|cp|..];
  }

  lemma PieceOfFrame(g: bytes, frame: bytes, cp: bytes, rest: bytes)
    requires g + frame == cp + rest && |g| < |cp|
    ensures |cp| - |g| <= |frame| && cp == g + frame[..|cp| - |g|] && rest == frame[|cp| - |g|..]
  {
    assert cp == (g + frame)[..|cp|] && rest == (g + frame)[|cp|..];
  }

  lemma {:induction false} NoiseCostsFrom(before: bytes, g: bytes, frame: bytes, calls: seq<bytes>)
    requires TWELVE !in before && TWELVE !in g
    requires |frame| == INFO_LEN && Begins(frame) && frame[INFO_LEN - 1] == SPLIT_CMD && Joined(calls) == g + frame
    ensures var r := Reader(NoisyStatus(before), NoisyInfo(before), calls);
            && (r.outcome == Announced <==> |before + g| <= 1 || Pause(|before|, |before + g|, calls))
            && (r.outcome == Announced ==> r.info == frame)
    decreases |calls|
  {
    hide Loops, End, Circles, I16, Begins, Joined, Reader, Reached;
    FirstCall(calls);
    var cp := calls[0];
    if |cp| <= |g| {
      PieceOfNoise(g, frame, cp, Joined(calls[1..]));
      NoiseRead(before, calls);
      NoiseCostsFrom(before + cp, g[|cp|..], frame, calls[1..]);
      assert before + cp + g[|cp|..] == before + g;
    } else {
      PieceOfFrame(g, frame, cp, Joined(calls[1..]));
      if |before| >= 2 || |before + g| <= 1 {
        HeardOut(before, g, frame, calls);
      } else {
        LostFor(before, g, frame, calls);
      }
    }
  }

  lemma FirstCall(calls: seq<bytes>)
    requires Joined(calls) != []
    ensures calls != [] && Joined(calls) == calls[0] + Joined(calls[1..])
  {
  }

  lemma NoiseRead(before: bytes, calls: seq<bytes>)
    requires calls != [] && TWELVE !in before && TWELVE !in calls[0]
    ensures var after := before + calls[0];
            Reader(NoisyStatus(before), NoisyInfo(before), calls)
            == Reader(NoisyStatus(after), NoisyInfo(after), calls[1..])
  {
    hide Loops, End, Circles, I16, Begins;
    NoiseCall(before, calls[0]);
  }

  lemma HeardOut(before: bytes, g: bytes, frame: bytes, calls: seq<bytes>)
    requires TWELVE !in before && TWELVE !in g && (|before| >= 2 || |before + g| <= 1)
    requires |frame| == INFO_LEN && Begins(frame) && frame[INFO_LEN - 1] == SPLIT_CMD
    requires calls != [] && |g| < |calls[0]| <= |g| + INFO_LEN && calls[0] == g + frame[..|calls[0]| - |g|]
    requires Joined(calls[1..]) == frame[|calls[0]| - |g|..]
    ensures Reader(NoisyStatus(before), NoisyInfo(before), calls) == Reading(Announced, frame)
  {
    hide Loops, End, Circles, I16, Joined;
    var q := |calls[0]| - |g|;
    HeardCall(before, g, frame[..q]);
    if q < INFO_LEN {
      FrameInCalls(frame, q, calls[1..]);
    }
  }

  lemma LostFor(before: bytes, g: bytes, frame: bytes, calls: seq<bytes>)
    requires TWELVE !in before && TWELVE !in g && |before| < 2 <= |before + g|
    requires |frame| == INFO_LEN && Begins(frame) && frame[INFO_LEN - 1] == SPLIT_CMD
    requires calls != [] && |g| < |calls[0]| <= |g| + INFO_LEN && calls[0] == g + frame[..|calls[0]| - |g|]
    requires Joined(calls[1..]) == frame[|calls[0]| - |g|..]
    ensures Reader(STATUS_LEN, before, calls).outcome != Announced
  {
    hide Loops, End, Circles, I16, Joined;
    var cp := calls[0];
    var x := From(STATUS_LEN, before, cp);
    StrayCall(before, g, frame[..|cp| - |g|]);
    if !Loops(cp, x) && End(cp, x).outcome == Waiting {
      WaitingRests(cp, x);
      NeverAnnounced(End(cp, x).status, End(cp, x).info, calls[1..]);
    }
  }

  /** Noise costs the announcement: a fresh reader given bytes without a 12 and then a whole announcement, in
      any calls, gets it if and only if there is at most one such byte, or a call ends between
      the second of them and the announcement. */
  lemma NoiseCosts(g: bytes, addresses: bytes, calls: seq<bytes>)
    requires TWELVE !in g && |addresses| == 12 && Joined(calls) == g + NetifFrame(addresses)
    ensures var r := Reader(STATUS_LEN, [], calls);
            && (r.outcome == Announced <==> |g| <= 1 || Pause(0, |g|, calls))
            && (r.outcome == Announced ==> r.info == NetifFrame(addresses))
  {
    assert [] + g == g;
    NoiseCostsFrom([], g, NetifFrame(addresses), calls);
  }

  /** In one call, noise of two bytes or more always costs it. */
  lemma NoiseInOneCall(g: bytes, addresses: bytes)
    requires TWELVE !in g && |addresses| == 12
    ensures Reader(STATUS_LEN, [], [g + NetifFrame(addresses)]).outcome == Announced <==> |g| <= 1
  {
    var cp := g + NetifFrame(addresses);
    assert Joined([cp][1..]) == [] && cp + [] == cp;
    NoiseCosts(g, addresses, [cp]);
  }

  // ---------------------------------------------------------------------------
  // Instances
  // ---------------------------------------------------------------------------

  /** Four bytes given to a fresh reader: its scan starts behind the two it has used, counts them twice,
      moves one byte past the end, and a negative count is copied. */
  lemma OverrunOfFour()
    ensures var cp: bytes := [0, 0, 0, TWELVE]; var x := From(STATUS_LEN, [], cp);
            && Reached(cp, x) && !Loops(cp, x) && End(cp, x) == Ends(Overrun, STATUS_LEN, [], 5)
            && Strays(STATUS_LEN, [], cp, false)
  {
    hide Loops, End, Circles, Step, Strays;
    var noise: bytes := [0, 0, 0];
    var cp, x := noise + [TWELVE], From(STATUS_LEN, [], noise + [TWELVE]);
    assert cp == [0, 0, 0, TWELVE] && cp[0..] == cp;
    StraySteps([], noise, [TWELVE]);
    var y := Spot(STATUS_LEN, [] + noise[..2], 2, 2);
    var z := y.(status := STATUS_SPLIT);
    TurnedOn(cp, x);
    TurnedOn(cp, y);
    TurnedOn(cp, z);
    var u := Spot(STATUS_LEN, [], 5, -1);
    TurnedOn(cp, u);
    assert Step(cp, u) == Ends(Overrun, STATUS_LEN, [], 5) by { CopiesNegative(cp, u); }
    StraysExact(cp, x);
    LookedBounded(cp, x);
  }

  lemma CopiesNegative(cp: bytes, x: Spot)
    requires Placed(cp, x) && x.status == STATUS_LEN && x.info == [] && x.surplus < 0
    ensures Step(cp, x) == Ends(Overrun, STATUS_LEN, [], x.processed)
  {
  }

  /** No call can look at more bytes than it is given. */
  lemma {:induction false} LookedBounded(cp: bytes, x: Spot)
    requires Reached(cp, x) && !Loops(cp, x)
    ensures Looked(cp, x) <= Weight(x.surplus, 0)
    decreases Weight(x.surplus, |x.info|), Weight(x.surplus, 0), Stage(x.status, |x.info|)
  {
    hide Loops, End, Circles, Step, Here, Begins;
    TurnedOn(cp, x);
    NotOnCircle(cp, x);
    TurnBounded(cp, x);
    if Step(cp, x).Goes? {
      StepKeeps(cp, x);
      LookedBounded(cp, Step(cp, x).spot);
    }
  }

  lemma TurnBounded(cp: bytes, x: Spot)
    requires Reached(cp, x)
    ensures Step(cp, x).Ends? ==> Here(cp, x) <= Weight(x.surplus, 0)
    ensures Step(cp, x).Goes? ==> Here(cp, x) + Weight(Step(cp, x).spot.surplus, 0) <= Weight(x.surplus, 0)
  {
    hide I16, Begins, Circles, Find;
    AllFound(x.info);
  }

  /** Two bytes of noise and an announcement that holds no other 12: the whole announcement is gone, and all
      17 bytes are reported. */
  lemma AnnouncementGone(addresses: bytes)
    requires |addresses| == 12 && TWELVE !in addresses
    ensures var cp := [0, 0] + NetifFrame(addresses); var x := From(STATUS_LEN, [], cp);
            && Reached(cp, x) && !Loops(cp, x)
            && End(cp, x) == Ends(Waiting, STATUS_SPLIT, [], 17)
  {
    hide Loops, End, Circles, Step;
    var noise: bytes, frame := [0, 0], NetifFrame(addresses);
    var cp, x := noise + frame, From(STATUS_LEN, [], noise + frame);
    StraySteps([], noise, frame);
    var y := Spot(STATUS_LEN, [] + noise[..2], 2, 15);
    TurnedOn(cp, x);
    TurnedOn(cp, y);
    TurnedOn(cp, y.(status := STATUS_SPLIT));
    var u := Spot(STATUS_LEN, [], 4, 13);
    Behind(addresses, cp);
    DropsAll(cp, u);
  }

  lemma Behind(addresses: bytes, cp: bytes)
    requires |addresses| == 12 && TWELVE !in addresses && cp == [0, 0] + NetifFrame(addresses)
    ensures |cp| == 17 && TWELVE !in cp[4..]
  {
    assert cp[4..] == addresses + [SPLIT_CMD];
  }

  /** From an empty buffer with no 12 left in the call, everything is dropped. */
  lemma DropsAll(cp: bytes, u: Spot)
    requires Reached(cp, u) && u.status == STATUS_LEN && u.info == [] && u.surplus >= 2 && TWELVE !in cp[u.processed..]
    ensures !Loops(cp, u) && End(cp, u) == Ends(Waiting, STATUS_SPLIT, [], |cp|)
  {
    hide Loops, End, Circles;
    var p := u.processed;
    var v := Spot(STATUS_LEN, cp[p..p + 2], p + 2, u.surplus - 2);
    SliceOfSlice(cp, p, 2);
    assert Step(cp, u) == Goes(v);
    NoTwelve(v.info);
    NoTwelve(cp[p + 2..]);
    TurnedOn(cp, u);
    TurnedOn(cp, v);
    TurnedOn(cp, v.(status := STATUS_SPLIT));
  }
}
