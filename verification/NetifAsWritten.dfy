/**
 `ttyio_netif_info` exactly as written, as a pure function: one turn of its `restart` loop. The
 resynchronisation has the absolute-index mistake of the data receiver, after which a negative
 count may be copied (`Overrun`), and it can come back to the same state for ever.
 */
module NetifAsWritten {
  import opened Framing
  import opened HostAsWritten

  const TWELVE: byte := 12

  datatype Outcome = Waiting | Announced | Overrun | Stuck

  /** A point of the loop: the state, the bytes buffered, and the counts of the current call. */
  datatype Spot = Spot(status: Status, info: bytes, processed: int, surplus: int)

  /** One turn of the loop goes on, or returns to the caller. */
  datatype Turn = Goes(spot: Spot) | Ends(outcome: Outcome, status: Status, info: bytes, processed: int)

  predicate Placed(cp: bytes, x: Spot) {
    0 <= x.processed && x.processed + x.surplus == |cp| && |x.info| <= INFO_LEN
  }

  /** Copies what is missing to `want` bytes, or as much of it as was presented. */
  function Copy(cp: bytes, x: Spot, want: nat): (r: Turn)
    requires Placed(cp, x) && |x.info| < want <= INFO_LEN
    ensures r.Goes? ==> Placed(cp, r.spot)
  {
    if x.surplus == 0 then Ends(Waiting, x.status, x.info, x.processed)
    else if x.surplus < 0 then Ends(Overrun, x.status, x.info, x.processed)
    else
      var k := Min(x.surplus, want - |x.info|);
      Goes(Spot(x.status, x.info + cp[x.processed..x.processed + k], x.processed + k, x.surplus - k))
  }

  function Step(cp: bytes, x: Spot): (r: Turn)
    requires Placed(cp, x)
    ensures r.Goes? ==> Placed(cp, r.spot)
  {
    match x.status
    case STATUS_LEN =>
      if |x.info| < 2 then Copy(cp, x, 2)
      else if I16(x.info) == 12 then Goes(x.(status := STATUS_DATA))
      else if x.info[0] == TWELVE && 1 + Find(x.info[1..], TWELVE) < |x.info| then
        Goes(x.(info := x.info[1 + Find(x.info[1..], TWELVE)..]))
      else Goes(x.(status := STATUS_SPLIT))
    case STATUS_DATA =>
      if |x.info| < INFO_LEN then Copy(cp, x, INFO_LEN)
      else if x.info[INFO_LEN - 1] == SPLIT_CMD then Ends(Announced, x.status, x.info, x.processed)
      else Goes(x.(status := STATUS_SPLIT))
    case STATUS_SPLIT =>
      var k := Find(x.info, TWELVE);
      if k < |x.info| then Goes(x.(status := STATUS_LEN, info := x.info[k..]))
      else if x.surplus > 0 && x.processed + Find(cp[x.processed..], TWELVE) < |cp| then
        var at := x.processed + Find(cp[x.processed..], TWELVE);
        Goes(Spot(STATUS_LEN, [], x.processed + at, x.surplus - at))
      else Ends(Waiting, STATUS_SPLIT, [], |cp|)
  }

  /** `n` turns of the loop, or fewer if it returns. */
  function Iterate(cp: bytes, x: Spot, n: nat): (r: Turn)
    requires Placed(cp, x)
    ensures r.Goes? ==> Placed(cp, r.spot)
  {
    if n == 0 then Goes(x) else
    match Iterate(cp, x, n - 1)
    case Goes(y) => Step(cp, y)
    case Ends(o, s, i, p) => Ends(o, s, i, p)
  }

  ghost predicate NeverReturns(cp: bytes, x: Spot)
    requires Placed(cp, x)
  {
    forall n: nat :: Iterate(cp, x, n).Goes?
  }

  ghost predicate Returns(cp: bytes, x: Spot, r: Turn)
    requires Placed(cp, x)
  {
    r.Ends? && exists n: nat :: Iterate(cp, x, n) == r
  }

  lemma {:induction false} IterateAdd(cp: bytes, x: Spot, n: nat, m: nat)
    requires Placed(cp, x)
    ensures match Iterate(cp, x, n)
            case Goes(y) => Iterate(cp, x, n + m) == Iterate(cp, y, m)
            case Ends(_, _, _, _) => Iterate(cp, x, n + m) == Iterate(cp, x, n)
  {
    hide Step;
    if m > 0 {
      IterateAdd(cp, x, n, m - 1);
    }
  }

  /** A call has one end, or none. */
  lemma OneEnd(cp: bytes, x: Spot, r: Turn, s: Turn)
    requires Placed(cp, x) && Returns(cp, x, r)
    ensures !NeverReturns(cp, x)
    ensures Returns(cp, x, s) ==> r == s
  {
    hide Step, Iterate;
    var n: nat :| Iterate(cp, x, n) == r;
    if Returns(cp, x, s) {
      var m: nat :| Iterate(cp, x, m) == s;
      if n <= m {
        IterateAdd(cp, x, n, m - n);
      } else {
        IterateAdd(cp, x, m, n - m);
      }
    }
  }

  /** Whatever holds of the loop from a later point holds from an earlier one. */
  lemma FromLater(cp: bytes, x: Spot, n: nat, y: Spot)
    requires Placed(cp, x) && Iterate(cp, x, n) == Goes(y)
    ensures NeverReturns(cp, y) ==> NeverReturns(cp, x)
    ensures forall r :: Returns(cp, y, r) ==> Returns(cp, x, r)
  {
    hide Step, Iterate;
    forall m: nat
      ensures Iterate(cp, x, n + m) == Iterate(cp, y, m)
    {
      IterateAdd(cp, x, n, m);
    }
    if NeverReturns(cp, y) {
      forall m: nat
        ensures Iterate(cp, x, m).Goes?
      {
        if m <= n {
          IterateAdd(cp, x, m, n - m);
        } else {
          assert Iterate(cp, x, n + (m - n)) == Iterate(cp, y, m - n);
        }
      }
    }
  }

  lemma FirstStep(cp: bytes, x: Spot)
    requires Placed(cp, x)
    ensures Iterate(cp, x, 1) == Step(cp, x)
  {
    hide Step;
    assert Iterate(cp, x, 0) == Goes(x);
  }

  lemma ReturnsNow(cp: bytes, x: Spot)
    requires Placed(cp, x) && Step(cp, x).Ends?
    ensures Returns(cp, x, Step(cp, x))
  {
    FirstStep(cp, x);
  }

  // ---------------------------------------------------------------------------
  // Going round in circles
  // ---------------------------------------------------------------------------

  /** A whole frame but for its trailer. */
  predicate WrongTrailer(info: bytes) {
    |info| == INFO_LEN && info[0] == TWELVE && info[1] == 0 && info[INFO_LEN - 1] != SPLIT_CMD
  }

  /** Bytes of which only the first is a 12, and which do not begin with the length word. */
  predicate LoneTwelve(info: bytes) {
    2 <= |info| && info[0] == TWELVE && info[1] != 0 && TWELVE !in info[1..]
  }

  /** The points from which the loop runs in circles: resynchronisation finds its 12 in first place and
      keeps everything. */
  predicate Circles(x: Spot) {
    WrongTrailer(x.info) || (LoneTwelve(x.info) && x.status != STATUS_DATA)
  }

  /** The state that follows on such a circle. */
  function Around(x: Spot): Status {
    match x.status
    case STATUS_LEN => if WrongTrailer(x.info) then STATUS_DATA else STATUS_SPLIT
    case STATUS_DATA => STATUS_SPLIT
    case STATUS_SPLIT => STATUS_LEN
  }

  lemma CirclesOn(cp: bytes, x: Spot)
    requires Placed(cp, x) && Circles(x)
    ensures Step(cp, x) == Goes(x.(status := Around(x))) && Circles(x.(status := Around(x)))
  {
    if x.status == STATUS_SPLIT {
      FindIs(x.info, TWELVE, 0);
      assert x.info[0..] == x.info;
    } else if x.status == STATUS_LEN && LoneTwelve(x.info) {
      var rest := x.info[1..];
      assert rest[..|rest|] == rest;
      FindIs(rest, TWELVE, |rest|);
    }
  }

  lemma ThreeSteps(cp: bytes, x: Spot, y: Spot, z: Spot)
    requires Placed(cp, x) && Placed(cp, y) && Placed(cp, z) && Step(cp, x) == Goes(y) && Step(cp, y) == Goes(z)
    ensures Iterate(cp, x, 2) == Goes(z) && Iterate(cp, x, 3) == Step(cp, z)
  {
    hide Step;
    assert Iterate(cp, x, 0) == Goes(x);
    assert Iterate(cp, x, 1) == Goes(y);
    assert Iterate(cp, x, 2) == Goes(z);
  }

  /** After three turns with a wrong trailer, and after two with a lone twelve, the loop is back where it
      was, and no byte has been consumed. */
  lemma BackWhereItWas(cp: bytes, x: Spot)
    requires Placed(cp, x) && Circles(x)
    ensures WrongTrailer(x.info) ==> Iterate(cp, x, 3) == Goes(x)
    ensures LoneTwelve(x.info) ==> Iterate(cp, x, 2) == Goes(x)
  {
    hide Step, Iterate;
    var y := x.(status := Around(x));
    var z := y.(status := Around(y));
    CirclesOn(cp, x);
    CirclesOn(cp, y);
    CirclesOn(cp, z);
    ThreeSteps(cp, x, y, z);
  }

  lemma {:induction false} CirclesForEver(cp: bytes, x: Spot, n: nat)
    requires Placed(cp, x) && Circles(x)
    ensures Iterate(cp, x, n).Goes? && Circles(Iterate(cp, x, n).spot)
  {
    hide Step, Circles;
    if n > 0 {
      CirclesForEver(cp, x, n - 1);
      CirclesOn(cp, Iterate(cp, x, n - 1).spot);
    }
  }

  lemma CirclesNeverReturns(cp: bytes, x: Spot)
    requires Placed(cp, x) && Circles(x)
    ensures NeverReturns(cp, x)
  {
    hide Step, Iterate;
    forall n: nat ensures Iterate(cp, x, n).Goes? {
      CirclesForEver(cp, x, n);
    }
  }

  // ---------------------------------------------------------------------------
  // Where a call ends
  // ---------------------------------------------------------------------------

  /** States in the order the handshake reader visits them without consuming a byte. */
  function Stage(status: Status, len: nat): nat {
    match status
    case STATUS_LEN => 2
    case STATUS_DATA => 1
    case STATUS_SPLIT => if len == 0 then 3 else 0
  }

  /** What holds wherever a call can get to. After a count below zero the buffer is empty, in STATUS_DATA it
      begins with the length word, and a resynchronisation that would find its 12 in first place is
      on a circle. */
  predicate Reached(cp: bytes, x: Spot) {
    && Placed(cp, x)
    && (x.surplus < 0 ==> x.status == STATUS_LEN && x.info == [])
    && (x.status == STATUS_DATA ==> |x.info| >= 2 && Begins(x.info))
    && (x.status == STATUS_SPLIT && x.info != [] && x.info[0] == TWELVE ==> Circles(x))
  }

  /** The reader between two calls. */
  predicate Rests(status: Status, info: bytes) {
    && |info| < INFO_LEN
    && match status
       case STATUS_LEN => true
       case STATUS_DATA => |info| >= 2 && Begins(info)
       case STATUS_SPLIT => info == []
  }

  function From(status: Status, info: bytes, cp: bytes): Spot {
    Spot(status, info, 0, |cp|)
  }

  lemma RestsReached(status: Status, info: bytes, cp: bytes)
    requires Rests(status, info)
    ensures Reached(cp, From(status, info, cp))
  {
  }

  lemma StepCopies(cp: bytes, x: Spot)
    requires Reached(cp, x) && x.status != STATUS_SPLIT && |x.info| < if x.status == STATUS_LEN then 2 else INFO_LEN
    ensures Placed(cp, x) && Step(cp, x) == Copy(cp, x, if x.status == STATUS_LEN then 2 else INFO_LEN)
    ensures Rests(x.status, x.info)
  {
  }

  /** Every turn keeps that, and off the circles it uses up bytes or moves the state on. */
  lemma StepKeeps(cp: bytes, x: Spot)
    requires Reached(cp, x) && Step(cp, x).Goes?
    ensures Reached(cp, Step(cp, x).spot)
    ensures !(x.status == STATUS_SPLIT && Circles(x)) ==> Onward(x, Step(cp, x).spot)
  {
    if x.status == STATUS_LEN && |x.info| >= 2 && x.info[0] == TWELVE {
      var rest := x.info[1..];
      if Find(rest, TWELVE) == |rest| {
        assert rest[..|rest|] == rest;
      }
    }
  }

  predicate Onward(x: Spot, y: Spot) {
    var a, b := Weight(x.surplus, |x.info|), Weight(y.surplus, |y.info|);
    || b < a
    || (b == a && Weight(y.surplus, 0) < Weight(x.surplus, 0))
    || (b == a && Weight(y.surplus, 0) == Weight(x.surplus, 0)
        && Stage(y.status, |y.info|) < Stage(x.status, |x.info|))
  }

  /** The call goes round in circles: a condition on the state and the presented bytes that can be
      computed before the call. */
  predicate Loops(cp: bytes, x: Spot)
    requires Reached(cp, x)
    decreases Weight(x.surplus, |x.info|), Weight(x.surplus, 0), Stage(x.status, |x.info|)
  {
    || Circles(x)
    || (Step(cp, x).Goes?
        && (StepKeeps(cp, x); Loops(cp, Step(cp, x).spot)))
  }

  /** Where a call that does not go round in circles ends. */
  function End(cp: bytes, x: Spot): (r: Turn)
    requires Reached(cp, x) && !Loops(cp, x)
    ensures r.Ends?
    decreases Weight(x.surplus, |x.info|), Weight(x.surplus, 0), Stage(x.status, |x.info|)
  {
    match Step(cp, x)
    case Ends(o, s, i, p) => Ends(o, s, i, p)
    case Goes(y) => StepKeeps(cp, x); End(cp, y)
  }

  predicate SameFate(cp: bytes, x: Spot, y: Spot)
    requires Reached(cp, x) && Reached(cp, y)
  {
    Loops(cp, x) == Loops(cp, y) && (!Loops(cp, x) ==> End(cp, x) == End(cp, y))
  }

  /** One turn changes neither whether the call ends nor where. */
  lemma TurnedOn(cp: bytes, x: Spot)
    requires Reached(cp, x)
    ensures Step(cp, x).Ends? ==> !Loops(cp, x) && End(cp, x) == Step(cp, x)
    ensures Step(cp, x).Goes? ==> Reached(cp, Step(cp, x).spot) && SameFate(cp, x, Step(cp, x).spot)
  {
    hide Step, Circles;
    if Circles(x) {
      CirclesOn(cp, x);
    }
    if Step(cp, x).Goes? {
      StepKeeps(cp, x);
    }
  }

  /** The condition is exact: a call never returns if and only if it holds, and else ends where `End` says. */
  lemma {:induction false} LoopsExact(cp: bytes, x: Spot)
    requires Reached(cp, x)
    ensures Loops(cp, x) <==> NeverReturns(cp, x)
    ensures !Loops(cp, x) ==> Returns(cp, x, End(cp, x))
    decreases Weight(x.surplus, |x.info|), Weight(x.surplus, 0), Stage(x.status, |x.info|)
  {
    hide Step, Iterate, NeverReturns, Returns, Loops, End, Circles;
    TurnedOn(cp, x);
    FirstStep(cp, x);
    if Circles(x) {
      CirclesLoop(cp, x);
      CirclesNeverReturns(cp, x);
    } else if Step(cp, x).Goes? {
      var y := Step(cp, x).spot;
      StepKeeps(cp, x);
      LoopsExact(cp, y);
      FromLater(cp, x, 1, y);
    } else {
      ReturnsNow(cp, x);
    }
    if !Loops(cp, x) {
      OneEnd(cp, x, End(cp, x), End(cp, x));
    }
  }

  lemma CirclesLoop(cp: bytes, x: Spot)
    requires Reached(cp, x) && Circles(x)
    ensures Loops(cp, x)
  {
  }

  // ---------------------------------------------------------------------------
  // Bytes that begin like a handshake frame
  // ---------------------------------------------------------------------------

  /** The bytes so far are those of a handshake frame as far as its length word. */
  predicate Begins(s: bytes) {
    (|s| >= 1 ==> s[0] == TWELVE) && (|s| >= 2 ==> s[1] == 0)
  }

  /** What a reader that has been given `s`, beginning like a handshake frame, comes to. */
  function Verdict(s: bytes): Outcome {
    if |s| < INFO_LEN then Waiting else if s[INFO_LEN - 1] == SPLIT_CMD then Announced else Stuck
  }

  /** How a call ends that has all of `s` buffered or presented: it waits for the rest, with everything
      stored, or announces with what follows unprocessed. */
  function ProperEnd(cp: bytes, s: bytes): Turn {
    if |s| < INFO_LEN then Ends(Waiting, if |s| < 2 then STATUS_LEN else STATUS_DATA, s, |cp|)
    else Ends(Announced, STATUS_DATA, s[..INFO_LEN], |cp| - (|s| - INFO_LEN))
  }

  lemma Split(s: bytes, i: nat, j: nat)
    requires i <= j <= |s|
    ensures s[i..] == s[i..j] + s[j..]
  {
  }

  /** One turn on such bytes. */
  lemma ProperStep(cp: bytes, x: Spot)
    requires Reached(cp, x) && x.surplus >= 0 && x.status != STATUS_SPLIT
    requires Begins(x.info + cp[x.processed..])
    ensures var s, r := x.info + cp[x.processed..], Step(cp, x);
            if r.Ends? then Verdict(s) != Stuck && r == ProperEnd(cp, s)
            else if r.spot.status == STATUS_SPLIT then Verdict(s) == Stuck && WrongTrailer(r.spot.info)
            else && r.spot.info + cp[r.spot.processed..] == s && 0 <= r.spot.surplus <= x.surplus
                 && (r.spot.surplus == x.surplus ==> Rank(r.spot.status) < Rank(x.status))
  {
    var s := x.info + cp[x.processed..];
    if |x.info| < if x.status == STATUS_LEN then 2 else INFO_LEN {
      ProperCopy(cp, x);
    } else {
      hide Find;
      assert forall i :: 0 <= i < |x.info| ==> s[i] == x.info[i];
      assert x.surplus == 0 ==> s == x.info;
    }
  }

  lemma ProperCopy(cp: bytes, x: Spot)
    requires Reached(cp, x) && x.surplus >= 0 && x.status != STATUS_SPLIT
    requires |x.info| < if x.status == STATUS_LEN then 2 else INFO_LEN
    ensures var s, r := x.info + cp[x.processed..], Step(cp, x);
            if r.Ends? then Verdict(s) != Stuck && r == ProperEnd(cp, s)
            else && r.spot.status == x.status && r.spot.info + cp[r.spot.processed..] == s
                 && 0 <= r.spot.surplus < x.surplus
  {
    StepCopies(cp, x);
    Resting(cp, x);
    hide Step, Reached, Rests, Begins;
    var want := if x.status == STATUS_LEN then 2 else INFO_LEN;
    if x.surplus > 0 {
      Split(cp, x.processed, x.processed + Min(x.surplus, want - |x.info|));
    } else {
      assert x.info + cp[x.processed..] == x.info;
    }
  }

  lemma Resting(cp: bytes, x: Spot)
    requires Reached(cp, x)
    ensures x.status == STATUS_DATA ==> |x.info| >= 2
  {
  }

  lemma {:induction false} ProperRun(cp: bytes, x: Spot)
    requires Reached(cp, x) && x.surplus >= 0 && x.status != STATUS_SPLIT
    requires Begins(x.info + cp[x.processed..])
    ensures var s := x.info + cp[x.processed..];
            if Verdict(s) == Stuck then Loops(cp, x) else !Loops(cp, x) && End(cp, x) == ProperEnd(cp, s)
    decreases x.surplus, Rank(x.status)
  {
    hide Loops, End, Step, Begins, Verdict, ProperEnd;
    TurnedOn(cp, x);
    ProperStep(cp, x);
    var r := Step(cp, x);
    if r.Goes? {
      if r.spot.status == STATUS_SPLIT {
        CirclesLoop(cp, r.spot);
      } else {
        ProperRun(cp, r.spot);
      }
    }
  }
}
