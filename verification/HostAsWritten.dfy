/**
 `ttyio_receive_data` exactly as written, as a pure function of the receiver's state and the presented
 bytes, and the condition under which it goes wrong.

 The code departs from the frame grammar in two places:
   - the scan of the presented bytes for a split byte adds an absolute index to the number
     of bytes processed, which is right only if none had been processed;
   - a delivered packet has the length of the buffer, not the declared length.
 `Hazard` says, without computing either, whether a call reaches one of the two. It depends on the
 state, the presented bytes and the outcomes of the call's allocations; `SafeWhateverMemory` says
 what the first two alone decide.
 */
module HostAsWritten {
  import opened Framing

  function AllocOk(allocs: seq<bool>): bool {
    allocs == [] || allocs[0]
  }

  function Later(allocs: seq<bool>): seq<bool> {
    if allocs == [] then [] else allocs[1..]
  }

  predicate AllTrue(allocs: seq<bool>) {
    forall a <- allocs :: a
  }

  lemma AllTrueLater(allocs: seq<bool>)
    requires AllTrue(allocs)
    ensures AllocOk(allocs) && AllTrue(Later(allocs))
  {
    assert allocs != [] ==> allocs[0] in allocs && forall a <- allocs[1..] :: a in allocs;
  }

  /** The code as written, presented with `rest` after `done` bytes of the same call while the
      buffer holds `buf`, will report bytes it never looked at or deliver bytes beyond a frame. */
  predicate Hazard(synced: bool, buf: bytes, rest: bytes, done: nat, allocs: seq<bool>)
    decreases |buf| + |rest|, |rest|, synced
  {
    if !synced then
      var k, j := Find(buf, SPLIT_DATA), Find(rest, SPLIT_DATA);
      if k < |buf| then Hazard(true, buf[k + 1..], rest, done, allocs)
      else j < |rest| && (done > 0 || Hazard(true, [], rest[j + 1..], j + 1, allocs))
    else if |buf| < 2 then
      rest != [] && var k := Min(|rest|, 2 - |buf|); Hazard(true, buf + rest[..k], rest[k..], done + k, allocs)
    else if !LengthOk(Data, I16(buf)) then
      Hazard(false, buf, rest, done, allocs)
    else if |buf| < I16(buf) + 3 then
      rest != []
      && var k := Min(|rest|, I16(buf) + 3 - |buf|); Hazard(true, buf + rest[..k], rest[k..], done + k, allocs)
    else if !BodyOk(Data, buf) then
      Hazard(false, buf, rest, done, allocs)
    else
      |buf| > I16(buf) + 3 || (AllocOk(allocs) && Hazard(true, [], rest, done, Later(allocs)))
  }

  function Weight(surplus: int, len: nat): nat {
    if surplus < 0 then 0 else surplus + len
  }

  /** Bytes of the presentation a call has really looked at, copied or scanned, and bytes it has
      delivered beyond the declared lengths. */
  datatype Tally = Tally(touched: int, excess: int)

  /** Result of one call: bytes reported, whether it copied a negative count, packets delivered so far,
      the state left behind, what was really done, and whether no receive buffer is left (`bare`). */
  datatype Result = Result(processed: int, fault: bool, delivered: seq<bytes>, synced: bool, buf: bytes, tally: Tally,
                           bare: bool)

  /** The call reports bytes it never looked at, or has delivered more than was declared. */
  predicate Misreports(r: Result) {
    r.tally.touched < r.processed || r.tally.excess > 0
  }

  /** The code as written, from any point of a call presented with `cp` of which it counts `p` bytes
      as processed, with the tally `t` so far. */
  function Written(synced: bool, buf: bytes, cp: bytes, p: nat, allocs: seq<bool>, delivered: seq<bytes>,
                   t: Tally): (r: Result)
    ensures r.processed >= 0
    decreases Weight(|cp| - p, 0) + |buf|, Weight(|cp| - p, 0), synced
  {
    if !synced then
      var k := Find(buf, SPLIT_DATA);
      if k < |buf| then Written(true, buf[k + 1..], cp, p, allocs, delivered, t)
      else if p < |cp| && p + Find(cp[p..], SPLIT_DATA) < |cp| then
        var j := Find(cp[p..], SPLIT_DATA);
        Written(true, [], cp, p + (p + j + 1), allocs, delivered, t.(touched := t.touched + j + 1))
      else
        Result(|cp|, false, delivered, false, [], t.(touched := t.touched + Weight(|cp| - p, 0)), false)
    else if |buf| >= 2 && !LengthOk(Data, I16(buf)) then
      Written(false, buf, cp, p, allocs, delivered, t)
    else
      var want := if |buf| < 2 then 2 else I16(buf) + 3;
      if |buf| < want then
        if p >= |cp| then Result(p, p > |cp|, delivered, true, buf, t, false)
        else
          var k := Min(|cp| - p, want - |buf|);
          Written(true, buf + cp[p..p + k], cp, p + k, allocs, delivered, t.(touched := t.touched + k))
      else if !BodyOk(Data, buf) then
        Written(false, buf, cp, p, allocs, delivered, t)
      else
        var d, u := delivered + [buf[2..|buf| - 1]], t.(excess := t.excess + |buf| - want);
        if AllocOk(allocs) then Written(true, [], cp, p, Later(allocs), d, u)
        else Result(p, false, d, true, [], u, true)
  }

  /** The receiver between two calls: whether it has no receive buffer, is at a frame boundary or inside a frame, what
      it has buffered, and the packets delivered so far. */
  datatype Drv = Drv(bare: bool, synced: bool, buf: bytes, delivered: seq<bytes>)

  function DrvOf(r: Result): Drv {
    Drv(r.bare, r.synced, r.buf, r.delivered)
  }

  /** One call: a receiver without a buffer starts by allocating one. */
  function Presented(h: Drv, cp: bytes, allocs: seq<bool>): (r: Result)
    ensures r.processed >= 0
  {
    if !h.bare then Written(h.synced, h.buf, cp, 0, allocs, h.delivered, Tally(0, 0))
    else if AllocOk(allocs) then Written(true, [], cp, 0, Later(allocs), h.delivered, Tally(0, 0))
    else Result(0, false, h.delivered, true, [], Tally(0, 0), true)
  }

  // ---------------------------------------------------------------------------
  // The hazard predicate, one step at a time
  // ---------------------------------------------------------------------------

  lemma HazardFill(buf: bytes, rest: bytes, done: nat, allocs: seq<bool>, want: nat)
    requires if |buf| < 2 then want == 2 else LengthOk(Data, I16(buf)) && |buf| < want == I16(buf) + 3
    ensures rest == [] ==> !Hazard(true, buf, rest, done, allocs)
    ensures rest != [] ==>
              var k := Min(|rest|, want - |buf|);
              Hazard(true, buf, rest, done, allocs) == Hazard(true, buf + rest[..k], rest[k..], done + k, allocs)
  {
  }

  lemma HazardCopies(buf: bytes, cp: bytes, p: nat, allocs: seq<bool>, k: nat)
    requires p < |cp| && (|buf| < 2 || (LengthOk(Data, I16(buf)) && |buf| < I16(buf) + 3))
    requires k == Min(|cp| - p, (if |buf| < 2 then 2 else I16(buf) + 3) - |buf|)
    ensures Hazard(true, buf, cp[p..], p, allocs) == Hazard(true, buf + cp[p..p + k], cp[p + k..], p + k, allocs)
  {
    hide Hazard;
    HazardFill(buf, cp[p..], p, allocs, if |buf| < 2 then 2 else I16(buf) + 3);
    assert cp[p..][..k] == cp[p..p + k] && cp[p..][k..] == cp[p + k..];
  }

  lemma HazardFrame(buf: bytes, rest: bytes, done: nat, allocs: seq<bool>)
    requires Accepted(Data, buf)
    ensures Hazard(true, buf, rest, done, allocs)
            == (|buf| > I16(buf) + 3 || (AllocOk(allocs) && Hazard(true, [], rest, done, Later(allocs))))
  {
  }

  lemma HazardBad(buf: bytes, rest: bytes, done: nat, allocs: seq<bool>)
    requires |buf| >= 2
    requires LengthOk(Data, I16(buf)) ==> |buf| >= I16(buf) + 3 && !BodyOk(Data, buf)
    ensures Hazard(true, buf, rest, done, allocs) == Hazard(false, buf, rest, done, allocs)
  {
  }

  lemma HazardSkip(buf: bytes, rest: bytes, done: nat, allocs: seq<bool>, k: nat)
    requires k < |buf| && buf[k] == SPLIT_DATA && SPLIT_DATA !in buf[..k]
    ensures Hazard(false, buf, rest, done, allocs) == Hazard(true, buf[k + 1..], rest, done, allocs)
  {
    FindIs(buf, SPLIT_DATA, k);
  }

  lemma HazardHit(buf: bytes, rest: bytes, done: nat, allocs: seq<bool>, j: nat)
    requires SPLIT_DATA !in buf && j < |rest| && rest[j] == SPLIT_DATA && SPLIT_DATA !in rest[..j]
    ensures Hazard(false, buf, rest, done, allocs) == (done > 0 || Hazard(true, [], rest[j + 1..], j + 1, allocs))
  {
    assert buf[..|buf|] == buf;
    FindIs(buf, SPLIT_DATA, |buf|);
    FindIs(rest, SPLIT_DATA, j);
  }

  lemma HazardMiss(buf: bytes, rest: bytes, done: nat, allocs: seq<bool>)
    requires SPLIT_DATA !in buf && SPLIT_DATA !in rest
    ensures !Hazard(false, buf, rest, done, allocs)
  {
    assert buf[..|buf|] == buf && rest[..|rest|] == rest;
    FindIs(buf, SPLIT_DATA, |buf|);
    FindIs(rest, SPLIT_DATA, |rest|);
  }

  // ---------------------------------------------------------------------------
  // The code as written, one step at a time
  // ---------------------------------------------------------------------------

  lemma WrittenCopies(buf: bytes, cp: bytes, p: nat, allocs: seq<bool>, delivered: seq<bytes>, t: Tally, k: nat)
    requires p < |cp| && (|buf| < 2 || (LengthOk(Data, I16(buf)) && |buf| < I16(buf) + 3))
    requires k == Min(|cp| - p, (if |buf| < 2 then 2 else I16(buf) + 3) - |buf|)
    ensures Written(true, buf, cp, p, allocs, delivered, t)
            == Written(true, buf + cp[p..p + k], cp, p + k, allocs, delivered, t.(touched := t.touched + k))
  {
  }

  lemma WrittenBad(buf: bytes, cp: bytes, p: nat, allocs: seq<bool>, delivered: seq<bytes>, t: Tally)
    requires |buf| >= 2
    requires LengthOk(Data, I16(buf)) ==> |buf| >= I16(buf) + 3 && !BodyOk(Data, buf)
    ensures Written(true, buf, cp, p, allocs, delivered, t) == Written(false, buf, cp, p, allocs, delivered, t)
  {
  }

  lemma WrittenSkips(buf: bytes, cp: bytes, p: nat, allocs: seq<bool>, delivered: seq<bytes>, t: Tally, k: nat)
    requires k < |buf| && buf[k] == SPLIT_DATA && SPLIT_DATA !in buf[..k]
    ensures Written(false, buf, cp, p, allocs, delivered, t) == Written(true, buf[k + 1..], cp, p, allocs, delivered, t)
  {
    FindIs(buf, SPLIT_DATA, k);
  }

  lemma WrittenHits(buf: bytes, cp: bytes, p: nat, allocs: seq<bool>, delivered: seq<bytes>, t: Tally, j: nat)
    requires SPLIT_DATA !in buf && p + j < |cp| && cp[p + j] == SPLIT_DATA && SPLIT_DATA !in cp[p..p + j]
    ensures Written(false, buf, cp, p, allocs, delivered, t)
            == Written(true, [], cp, p + (p + j + 1), allocs, delivered, t.(touched := t.touched + j + 1))
  {
    assert buf[..|buf|] == buf && cp[p..][..j] == cp[p..p + j];
    FindIs(buf, SPLIT_DATA, |buf|);
    FindIs(cp[p..], SPLIT_DATA, j);
  }

  lemma WrittenMisses(buf: bytes, cp: bytes, p: nat, allocs: seq<bool>, delivered: seq<bytes>, t: Tally)
    requires SPLIT_DATA !in buf && p <= |cp| && SPLIT_DATA !in cp[p..]
    ensures Written(false, buf, cp, p, allocs, delivered, t)
            == Result(|cp|, false, delivered, false, [], t.(touched := t.touched + |cp| - p), false)
  {
    assert buf[..|buf|] == buf && cp[p..][..|cp| - p] == cp[p..];
    FindIs(buf, SPLIT_DATA, |buf|);
    FindIs(cp[p..], SPLIT_DATA, |cp| - p);
  }

  lemma WrittenStops(buf: bytes, cp: bytes, p: nat, allocs: seq<bool>, delivered: seq<bytes>, t: Tally)
    requires p >= |cp| && (|buf| < 2 || (LengthOk(Data, I16(buf)) && |buf| < I16(buf) + 3))
    ensures Written(true, buf, cp, p, allocs, delivered, t) == Result(p, p > |cp|, delivered, true, buf, t, false)
  {
  }

  lemma WrittenDelivers(buf: bytes, cp: bytes, p: nat, allocs: seq<bool>, delivered: seq<bytes>, t: Tally)
    requires Accepted(Data, buf)
    ensures var d, u := delivered + [buf[2..|buf| - 1]], t.(excess := t.excess + |buf| - (I16(buf) + 3));
            Written(true, buf, cp, p, allocs, delivered, t)
            == if AllocOk(allocs) then Written(true, [], cp, p, Later(allocs), d, u)
               else Result(p, false, d, true, [], u, true)
  {
  }

  /** At a frame boundary with an empty buffer, two bytes that are no length and no split byte send the
      code as written past the split byte found by as much again as it had processed. */
  lemma WrittenBadLength(cp: bytes, p: nat, allocs: seq<bool>, delivered: seq<bytes>, t: Tally, at: nat)
    requires p + 2 <= at < |cp| && cp[at] == SPLIT_DATA && SPLIT_DATA !in cp[p..at]
    requires !LengthOk(Data, I16(cp[p..p + 2]))
    ensures Written(true, [], cp, p, allocs, delivered, t)
            == Written(true, [], cp, p + 2 + at + 1, allocs, delivered, t.(touched := t.touched + at + 1 - p))
  {
    hide Written;
    var buf := cp[p..p + 2];
    WrittenCopies([], cp, p, allocs, delivered, t, 2);
    assert [] + buf == buf && buf == cp[p..at][..2] && cp[p + 2..at] == cp[p..at][2..];
    var u := t.(touched := t.touched + 2);
    WrittenBad(buf, cp, p + 2, allocs, delivered, u);
    WrittenHits(buf, cp, p + 2, allocs, delivered, u, at - (p + 2));
  }

  // ---------------------------------------------------------------------------
  // What a hazard is
  // ---------------------------------------------------------------------------

  /** A call that has misreported stays so to its end. */
  lemma {:induction false} StaysOff(synced: bool, buf: bytes, cp: bytes, p: nat, allocs: seq<bool>,
                                    delivered: seq<bytes>, t: Tally)
    requires 0 <= t.touched <= p && t.excess >= 0 && (t.touched < p || t.excess > 0)
    requires p > |cp| ==> synced && buf == []
    ensures Misreports(Written(synced, buf, cp, p, allocs, delivered, t))
    decreases Weight(|cp| - p, 0) + |buf|, Weight(|cp| - p, 0), synced
  {
    hide Written;
    if !synced {
      StaysOffLost(buf, cp, p, allocs, delivered, t);
    } else if |buf| < 2 || (LengthOk(Data, I16(buf)) && |buf| < I16(buf) + 3) {
      if p >= |cp| {
        WrittenStops(buf, cp, p, allocs, delivered, t);
      } else {
        var k := Min(|cp| - p, (if |buf| < 2 then 2 else I16(buf) + 3) - |buf|);
        WrittenCopies(buf, cp, p, allocs, delivered, t, k);
        StaysOff(true, buf + cp[p..p + k], cp, p + k, allocs, delivered, t.(touched := t.touched + k));
      }
    } else if Accepted(Data, buf) {
      WrittenDelivers(buf, cp, p, allocs, delivered, t);
      if AllocOk(allocs) {
        StaysOff(true, [], cp, p, Later(allocs), delivered + [buf[2..|buf| - 1]],
                 t.(excess := t.excess + |buf| - (I16(buf) + 3)));
      }
    } else {
      WrittenBad(buf, cp, p, allocs, delivered, t);
      StaysOff(false, buf, cp, p, allocs, delivered, t);
    }
  }

  lemma {:induction false} StaysOffLost(buf: bytes, cp: bytes, p: nat, allocs: seq<bool>, delivered: seq<bytes>,
                                        t: Tally)
    requires 0 <= t.touched <= p <= |cp| && t.excess >= 0 && (t.touched < p || t.excess > 0)
    ensures Misreports(Written(false, buf, cp, p, allocs, delivered, t))
    decreases Weight(|cp| - p, 0) + |buf|, Weight(|cp| - p, 0), false, 0
  {
    hide Written;
    var k, j := Find(buf, SPLIT_DATA), Find(cp[p..], SPLIT_DATA);
    if k < |buf| {
      WrittenSkips(buf, cp, p, allocs, delivered, t, k);
      StaysOff(true, buf[k + 1..], cp, p, allocs, delivered, t);
    } else {
      assert buf[..k] == buf;
      if p + j < |cp| {
        assert cp[p..p + j] == cp[p..][..j];
        WrittenHits(buf, cp, p, allocs, delivered, t, j);
        StaysOff(true, [], cp, p + (p + j + 1), allocs, delivered, t.(touched := t.touched + j + 1));
      } else {
        assert cp[p..][..j] == cp[p..];
        WrittenMisses(buf, cp, p, allocs, delivered, t);
      }
    }
  }

  /** `Hazard`, which keeps no tally, is the exact condition: the code as written
      reports bytes it never looked at or delivers more than was declared if and only if it holds. */
  lemma {:induction false} HazardExact(synced: bool, buf: bytes, cp: bytes, p: nat, allocs: seq<bool>,
                                       delivered: seq<bytes>)
    requires p <= |cp|
    ensures Hazard(synced, buf, cp[p..], p, allocs)
            <==> Misreports(Written(synced, buf, cp, p, allocs, delivered, Tally(p, 0)))
    decreases Weight(|cp| - p, 0) + |buf|, Weight(|cp| - p, 0), synced
  {
    hide Written, Hazard;
    if !synced {
      HazardExactLost(buf, cp, p, allocs, delivered);
    } else if |buf| < 2 || (LengthOk(Data, I16(buf)) && |buf| < I16(buf) + 3) {
      var want := if |buf| < 2 then 2 else I16(buf) + 3;
      if p == |cp| {
        WrittenStops(buf, cp, p, allocs, delivered, Tally(p, 0));
        HazardFill(buf, cp[p..], p, allocs, want);
      } else {
        var k := Min(|cp| - p, want - |buf|);
        WrittenCopies(buf, cp, p, allocs, delivered, Tally(p, 0), k);
        HazardCopies(buf, cp, p, allocs, k);
        HazardExact(true, buf + cp[p..p + k], cp, p + k, allocs, delivered);
      }
    } else if Accepted(Data, buf) {
      WrittenDelivers(buf, cp, p, allocs, delivered, Tally(p, 0));
      HazardFrame(buf, cp[p..], p, allocs);
      var d := delivered + [buf[2..|buf| - 1]];
      if |buf| > I16(buf) + 3 {
        if AllocOk(allocs) {
          StaysOff(true, [], cp, p, Later(allocs), d, Tally(p, |buf| - (I16(buf) + 3)));
        }
      } else if AllocOk(allocs) {
        HazardExact(true, [], cp, p, Later(allocs), d);
      }
    } else {
      WrittenBad(buf, cp, p, allocs, delivered, Tally(p, 0));
      HazardBad(buf, cp[p..], p, allocs);
      HazardExact(false, buf, cp, p, allocs, delivered);
    }
  }

  lemma {:induction false} HazardExactLost(buf: bytes, cp: bytes, p: nat, allocs: seq<bool>, delivered: seq<bytes>)
    requires p <= |cp|
    ensures Hazard(false, buf, cp[p..], p, allocs)
            <==> Misreports(Written(false, buf, cp, p, allocs, delivered, Tally(p, 0)))
    decreases Weight(|cp| - p, 0) + |buf|, Weight(|cp| - p, 0), false, 0
  {
    hide Written, Hazard;
    var k, j := Find(buf, SPLIT_DATA), Find(cp[p..], SPLIT_DATA);
    if k < |buf| {
      WrittenSkips(buf, cp, p, allocs, delivered, Tally(p, 0), k);
      HazardSkip(buf, cp[p..], p, allocs, k);
      HazardExact(true, buf[k + 1..], cp, p, allocs, delivered);
      return;
    }
    assert buf[..k] == buf;
    if p + j == |cp| {
      assert cp[p..][..j] == cp[p..];
      WrittenMisses(buf, cp, p, allocs, delivered, Tally(p, 0));
      HazardMiss(buf, cp[p..], p, allocs);
      return;
    }
    assert cp[p..p + j] == cp[p..][..j] && cp[p..][j + 1..] == cp[p + j + 1..];
    WrittenHits(buf, cp, p, allocs, delivered, Tally(p, 0), j);
    HazardHit(buf, cp[p..], p, allocs, j);
    if p > 0 {
      StaysOff(true, [], cp, p + (p + j + 1), allocs, delivered, Tally(p + j + 1, 0));
    } else {
      HazardExact(true, [], cp, j + 1, allocs, delivered);
    }
  }

  /** Even where it misreports, the code as written delivers only packets of 20 to 1500 bytes. */
  lemma {:induction false} WrittenDeliversCarried(synced: bool, buf: bytes, cp: bytes, p: nat, allocs: seq<bool>,
                                                  delivered: seq<bytes>, t: Tally)
    requires AllCarried(delivered) && |buf| <= MAX_FRAME_LEN
    ensures AllCarried(Written(synced, buf, cp, p, allocs, delivered, t).delivered)
    decreases Weight(|cp| - p, 0) + |buf|, Weight(|cp| - p, 0), synced
  {
    if !synced {
      var k, j := Find(buf, SPLIT_DATA), if p < |cp| then Find(cp[p..], SPLIT_DATA) else 0;
      if k < |buf| {
        WrittenDeliversCarried(true, buf[k + 1..], cp, p, allocs, delivered, t);
      } else if p < |cp| && p + j < |cp| {
        WrittenDeliversCarried(true, [], cp, p + (p + j + 1), allocs, delivered, t.(touched := t.touched + j + 1));
      }
    } else if |buf| < 2 || (LengthOk(Data, I16(buf)) && |buf| < I16(buf) + 3) {
      if p < |cp| {
        var k := Min(|cp| - p, (if |buf| < 2 then 2 else I16(buf) + 3) - |buf|);
        WrittenDeliversCarried(true, buf + cp[p..p + k], cp, p + k, allocs, delivered, t.(touched := t.touched + k));
      }
    } else if Accepted(Data, buf) {
      var d := delivered + [buf[2..|buf| - 1]];
      if AllocOk(allocs) {
        WrittenDeliversCarried(true, [], cp, p, Later(allocs), d, t.(excess := t.excess + |buf| - (I16(buf) + 3)));
      }
    } else {
      WrittenDeliversCarried(false, buf, cp, p, allocs, delivered, t);
    }
  }

  /** A failing allocation only ends a call sooner. */
  lemma {:induction false} MoreMemoryMoreHazard(synced: bool, buf: bytes, rest: bytes, done: nat, allocs: seq<bool>)
    requires Hazard(synced, buf, rest, done, allocs)
    ensures Hazard(synced, buf, rest, done, [])
    decreases |buf| + |rest|, |rest|, synced
  {
    hide Hazard;
    if !synced {
      var k, j := Find(buf, SPLIT_DATA), Find(rest, SPLIT_DATA);
      if k < |buf| {
        HazardSkip(buf, rest, done, allocs, k);
        HazardSkip(buf, rest, done, [], k);
        MoreMemoryMoreHazard(true, buf[k + 1..], rest, done, allocs);
      } else {
        assert buf[..k] == buf;
        if j == |rest| {
          assert rest[..j] == rest;
          HazardMiss(buf, rest, done, allocs);
          assert false;
        }
        HazardHit(buf, rest, done, allocs, j);
        HazardHit(buf, rest, done, [], j);
        if done == 0 {
          MoreMemoryMoreHazard(true, [], rest[j + 1..], j + 1, allocs);
        }
      }
    } else if |buf| < 2 || (LengthOk(Data, I16(buf)) && |buf| < I16(buf) + 3) {
      var want := if |buf| < 2 then 2 else I16(buf) + 3;
      HazardFill(buf, rest, done, allocs, want);
      HazardFill(buf, rest, done, [], want);
      var k := Min(|rest|, want - |buf|);
      MoreMemoryMoreHazard(true, buf + rest[..k], rest[k..], done + k, allocs);
    } else if Accepted(Data, buf) {
      HazardFrame(buf, rest, done, allocs);
      HazardFrame(buf, rest, done, []);
      if |buf| == I16(buf) + 3 {
        MoreMemoryMoreHazard(true, [], rest, done, Later(allocs));
      }
    } else {
      HazardBad(buf, rest, done, allocs);
      HazardBad(buf, rest, done, []);
      MoreMemoryMoreHazard(false, buf, rest, done, allocs);
    }
  }

  /** So the state and the presented bytes alone decide whether a call is safe whatever its
      allocations do: exactly if no hazard is met when none of them fails. */
  lemma SafeWhateverMemory(synced: bool, buf: bytes, cp: bytes)
    ensures (forall allocs :: !Hazard(synced, buf, cp, 0, allocs)) <==> !Hazard(synced, buf, cp, 0, [])
    ensures (forall allocs, delivered :: !Misreports(Written(synced, buf, cp, 0, allocs, delivered, Tally(0, 0))))
            <==> !Hazard(synced, buf, cp, 0, [])
  {
    hide Hazard, Written;
    assert cp[0..] == cp;
    forall allocs | Hazard(synced, buf, cp, 0, allocs)
      ensures Hazard(synced, buf, cp, 0, [])
    {
      MoreMemoryMoreHazard(synced, buf, cp, 0, allocs);
    }
    forall allocs, delivered: seq<bytes>
      ensures Hazard(synced, buf, cp, 0, allocs)
              <==> Misreports(Written(synced, buf, cp, 0, allocs, delivered, Tally(0, 0)))
    {
      HazardExact(synced, buf, cp, 0, allocs, delivered);
    }
    HazardExact(synced, buf, cp, 0, [], []);
  }
}
