/**
 How far resynchronisation goes. A receiver that has lost its place can enter a frame behind any
 split byte in it. If from every such place it is back in step by the end of the frame, the frame is
 called settling; this can be computed from the packet alone. After any bytes whatever, a stream of
 settling frames is delivered again, at the latest from the first one that starts 3006 bytes on, and
 1503 if no frame holds the split byte but as its trailer. Other frames can keep the receiver out
 of step for ever.
 */
module Resynchronisation {
  import opened Framing

  /** Decoding `s` from a believed frame boundary ends at a frame boundary, with nothing left. */
  predicate EndsInStep(s: bytes) {
    Parse(true, s).synced && Parse(true, s).rest == []
  }

  /** The frame of `p` can be entered behind its byte `k`. */
  predicate Entry(p: bytes, k: int) {
    0 <= k < |Encode(p)| && Encode(p)[k] == SPLIT_DATA
  }

  function Behind(p: bytes, k: int): bytes {
    if 0 <= k < |Encode(p)| then Encode(p)[k + 1..] else []
  }

  predicate Settles(p: bytes) {
    forall k | 0 <= k < |Encode(p)| && Entry(p, k) :: EndsInStep(Behind(p, k))
  }

  predicate AllSettle(ps: seq<bytes>) {
    forall p <- ps :: Carried(p) && Settles(p)
  }

  /** The frame of `p` holds the split byte only as its trailer. */
  predicate SplitFree(p: bytes) {
    SPLIT_DATA !in Le16(|p|) + p
  }

  predicate AllSplitFree(ps: seq<bytes>) {
    forall p <- ps :: Carried(p) && SplitFree(p)
  }

  lemma SplitFreeSettles(p: bytes)
    requires SplitFree(p)
    ensures Settles(p)
    ensures forall k :: Entry(p, k) ==> k == |Encode(p)| - 1
  {
    hide Parse;
    var f, head := Encode(p), Le16(|p|) + p;
    assert forall i :: 0 <= i < |head| ==> f[i] == head[i];
    NothingEncoded();
    assert Behind(p, |f| - 1) == [];
  }

  /** Settling is the exact condition: wherever the frame is entered, what follows it is decoded as
      if from a frame boundary, whatever it is, if and only if the packet settles. */
  lemma SettlesExact(p: bytes)
    ensures Settles(p) <==> forall k, t: bytes :: Entry(p, k) ==> ContinuesInStep(Behind(p, k), t)
  {
    hide Next, Parse, Behind;
    forall k, t: bytes | Entry(p, k)
      ensures EndsInStep(Behind(p, k)) ==> ContinuesInStep(Behind(p, k), t)
    {
      ParseAppend(true, Behind(p, k), t);
      assert [] + t == t;
    }
    forall k | Entry(p, k)
      ensures ContinuesInStep(Behind(p, k), []) ==> EndsInStep(Behind(p, k))
    {
      assert Behind(p, k) + [] == Behind(p, k);
      NothingEncoded();
    }
  }

  predicate ContinuesInStep(s: bytes, t: bytes) {
    Parse(true, s + t) == Prepend(Parse(true, s).packets, Parse(true, t))
  }

  /** How much of a stream of packets may be missing at its front. */
  predicate Bounded(ps: seq<bytes>, j: nat)
    requires j <= |ps|
  {
    && |EncodeAll(ps[..j])| <= 2 * MAX_FRAME_LEN
    && (AllSplitFree(ps) ==> |EncodeAll(ps[..j])| <= MAX_FRAME_LEN)
  }

  lemma HeadOf(ps: seq<bytes>)
    requires ps != [] && AllSettle(ps)
    ensures Carried(ps[0]) && Settles(ps[0]) && AllSettle(ps[1..]) && AllCarried(ps)
    ensures EncodeAll(ps) == Encode(ps[0]) + EncodeAll(ps[1..]) && |Encode(ps[0])| == |ps[0]| + 3
    ensures AllSplitFree(ps) ==> SplitFree(ps[0]) && AllSplitFree(ps[1..])
  {
    hide Settles;
    assert ps[0] in ps;
  }

  /** Whatever split byte of such a stream is taken for a trailer, the receiver is back in step at
      the end of the frame that holds it. */
  lemma {:induction false} SplitInsideFrame(ps: seq<bytes>, x: nat) returns (junk: seq<bytes>, j: nat)
    requires AllSettle(ps) && x < |EncodeAll(ps)| && EncodeAll(ps)[x] == SPLIT_DATA
    ensures 0 < j <= |ps| && |EncodeAll(ps[..j])| <= x + MAX_FRAME_LEN
    ensures AllSplitFree(ps) ==> |EncodeAll(ps[..j])| == x + 1
    ensures Parse(true, EncodeAll(ps)[x + 1..]) == Prepend(junk, Parse(true, EncodeAll(ps[j..])))
  {
    hide EncodeAll, Parse, Encode, Settles, SplitFree;
    if ps == [] {
      NothingEncoded();
      assert false;
    }
    HeadOf(ps);
    var f := Encode(ps[0]);
    if x < |f| {
      EntersFrame(ps[0], x);
      var rest := EncodeAll(ps[1..]);
      assert EncodeAll(ps)[x + 1..] == f[x + 1..] + rest;
      ParseAppend(true, f[x + 1..], rest);
      assert [] + rest == rest;
      EncodeFirst(ps, 0);
      NothingEncoded();
      assert ps[1..][..0] == [] && f + [] == f;
      return Parse(true, f[x + 1..]).packets, 1;
    }
    var i;
    junk, i := SplitInsideFrame(ps[1..], x - |f|);
    j := i + 1;
    EncodeFirst(ps, i);
    assert ps[1..][i..] == ps[j..];
    assert EncodeAll(ps)[x + 1..] == EncodeAll(ps[1..])[x - |f| + 1..];
  }

  lemma EntersFrame(p: bytes, x: nat)
    requires Settles(p) && x < |Encode(p)| && Encode(p)[x] == SPLIT_DATA
    ensures EndsInStep(Encode(p)[x + 1..])
    ensures SplitFree(p) ==> x == |Encode(p)| - 1
  {
    hide Parse;
    assert Entry(p, x) && Behind(p, x) == Encode(p)[x + 1..];
    if SplitFree(p) {
      SplitFreeSettles(p);
    }
  }

  lemma EncodeFirst(ps: seq<bytes>, i: nat)
    requires i < |ps|
    ensures EncodeAll(ps[..i + 1]) == Encode(ps[0]) + EncodeAll(ps[1..][..i])
  {
    assert ps[..i + 1][1..] == ps[1..][..i] && ps[..i + 1][0] == ps[0];
  }

  /** What is decoded from any leftover bytes `u` at a believed frame boundary, followed by such
      frames: some packets of no interest, and then all frames from some `j` on. */
  lemma {:induction false} Stabilises(u: bytes, ps: seq<bytes>) returns (junk: seq<bytes>, j: nat)
    requires AllSettle(ps)
    ensures j <= |ps| && Bounded(ps, j)
    ensures Parse(true, u + EncodeAll(ps)).packets == junk + ps[j..]
    decreases |u|, 1
  {
    hide Next, EncodeAll, Parse, BodyOk, Settles, SplitFree;
    var t := EncodeAll(ps);
    var s := u + t;
    NothingEncoded();
    if u == [] {
      assert s == t && AllCarried(ps);
      RoundTrip(ps);
      assert ps[..0] == [] && ps[0..] == ps && [] + ps == ps;
      return [], 0;
    }
    if |s| < 2 || (LengthOk(Data, I16(s)) && |s| < I16(s) + 3) {
      ParseShort(s);
      assert ps[..|ps|] == ps && ps[|ps|..] == [];
      return [], |ps|;
    }
    if Accepted(Data, s) {
      junk, j := AfterFalseFrame(u, ps);
    } else {
      NextBad(Data, s);
      ParseByNext(true, s, false, s);
      junk, j := FromLost(u, ps);
    }
  }

  /** The frames from `j` on are decoded, after `junk`, from where a split byte of the stream leads. */
  lemma RestDecodes(ps: seq<bytes>, x: nat) returns (junk: seq<bytes>, j: nat)
    requires AllSettle(ps) && x < |EncodeAll(ps)| && EncodeAll(ps)[x] == SPLIT_DATA && x < MAX_FRAME_LEN
    ensures j <= |ps| && Bounded(ps, j)
    ensures Parse(true, EncodeAll(ps)[x + 1..]).packets == junk + ps[j..]
  {
    hide Next, EncodeAll, Parse, Settles, SplitFree;
    junk, j := SplitInsideFrame(ps, x);
    assert AllCarried(ps[j..]);
    RoundTrip(ps[j..]);
  }

  lemma {:induction false} AfterFalseFrame(u: bytes, ps: seq<bytes>) returns (junk: seq<bytes>, j: nat)
    requires AllSettle(ps) && u != [] && Accepted(Data, u + EncodeAll(ps))
    ensures j <= |ps| && Bounded(ps, j)
    ensures Parse(true, u + EncodeAll(ps)).packets == junk + ps[j..]
    decreases |u|, 0
  {
    hide Next, EncodeAll, Parse, Settles, SplitFree, Bounded;
    var t := EncodeAll(ps);
    var s := u + t;
    var n, p, rest := I16(s) + 3, s[2..2 + I16(s)], [];
    ParseAccepted(s);
    if n <= |u| {
      assert s[n..] == u[n..] + t;
      rest, j := Stabilises(u[n..], ps);
    } else {
      assert s[n - 1] == t[n - 1 - |u|] && s[n..] == t[n - |u|..];
      rest, j := RestDecodes(ps, n - 1 - |u|);
    }
    junk := [p] + rest;
    assert [p] + (rest + ps[j..]) == junk + ps[j..];
  }

  /** The same for a receiver that has lost its place. */
  lemma {:induction false} FromLost(u: bytes, ps: seq<bytes>) returns (junk: seq<bytes>, j: nat)
    requires AllSettle(ps)
    ensures j <= |ps| && Bounded(ps, j)
    ensures Parse(false, u + EncodeAll(ps)).packets == junk + ps[j..]
    decreases |u|, 0
  {
    hide Next, EncodeAll, Parse, Settles, SplitFree, Bounded;
    var k, t := Find(u, SPLIT_DATA), EncodeAll(ps);
    if k < |u| {
      assert u + t == u[..k] + [SPLIT_DATA] + (u[k + 1..] + t);
      NextLost(Data, u[..k], u[k + 1..] + t);
      ParseByNext(false, u + t, true, u[k + 1..] + t);
      junk, j := Stabilises(u[k + 1..], ps);
    } else {
      assert u[..k] == u;
      junk, j := LostUntilFrame(u, ps);
    }
  }

  lemma LostUntilFrame(u: bytes, ps: seq<bytes>) returns (junk: seq<bytes>, j: nat)
    requires AllSettle(ps) && SPLIT_DATA !in u
    ensures j <= |ps| && Bounded(ps, j)
    ensures Parse(false, u + EncodeAll(ps)).packets == junk + ps[j..]
  {
    hide Next, EncodeAll, Parse, Settles, SplitFree;
    var t := EncodeAll(ps);
    if ps == [] {
      NothingEncoded();
      assert u + t == u;
      LostForGood(u);
      assert ps[..0] == [] && ps[0..] == [];
      return [], 0;
    }
    var x := Find(t, SPLIT_DATA);
    FirstSplitSoon(ps);
    assert u + t == (u + t[..x]) + [SPLIT_DATA] + t[x + 1..];
    NextLost(Data, u + t[..x], t[x + 1..]);
    ParseByNext(false, u + t, true, t[x + 1..]);
    junk, j := RestDecodes(ps, x);
  }

  lemma FirstSplitSoon(ps: seq<bytes>)
    requires ps != [] && AllSettle(ps)
    ensures Find(EncodeAll(ps), SPLIT_DATA) < |EncodeAll(ps)| && Find(EncodeAll(ps), SPLIT_DATA) < MAX_FRAME_LEN
  {
    hide Settles, Parse;
    HeadOf(ps);
    var t, f := EncodeAll(ps), Encode(ps[0]);
    assert t[|f| - 1] == f[|f| - 1] == SPLIT_DATA;
    var x := Find(t, SPLIT_DATA);
    assert forall i :: 0 <= i < x ==> t[i] == t[..x][i];
  }

  lemma LostForGood(u: bytes)
    requires SPLIT_DATA !in u
    ensures Parse(false, u).packets == []
  {
    hide Next;
    NextLost(Data, u, []);
  }

  /** Self-stabilisation: whatever came before and whatever state it left, of the settling frames that
      follow only those that end within the next 3006 bytes can be missing, and within 1503
      if none holds an inner split byte. */
  lemma SelfStabilising(synced: bool, garbage: bytes, ps: seq<bytes>) returns (junk: seq<bytes>, j: nat)
    requires AllSettle(ps)
    ensures j <= |ps| && Bounded(ps, j)
    ensures Parse(synced, garbage + EncodeAll(ps)).packets == junk + ps[j..]
  {
    hide Next, EncodeAll, Parse, Settles, SplitFree, Bounded;
    if synced {
      junk, j := Stabilises(garbage, ps);
    } else {
      junk, j := FromLost(garbage, ps);
    }
  }

  // ---------------------------------------------------------------------------
  // Without settling there is no such bound
  // ---------------------------------------------------------------------------

  function Zeros(n: nat): bytes {
    seq(n, _ => 0)
  }

  /** A 20-byte packet that contains the end of a frame and the start of one of its own size. */
  function Misleading(): bytes {
    [SPLIT_DATA, 20, 0] + Zeros(17)
  }

  /** The same bytes read three places later. */
  function Misread(): bytes {
    Zeros(17) + [SPLIT_DATA, 20, 0]
  }

  function Copies(p: bytes, n: nat): seq<bytes> {
    if n == 0 then [] else [p] + Copies(p, n - 1)
  }

  /** A receiver that has lost its place when such packets start to arrive never finds it: of any
      number of perfect frames it delivers none, and a wrong packet for each but the last. */
  lemma {:induction false} NeverBackInStep(n: nat)
    requires n > 0
    ensures Parse(false, EncodeAll(Copies(Misleading(), n))).packets == Copies(Misread(), n - 1)
    ensures Misread() != Misleading()
  {
    hide Next, Parse;
    var t := EncodeAll(Copies(Misleading(), n));
    var after := [20, 0] + Zeros(17) + [SPLIT_DATA] + EncodeAll(Copies(Misleading(), n - 1));
    assert Copies(Misleading(), n)[1..] == Copies(Misleading(), n - 1);
    assert t == [20, 0] + [SPLIT_DATA] + after;
    NextLost(Data, [20, 0], after);
    ParseByNext(false, t, true, after);
    OutOfStep(n - 1);
    assert Misread()[0] == 0 && Misleading()[0] == SPLIT_DATA;
  }

  lemma {:induction false} OutOfStep(n: nat)
    ensures Parse(true, [20, 0] + Zeros(17) + [SPLIT_DATA] + EncodeAll(Copies(Misleading(), n))).packets
            == Copies(Misread(), n)
  {
    hide Next, Parse;
    var s := [20, 0] + Zeros(17) + [SPLIT_DATA] + EncodeAll(Copies(Misleading(), n));
    if n == 0 {
      assert EncodeAll(Copies(Misleading(), n)) == [];
      ParseShort(s);
    } else {
      var after := [20, 0] + Zeros(17) + [SPLIT_DATA] + EncodeAll(Copies(Misleading(), n - 1));
      assert Copies(Misleading(), n)[1..] == Copies(Misleading(), n - 1);
      assert s == Encode(Misread()) + after;
      ParseAccepted(s);
      assert s[2..22] == Misread() && s[23..] == after;
      OutOfStep(n - 1);
    }
  }
}
