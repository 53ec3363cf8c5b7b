/**
 The serial frame grammar shared by both ends of the link,
 `[2-byte little-endian length][payload][1-byte split]`, and the reference decoder
 that the receivers of this project are proved to refine.

 Bytes are unsigned; the length word is read back as a signed 16-bit integer,
 exactly as both receivers do.
 */
module Framing {

  type byte = x: int | 0 <= x < 256
  type bytes = seq<byte>

  const SPLIT_DATA: byte := 0x55
  const SPLIT_CMD: byte := 0xaa
  const MIN_LEN := 20
  const MTU_LEN := 1500
  const MAX_FRAME_LEN := 2 + MTU_LEN + 1
  const UART_FIFO_LEN := 128
  const NEWLINE: byte := 10

  /** Lengths of the start-up phase: credentials, the announcement frame, and the driver's copy of it. */
  const WPA_MAX_SSID_LEN := 32
  const WPA_MIN_PASSWD_LEN := 8
  const WPA_MAX_PASSWD_LEN := 64
  const INFO_LEN := 15
  const ECHO_LEN := 64

  function Min(a: int, b: int): int {
    if a < b then a else b
  }

  datatype Option<+T> = None | Some(value: T)

  // ---------------------------------------------------------------------------
  // Encoding
  // ---------------------------------------------------------------------------

  /** A 16-bit store of `n`: little endian, high bits lost. */
  function Le16(n: nat): bytes {
    [n % 256, n / 256 % 256]
  }

  /** A signed 16-bit load of the first two bytes. */
  function I16(s: bytes): int
    requires |s| >= 2
  {
    var v := s[0] as int + 256 * s[1] as int;
    if v < 0x8000 then v else v - 0x1_0000
  }

  function Encode(p: bytes): bytes {
    Le16(|p|) + p + [SPLIT_DATA]
  }

  function EncodeAll(ps: seq<bytes>): bytes {
    if ps == [] then [] else Encode(ps[0]) + EncodeAll(ps[1..])
  }

  /** The packets the link promises to carry: an IPv4 header at least, an MTU at most. */
  predicate Carried(p: bytes) {
    MIN_LEN <= |p| <= MTU_LEN
  }

  predicate AllCarried(ps: seq<bytes>) {
    forall p <- ps :: Carried(p)
  }

  // ---------------------------------------------------------------------------
  // Receiver states, the same on both sides
  // ---------------------------------------------------------------------------

  datatype Status = STATUS_LEN | STATUS_DATA | STATUS_SPLIT

  /** Order in which a receiver visits its states without consuming a byte. */
  function Rank(s: Status): nat {
    match s case STATUS_LEN => 2 case STATUS_DATA => 1 case STATUS_SPLIT => 0
  }

  // ---------------------------------------------------------------------------
  // Grammars: the data grammar and the three command grammars of the start-up phase
  // ---------------------------------------------------------------------------

  datatype Grammar = Data | Ssid | Passwd | Netif(addresses: bytes)

  function SplitOf(g: Grammar): byte {
    if g.Data? then SPLIT_DATA else SPLIT_CMD
  }

  predicate LengthOk(g: Grammar, n: int) {
    match g
    case Data => MIN_LEN <= n <= MTU_LEN
    case Ssid => 1 <= n <= WPA_MAX_SSID_LEN
    case Passwd => WPA_MIN_PASSWD_LEN <= n <= WPA_MAX_PASSWD_LEN
    case Netif(_) => n == 12
  }

  /** The 15-byte frame in which the station announces its address, mask and gateway. */
  function NetifFrame(addresses: bytes): bytes {
    Le16(12) + addresses + [SPLIT_CMD]
  }

  /** The test a complete frame at the front of `s` must pass. A credential frame is refused
      only when its NUL and its split byte are both wrong. */
  predicate BodyOk(g: Grammar, s: bytes)
    requires |s| >= 2 && LengthOk(g, I16(s)) && |s| >= I16(s) + 3
  {
    var n := I16(s);
    match g
    case Data => s[n + 2] == SPLIT_DATA
    case Ssid => s[n + 1] == 0 || s[n + 2] == SPLIT_CMD
    case Passwd => s[n + 1] == 0 || s[n + 2] == SPLIT_CMD
    case Netif(addresses) => s[n + 2] == SPLIT_CMD && s[..15] == NetifFrame(addresses)
  }

  /** `s` starts with a complete frame of `g` that passes every test. */
  predicate Accepted(g: Grammar, s: bytes) {
    |s| >= 2 && LengthOk(g, I16(s)) && |s| >= I16(s) + 3 && BodyOk(g, s)
  }

  // ---------------------------------------------------------------------------
  // The reference decoder
  // ---------------------------------------------------------------------------

  /** Index of the first `b` in `s`, or `|s|`. */
  function Find(s: bytes, b: byte): (k: nat)
    ensures k <= |s|
    ensures b !in s[..k]
    ensures k < |s| ==> s[k] == b
  {
    if s == [] || s[0] == b then 0 else
    var k := 1 + Find(s[1..], b);
    assert s[..k] == [s[0]] + s[1..][..k - 1];
    k
  }

  /** Outcome of looking for one frame: either more bytes are needed, with what is left to
      remember, or a payload was found and `rest` follows its frame. */
  datatype Scan = Need(synced: bool, rest: bytes) | Got(payload: bytes, rest: bytes)

  /** Looks for the next frame of `g` in `s`. At a synced position a bad length or a bad body
      drops everything through the first split byte. */
  function Next(g: Grammar, synced: bool, s: bytes): (r: Scan)
    ensures r.Need? ==> |r.rest| <= |s|
    ensures r.Got? ==> |r.payload| + 3 + |r.rest| <= |s| && LengthOk(g, |r.payload|)
    decreases |s|, synced
  {
    if !synced then
      var k := Find(s, SplitOf(g));
      if k == |s| then Need(false, []) else Next(g, true, s[k + 1..])
    else if |s| < 2 then
      Need(true, s)
    else if !LengthOk(g, I16(s)) then
      Next(g, false, s)
    else if |s| < I16(s) + 3 then
      Need(true, s)
    else if !BodyOk(g, s) then
      Next(g, false, s)
    else
      Got(s[2..2 + I16(s)], s[I16(s) + 3..])
  }

  /** What a byte stream means: the packets in it, and what must be remembered of its end. */
  datatype Parsed = Parsed(packets: seq<bytes>, synced: bool, rest: bytes)

  function Prepend(ps: seq<bytes>, r: Parsed): Parsed {
    r.(packets := ps + r.packets)
  }

  function Parse(synced: bool, s: bytes): Parsed
    decreases |s|
  {
    match Next(Data, synced, s)
    case Need(m, r) => Parsed([], m, r)
    case Got(p, r) => Prepend([p], Parse(true, r))
  }

  // ---------------------------------------------------------------------------
  // Appending bytes
  // ---------------------------------------------------------------------------

  lemma FindIs(s: bytes, b: byte, k: nat)
    requires k <= |s| && b !in s[..k] && (k < |s| ==> s[k] == b)
    ensures Find(s, b) == k
  {
  }

  lemma SliceOfSlice(s: bytes, i: nat, k: nat)
    requires i + k <= |s|
    ensures s[i..][..k] == s[i..i + k] && s[i..][k..] == s[i + k..]
  {
  }

  lemma SliceOfSum(a: bytes, c: bytes, k: nat)
    requires k <= |a|
    ensures (a + c)[..k] == a[..k] && (a + c)[k..] == a[k..] + c
  {
  }

  lemma NextLostHit(g: Grammar, a: bytes, c: bytes)
    requires SplitOf(g) !in a
    ensures Next(g, false, a + [SplitOf(g)] + c) == Next(g, true, c)
    ensures Next(g, false, a) == Need(false, [])
  {
    var s := a + [SplitOf(g)] + c;
    assert s[..|a|] == a && s[|a| + 1..] == c && a[..|a|] == a;
    FindIs(s, SplitOf(g), |a|);
    FindIs(a, SplitOf(g), |a|);
  }

  /** A lost scan drops bytes that hold no split byte, and resumes after the first one. */
  lemma NextLost(g: Grammar, a: bytes, c: bytes)
    requires SplitOf(g) !in a
    ensures Next(g, false, a + [SplitOf(g)] + c) == Next(g, true, c)
    ensures Next(g, false, a + c) == Next(g, false, c)
    ensures Next(g, false, a) == Need(false, [])
  {
    hide Next;
    NextLostHit(g, a, c);
    var f := Find(c, SplitOf(g));
    if f < |c| {
      assert c == c[..f] + [SplitOf(g)] + c[f + 1..];
      assert a + c == (a + c[..f]) + [SplitOf(g)] + c[f + 1..];
      NextLostHit(g, c[..f], c[f + 1..]);
      NextLostHit(g, a + c[..f], c[f + 1..]);
    } else {
      assert c[..f] == c;
      NextLostHit(g, a + c, []);
      NextLostHit(g, c, []);
    }
  }

  /** At a frame boundary, a wrong length or body makes the scan lost. */
  lemma NextBad(g: Grammar, s: bytes)
    requires |s| >= 2
    requires LengthOk(g, I16(s)) ==> |s| >= I16(s) + 3 && !BodyOk(g, s)
    ensures Next(g, true, s) == Next(g, false, s)
  {
  }

  lemma NextAccepted(g: Grammar, s: bytes, c: bytes)
    requires Accepted(g, s)
    ensures Next(g, true, s + c) == Got(s[2..2 + I16(s)], s[I16(s) + 3..] + c)
  {
    BodyOkAppend(g, s, c);
    assert (s + c)[I16(s) + 3..] == s[I16(s) + 3..] + c;
    assert (s + c)[2..2 + I16(s)] == s[2..2 + I16(s)];
  }

  lemma NextShort(g: Grammar, s: bytes)
    requires |s| < 2 || (LengthOk(g, I16(s)) && |s| < I16(s) + 3)
    ensures Next(g, true, s) == Need(true, s)
  {
  }

  lemma BodyOkAppend(g: Grammar, a: bytes, c: bytes)
    requires |a| >= 2 && LengthOk(g, I16(a)) && |a| >= I16(a) + 3
    ensures I16(a + c) == I16(a) && BodyOk(g, a + c) == BodyOk(g, a)
  {
    if g.Netif? {
      assert (a + c)[..15] == a[..15];
    }
  }

  /** A scan can be interrupted anywhere: resuming from what it remembers gives the same
      outcome as scanning the whole. */
  lemma {:induction false} NextAppend(g: Grammar, synced: bool, a: bytes, c: bytes)
    ensures match Next(g, synced, a)
            case Need(m, r) => Next(g, synced, a + c) == Next(g, m, r + c)
            case Got(p, r) => Next(g, synced, a + c) == Got(p, r + c)
    decreases |a|, synced
  {
    hide Next;
    if !synced {
      var k := Find(a, SplitOf(g));
      if k < |a| {
        assert a == a[..k] + [SplitOf(g)] + a[k + 1..];
        assert a + c == a[..k] + [SplitOf(g)] + (a[k + 1..] + c);
        NextLost(g, a[..k], a[k + 1..]);
        NextLost(g, a[..k], a[k + 1..] + c);
        NextAppend(g, true, a[k + 1..], c);
      } else {
        assert a[..k] == a && [] + c == c;
        NextLost(g, a, c);
      }
    } else if |a| < 2 || (LengthOk(g, I16(a)) && |a| < I16(a) + 3) {
      NextShort(g, a);
    } else if Accepted(g, a) {
      NextAccepted(g, a, []);
      assert a + [] == a && a[I16(a) + 3..] + [] == a[I16(a) + 3..];
      NextAccepted(g, a, c);
    } else {
      NextBad(g, a);
      assert I16(a + c) == I16(a);
      if LengthOk(g, I16(a)) {
        BodyOkAppend(g, a, c);
      }
      NextBad(g, a + c);
      NextAppend(g, false, a, c);
    }
  }

  lemma PrependTwice(ps: seq<bytes>, qs: seq<bytes>, r: Parsed)
    ensures Prepend(ps, Prepend(qs, r)) == Prepend(ps + qs, r)
  {
    assert ps + (qs + r.packets) == ps + qs + r.packets;
  }

  lemma ParseByNext(m: bool, a: bytes, n: bool, b: bytes)
    requires Next(Data, m, a) == Next(Data, n, b)
    ensures Parse(m, a) == Parse(n, b)
  {
    hide Next;
  }

  /** Decoding a concatenation is decoding the first part and then resuming. */
  lemma {:induction false} ParseAppend(synced: bool, a: bytes, c: bytes)
    ensures var r := Parse(synced, a);
            Parse(synced, a + c) == Prepend(r.packets, Parse(r.synced, r.rest + c))
    decreases |a|
  {
    hide Next;
    NextAppend(Data, synced, a, c);
    match Next(Data, synced, a)
    case Need(m, r) =>
    case Got(p, r) =>
      ParseAppend(true, r, c);
      var x := Parse(true, r);
      PrependTwice([p], x.packets, Parse(x.synced, x.rest + c));
  }

  /** If a remembered state stands for a stream, it still does after both grow. */
  lemma ParseCongruent(start: bool, all: bytes, done: seq<bytes>, synced: bool, left: bytes, c: bytes)
    requires Parse(start, all) == Prepend(done, Parse(synced, left))
    ensures Parse(start, all + c) == Prepend(done, Parse(synced, left + c))
  {
    hide Next, Parse;
    ParseAppend(start, all, c);
    ParseAppend(synced, left, c);
    var x := Parse(synced, left);
    PrependTwice(done, x.packets, Parse(x.synced, x.rest + c));
  }

  // ---------------------------------------------------------------------------
  // Decoding, one step at a time
  // ---------------------------------------------------------------------------

  lemma ParseShort(s: bytes)
    requires |s| < 2 || (LengthOk(Data, I16(s)) && |s| < I16(s) + 3)
    ensures Parse(true, s) == Parsed([], true, s)
  {
    hide Next;
    NextShort(Data, s);
  }

  lemma ParseAccepted(s: bytes)
    requires Accepted(Data, s)
    ensures Parse(true, s) == Prepend([s[2..2 + I16(s)]], Parse(true, s[I16(s) + 3..]))
  {
    hide Next;
    NextAccepted(Data, s, []);
    assert s + [] == s && s[I16(s) + 3..] + [] == s[I16(s) + 3..];
  }

  lemma NothingEncoded()
    ensures EncodeAll([]) == [] && Parse(true, []) == Parsed([], true, [])
  {
    ParseShort([]);
  }

  // ---------------------------------------------------------------------------
  // Round trip
  // ---------------------------------------------------------------------------

  lemma NextOfEncode(p: bytes, t: bytes)
    requires Carried(p)
    ensures Next(Data, true, Encode(p) + t) == Got(p, t)
  {
    var s := Encode(p) + t;
    assert I16(s) == |p|;
    assert s[2..2 + |p|] == p;
    assert s[|p| + 3..] == t;
  }

  lemma {:induction false} ParseOfEncodeAll(ps: seq<bytes>, t: bytes)
    requires AllCarried(ps)
    ensures Parse(true, EncodeAll(ps) + t) == Prepend(ps, Parse(true, t))
  {
    if ps == [] {
      assert EncodeAll(ps) + t == t;
    } else {
      hide Next;
      assert EncodeAll(ps) + t == Encode(ps[0]) + (EncodeAll(ps[1..]) + t);
      NextOfEncode(ps[0], EncodeAll(ps[1..]) + t);
      ParseOfEncodeAll(ps[1..], t);
      PrependTwice([ps[0]], ps[1..], Parse(true, t));
      assert [ps[0]] + ps[1..] == ps;
    }
  }

  lemma {:induction false} ParseDeliversCarried(synced: bool, s: bytes)
    ensures AllCarried(Parse(synced, s).packets)
    decreases |s|
  {
    hide Next;
    match Next(Data, synced, s)
    case Need(_, _) =>
    case Got(p, r) => ParseDeliversCarried(true, r);
  }

  /** Sending packets through the frame format gives them back, in order and unchanged,
      exactly when every one of them has 20 to 1500 bytes. */
  lemma {:induction false} RoundTrip(ps: seq<bytes>)
    ensures Parse(true, EncodeAll(ps)).packets == ps <==> AllCarried(ps)
    ensures AllCarried(ps) <==> forall p <- ps :: 20 <= |p| <= 1500
    ensures AllCarried(ps) ==> Parse(true, EncodeAll(ps)) == Parsed(ps, true, [])
  {
    hide Next;
    ParseDeliversCarried(true, EncodeAll(ps));
    if AllCarried(ps) {
      ParseOfEncodeAll(ps, []);
      NextShort(Data, []);
      assert EncodeAll(ps) + [] == EncodeAll(ps);
    }
  }

  lemma {:induction false} EncodeAllAppend(ps: seq<bytes>, qs: seq<bytes>)
    ensures EncodeAll(ps + qs) == EncodeAll(ps) + EncodeAll(qs)
  {
    if ps == [] {
      assert ps + qs == qs;
    } else {
      assert (ps + qs)[1..] == ps[1..] + qs;
      EncodeAllAppend(ps[1..], qs);
    }
  }

  lemma EncodeAllSnoc(ps: seq<bytes>, p: bytes)
    ensures EncodeAll(ps + [p]) == EncodeAll(ps) + Encode(p)
  {
    EncodeAllAppend(ps, [p]);
    assert EncodeAll([p]) == Encode(p) + EncodeAll([]);
  }

  /** Any part of a well-formed stream that has arrived decodes to a prefix of the packets. */
  lemma PrefixDecodesToPrefix(ps: seq<bytes>, seen: bytes)
    requires AllCarried(ps) && seen <= EncodeAll(ps)
    ensures Parse(true, seen).packets <= ps
  {
    hide Next, Parse;
    RoundTrip(ps);
    var c := EncodeAll(ps)[|seen|..];
    assert EncodeAll(ps) == seen + c;
    ParseAppend(true, seen, c);
  }

  // ---------------------------------------------------------------------------
  // Recovery after garbage
  // ---------------------------------------------------------------------------

  /** Resynchronisation: from a lost position, or from a frame boundary at which the next
      two bytes are no length, garbage ending in the first split byte is dropped and
      everything after it is decoded. */
  lemma Recovery(synced: bool, garbage: bytes, ps: seq<bytes>, t: bytes)
    requires SPLIT_DATA !in garbage && AllCarried(ps)
    requires synced ==> garbage != [] && !LengthOk(Data, I16(garbage + [SPLIT_DATA]))
    ensures Parse(synced, garbage + [SPLIT_DATA] + EncodeAll(ps) + t) == Prepend(ps, Parse(true, t))
  {
    hide Next;
    var s := garbage + [SPLIT_DATA] + EncodeAll(ps) + t;
    assert s == garbage + [SPLIT_DATA] + (EncodeAll(ps) + t);
    NextLost(Data, garbage, EncodeAll(ps) + t);
    if synced {
      assert I16(s) == I16(garbage + [SPLIT_DATA]);
      NextBad(Data, s);
    }
    ParseOfEncodeAll(ps, t);
  }

  // ---------------------------------------------------------------------------
  // Byte accounting: how a receiver may dispose of what it read
  // ---------------------------------------------------------------------------

  /** One disposed-of run of bytes: a whole accepted frame, or bytes skipped to resynchronise. */
  datatype Segment = Frame(raw: bytes) | Skipped(run: bytes)

  function Raw(x: Segment): bytes {
    match x case Frame(raw) => raw case Skipped(run) => run
  }

  predicate SegmentOk(g: Grammar, x: Segment) {
    match x
    case Frame(raw) => Accepted(g, raw) && |raw| == I16(raw) + 3
    case Skipped(run) => run != [] && SplitOf(g) !in run[..|run| - 1]
  }

  predicate SegmentsOk(g: Grammar, xs: seq<Segment>) {
    forall x <- xs :: SegmentOk(g, x)
  }

  function Join(xs: seq<Segment>): bytes {
    if xs == [] then [] else Join(xs[..|xs| - 1]) + Raw(xs[|xs| - 1])
  }

  function Payloads(xs: seq<Segment>): seq<bytes> {
    if xs == [] then [] else
    var x := xs[|xs| - 1];
    Payloads(xs[..|xs| - 1]) + if x.Frame? && |x.raw| >= 3 then [x.raw[2..|x.raw| - 1]] else []
  }

  lemma JoinSnoc(xs: seq<Segment>, x: Segment)
    ensures Join(xs + [x]) == Join(xs) + Raw(x)
    ensures Payloads(xs + [x]) ==
            Payloads(xs) + if x.Frame? && |x.raw| >= 3 then [x.raw[2..|x.raw| - 1]] else []
  {
    assert (xs + [x])[..|xs|] == xs;
  }

  lemma JoinNone()
    ensures Join([]) == []
  {
  }

  lemma {:induction false} JoinCons(x: Segment, xs: seq<Segment>)
    ensures Join([x] + xs) == Raw(x) + Join(xs)
  {
    hide Join, Raw;
    if xs == [] {
      assert [x] + xs == [] + [x];
      JoinSnoc([], x);
      JoinNone();
    } else {
      var front, last := xs[..|xs| - 1], xs[|xs| - 1];
      assert xs == front + [last] && [x] + xs == ([x] + front) + [last];
      JoinSnoc([x] + front, last);
      JoinSnoc(front, last);
      JoinCons(x, front);
      assert Raw(x) + Join(front) + Raw(last) == Raw(x) + (Join(front) + Raw(last));
    }
  }

  /** `r` accounts for all of `s`: the skipped runs, then the frame if there is one, then the rest. */
  ghost predicate Explains(g: Grammar, s: bytes, skipped: seq<Segment>, frame: bytes, r: Scan) {
    && SegmentsOk(g, skipped) && (forall x <- skipped :: x.Skipped?)
    && s == Join(skipped) + (frame + r.rest)
    && (if r.Got? then SegmentOk(g, Frame(frame)) && |frame| >= 3 && r.payload == frame[2..|frame| - 1]
        else frame == [])
  }

  lemma ExplainsAfter(g: Grammar, run: bytes, s: bytes, skipped: seq<Segment>, frame: bytes, r: Scan)
    requires Explains(g, s, skipped, frame, r) && SegmentOk(g, Skipped(run))
    ensures Explains(g, run + s, [Skipped(run)] + skipped, frame, r)
  {
    hide SegmentOk, Join;
    JoinCons(Skipped(run), skipped);
    assert run + s == run + Join(skipped) + (frame + r.rest);
  }

  lemma ExplainsNone(g: Grammar, s: bytes, frame: bytes, r: Scan)
    requires s == frame + r.rest
    requires if r.Got? then SegmentOk(g, Frame(frame)) && |frame| >= 3 && r.payload == frame[2..|frame| - 1]
             else frame == []
    ensures Explains(g, s, [], frame, r)
  {
    hide SegmentOk;
    assert s == Join([]) + (frame + r.rest);
  }

  /** What looking for a frame does with its bytes: runs that hold the split byte last or not at all are
      skipped, and then comes either what is remembered or one whole frame that passes every
      test, whose payload is returned, and what follows it. */
  lemma {:induction false} NextSound(g: Grammar, synced: bool, s: bytes) returns (skipped: seq<Segment>, frame: bytes)
    ensures Explains(g, s, skipped, frame, Next(g, synced, s))
    decreases |s|, synced
  {
    hide Next, BodyOk, Explains, SegmentOk;
    skipped, frame := [], [];
    if !synced {
      skipped, frame := LostSound(g, s);
    } else if |s| < 2 || (LengthOk(g, I16(s)) && |s| < I16(s) + 3) {
      NextShort(g, s);
      ExplainsNone(g, s, [], Need(true, s));
    } else if Accepted(g, s) {
      frame := s[..I16(s) + 3];
      AcceptedSound(g, s);
      ExplainsNone(g, s, frame, Next(g, true, s));
    } else {
      NextBad(g, s);
      skipped, frame := LostSound(g, s);
    }
  }

  lemma AcceptedSound(g: Grammar, s: bytes)
    requires Accepted(g, s)
    ensures var f, rest := s[..I16(s) + 3], s[I16(s) + 3..];
            s == f + rest && SegmentOk(g, Frame(f)) && Next(g, true, s) == Got(f[2..|f| - 1], rest)
  {
    hide Next, BodyOk;
    var f, rest := s[..I16(s) + 3], s[I16(s) + 3..];
    assert s == f + rest && I16(f) == I16(s) && |f| >= 3;
    BodyOkAppend(g, f, rest);
    NextAccepted(g, f, rest);
    assert f[I16(f) + 3..] + rest == rest;
  }

  lemma {:induction false} LostSound(g: Grammar, s: bytes) returns (skipped: seq<Segment>, frame: bytes)
    ensures Explains(g, s, skipped, frame, Next(g, false, s))
    decreases |s|, false, 0
  {
    hide Next, BodyOk, Explains;
    skipped, frame := [], [];
    var k := Find(s, SplitOf(g));
    if k == |s| {
      assert s[..k] == s;
      NextLost(g, s, []);
      ExplainsNone(g, [], [], Need(false, []));
      if s != [] {
        assert s + [] == s && forall b <- s[..|s| - 1] :: b in s;
        ExplainsAfter(g, s, [], [], [], Need(false, []));
        skipped := [Skipped(s)] + [];
      }
    } else {
      var run, rest := s[..k + 1], s[k + 1..];
      assert run[..k] == s[..k] && s == s[..k] + [SplitOf(g)] + rest && s == run + rest;
      NextLost(g, s[..k], rest);
      skipped, frame := NextSound(g, true, rest);
      ExplainsAfter(g, run, rest, skipped, frame, Next(g, true, rest));
      skipped := [Skipped(run)] + skipped;
    }
  }
}
