/**
 The text the driver prints behind the 15 stored bytes once it has echoed them: address, mask and
 gateway in dotted decimal, a line each, in 48 bytes. It is what a user reads from the attribute, and
 what a later echo has behind the announcement.
 */
module NetifText {
  import opened Framing

  const TEXT_ROOM := 12 * 4
  const DOT: byte := 46
  const ZERO: byte := 48

  /** A byte in decimal. */
  function Digits(n: byte): bytes {
    (if n >= 100 then [ZERO + n / 100] else [])
    + (if n >= 10 then [ZERO + n / 10 % 10] else [])
    + [ZERO + n % 10]
  }

  /** Bytes in decimal, each followed by a dot, or by a newline if it is a fourth one. */
  function Dotted(a: bytes): bytes {
    if a == [] then [] else Digits(a[0]) + [Separator(a)] + Dotted(a[1..])
  }

  /** What a print into `room` bytes stores: as much of the text as leaves room for the terminator. */
  function Printed(text: bytes, room: nat): bytes
    requires room > 0
  {
    (if |text| < room then text else text[..room - 1]) + [0]
  }

  /** The bytes behind the first 15, after the print over what was there. */
  function InfoText(addresses: bytes, tail: bytes): bytes
    requires |addresses| == 12 && |tail| == ECHO_LEN - INFO_LEN
  {
    var text := Printed(Dotted(addresses), TEXT_ROOM);
    if |text| <= |tail| then text + tail[|text|..] else text
  }

  lemma {:induction false} DottedLength(a: bytes)
    ensures 2 * |a| <= |Dotted(a)| <= 4 * |a|
    ensures |Dotted(a)| == 4 * |a| <==> forall i :: 0 <= i < |a| ==> a[i] >= 100
  {
    if a != [] {
      DottedLength(a[1..]);
      assert |Dotted(a)| == |Digits(a[0])| + 1 + |Dotted(a[1..])|;
      if |Dotted(a)| == 4 * |a| {
        forall i | 0 <= i < |a| ensures a[i] >= 100 {
          assert i == 0 || a[i] == a[1..][i - 1];
        }
      }
    }
  }

  lemma InfoTextLength(addresses: bytes, tail: bytes)
    requires |addresses| == 12 && |tail| == ECHO_LEN - INFO_LEN
    ensures |InfoText(addresses, tail)| == |tail|
    ensures |Printed(Dotted(addresses), TEXT_ROOM)| <= TEXT_ROOM
    ensures InfoText(addresses, tail)
            == Printed(Dotted(addresses), TEXT_ROOM) + tail[|Printed(Dotted(addresses), TEXT_ROOM)|..]
  {
    DottedLength(addresses);
  }

  // ---------------------------------------------------------------------------
  // Reading it back
  // ---------------------------------------------------------------------------

  predicate IsDigit(c: byte) {
    ZERO <= c < ZERO + 10
  }

  /** The decimal numbers in a text up to its terminator; `acc` is the one being read. */
  function Numbers(s: bytes, acc: Option<int>): seq<int> {
    var done := if acc.Some? then [acc.value] else [];
    if s == [] || s[0] == 0 then done
    else if IsDigit(s[0]) then Numbers(s[1..], Some((if acc.Some? then acc.value * 10 else 0) + (s[0] - ZERO)))
    else done + Numbers(s[1..], None)
  }

  lemma OneDigit(d: nat, t: bytes, acc: Option<int>)
    requires d < 10
    ensures Numbers([ZERO + d] + t, acc) == Numbers(t, Some((if acc.Some? then acc.value * 10 else 0) + d))
  {
    assert ([ZERO + d] + t)[1..] == t;
  }

  lemma DigitsOf(n: byte)
    ensures var d0, d1, d2 := n / 100, n / 10 % 10, n % 10;
            && d0 < 10 && n == (d0 * 10 + d1) * 10 + d2 && (n < 100 ==> n == d1 * 10 + d2) && (n < 10 ==> n == d2)
            && Digits(n) == if n >= 100 then [ZERO + d0, ZERO + d1, ZERO + d2]
                            else if n >= 10 then [ZERO + d1, ZERO + d2] else [ZERO + d2]
  {
  }

  lemma NumbersOfDigits(n: byte, t: bytes)
    ensures Numbers(Digits(n) + t, None) == Numbers(t, Some(n))
  {
    hide Numbers, Digits;
    DigitsOf(n);
    var d0, d1, d2 := n / 100, n / 10 % 10, n % 10;
    var units := [ZERO + d2] + t;
    var tens := [ZERO + d1] + units;
    if n >= 100 {
      assert Digits(n) + t == [ZERO + d0] + tens;
      OneDigit(d0, tens, None);
      OneDigit(d1, units, Some(d0));
      OneDigit(d2, t, Some(d0 * 10 + d1));
    } else if n >= 10 {
      assert Digits(n) + t == tens;
      OneDigit(d1, units, None);
      OneDigit(d2, t, Some(d1));
    } else {
      OneDigit(d2, t, None);
    }
  }

  /** One number and its separator. */
  lemma NumbersOfNext(n: byte, c: byte, t: bytes)
    requires c == DOT || c == NEWLINE
    ensures Numbers(Digits(n) + [c] + t, None) == [n] + Numbers(t, None)
  {
    assert Digits(n) + [c] + t == Digits(n) + ([c] + t);
    NumbersOfDigits(n, [c] + t);
    assert ([c] + t)[1..] == t;
  }

  function Separator(a: bytes): byte
    requires a != []
  {
    if |a| % 4 == 1 then NEWLINE else DOT
  }

  /** The text of the first number, in front of what follows and of what follows but its last byte. */
  lemma DottedNext(a: bytes, t: bytes)
    requires a != []
    ensures var c, d, e := Separator(a), Dotted(a), Dotted(a[1..]);
            && d != [] && d + t == Digits(a[0]) + [c] + (e + t)
            && (e != [] ==> d[..|d| - 1] + t == Digits(a[0]) + [c] + (e[..|e| - 1] + t))
            && (e == [] ==> d[..|d| - 1] == Digits(a[0]))
  {
    hide Digits;
    var n, s, e := Digits(a[0]), [Separator(a)], Dotted(a[1..]);
    assert Dotted(a) == n + s + e;
    hide Dotted;
    CutSum(n + s, e, t);
    assert e == [] ==> n + s + e == n + s;
  }

  lemma CutSum(a: bytes, e: bytes, t: bytes)
    ensures a + e + t == a + (e + t)
    ensures e != [] ==> (a + e)[..|a + e| - 1] + t == a + (e[..|e| - 1] + t)
  {
    if e != [] {
      assert (a + e)[..|a + e| - 1] == a + e[..|e| - 1];
    }
  }

  lemma {:induction false} NumbersOfDotted(a: bytes, t: bytes)
    ensures Numbers(Dotted(a) + t, None) == a + Numbers(t, None)
  {
    hide Numbers, Digits, Dotted;
    var n := Numbers(t, None);
    if a == [] {
      DottedLength(a);
      assert Dotted(a) + t == t && a + n == n;
    } else {
      DottedNext(a, t);
      NumbersOfNext(a[0], Separator(a), Dotted(a[1..]) + t);
      NumbersOfDotted(a[1..], t);
      assert [a[0]] + (a[1..] + n) == a + n;
    }
  }

  /** The last separator is not needed. */
  lemma {:induction false} NumbersOfCut(a: bytes, t: bytes)
    requires a != [] && t != [] && t[0] == 0
    ensures Dotted(a) != [] && Numbers(Dotted(a)[..|Dotted(a)| - 1] + t, None) == a
  {
    hide Digits, Dotted, Numbers;
    DottedNext(a, t);
    DottedLength(a[1..]);
    if |a| == 1 {
      NumbersOfDigits(a[0], t);
      NoMore(t, a[0]);
    } else {
      NumbersOfCut(a[1..], t);
      var e := Dotted(a[1..]);
      NumbersOfNext(a[0], Separator(a), e[..|e| - 1] + t);
    }
    assert a == [a[0]] + a[1..];
  }

  /** One address as a line: four decimal numbers joined by dots, and a newline. */
  function Line(a: bytes): bytes
    requires |a| == 4
  {
    Digits(a[0]) + [46] + Digits(a[1]) + [46] + Digits(a[2]) + [46] + Digits(a[3]) + [10]
  }

  /** The text is three such lines. */
  lemma ThreeLines(addresses: bytes)
    requires |addresses| == 12
    ensures Dotted(addresses) == Line(addresses[..4]) + Line(addresses[4..8]) + Line(addresses[8..])
  {
    hide Dotted, Line;
    OneLine(addresses);
    OneLine(addresses[4..]);
    OneLine(addresses[8..]);
    DottedLength([]);
    assert addresses[4..][..4] == addresses[4..8] && addresses[4..][4..] == addresses[8..];
    assert addresses[8..][..4] == addresses[8..] && addresses[8..][4..] == [];
    assert Dotted([]) == [];
    assert Line(addresses[8..]) + Dotted([]) == Line(addresses[8..]);
    assert Line(addresses[..4]) + (Line(addresses[4..8]) + Line(addresses[8..]))
        == Line(addresses[..4]) + Line(addresses[4..8]) + Line(addresses[8..]);
  }

  lemma OneLine(a: bytes)
    requires |a| in {4, 8, 12}
    ensures Dotted(a) == Line(a[..4]) + Dotted(a[4..])
  {
    hide Dotted, Digits, Line;
    var b, c, d, e, q := a[1..], a[2..], a[3..], a[4..], a[..4];
    assert b[1..] == c && c[1..] == d && d[1..] == e;
    assert Separator(a) == Separator(b) == Separator(c) == DOT && Separator(d) == NEWLINE;
    hide Separator;
    DottedFirst(a);
    DottedFirst(b);
    DottedFirst(c);
    DottedFirst(d);
    Joined4(Digits(a[0]) + [DOT], Digits(a[1]) + [DOT], Digits(a[2]) + [DOT], Digits(a[3]) + [NEWLINE], Dotted(e));
    LineParts(q);
  }

  lemma LineParts(q: bytes)
    requires |q| == 4
    ensures Line(q) == (Digits(q[0]) + [DOT]) + (Digits(q[1]) + [DOT]) + (Digits(q[2]) + [DOT])
                       + (Digits(q[3]) + [NEWLINE])
  {
    var n0, n1, n2, n3 := Digits(q[0]), Digits(q[1]), Digits(q[2]), Digits(q[3]);
    hide Digits;
    assert n0 + [46] + n1 + [46] + n2 + [46] + n3 + [10] == (n0 + [46]) + (n1 + [46]) + (n2 + [46]) + (n3 + [10]);
  }

  lemma DottedFirst(a: bytes)
    requires a != []
    ensures Dotted(a) == Digits(a[0]) + [Separator(a)] + Dotted(a[1..])
  {
  }

  lemma Joined4(p: bytes, q: bytes, r: bytes, s: bytes, t: bytes)
    ensures p + (q + (r + (s + t))) == p + q + r + s + t
  {
  }

  /** For every address, mask and gateway the text reads back as the twelve bytes. It is cut, by its last
      newline, exactly if every byte has three digits. */
  lemma ReadsBack(addresses: bytes, tail: bytes)
    requires |addresses| == 12 && |tail| == ECHO_LEN - INFO_LEN
    ensures Numbers(InfoText(addresses, tail), None) == addresses
    ensures Dotted(addresses) <= InfoText(addresses, tail) <==> exists i :: 0 <= i < 12 && addresses[i] < 100
  {
    hide Numbers, Dotted, InfoText;
    DottedLength(addresses);
    InfoTextLength(addresses, tail);
    var text, d := Printed(Dotted(addresses), TEXT_ROOM), Dotted(addresses);
    var rest := [0] + tail[|text|..];
    assert Numbers(rest, None) == [] by { NoMore(rest, 0); }
    if |d| < TEXT_ROOM {
      assert InfoText(addresses, tail) == d + rest;
      NumbersOfDotted(addresses, rest);
    } else {
      assert InfoText(addresses, tail) == d[..|d| - 1] + rest;
      NumbersOfCut(addresses, rest);
      LastSeparator(addresses);
      assert InfoText(addresses, tail)[|d| - 1] == 0;
    }
  }

  lemma NoMore(t: bytes, n: int)
    requires t != [] && t[0] == 0
    ensures Numbers(t, None) == [] && Numbers(t, Some(n)) == [n]
  {
  }

  lemma {:induction false} LastSeparator(a: bytes)
    requires a != []
    ensures Dotted(a) != [] && Dotted(a)[|Dotted(a)| - 1] in {DOT, NEWLINE}
  {
    if |a| > 1 {
      LastSeparator(a[1..]);
    } else {
      assert Dotted(a[1..]) == [];
    }
  }

  // ---------------------------------------------------------------------------
  // As the rest of a later echo
  // ---------------------------------------------------------------------------

  /** What follows the 15 stored bytes in a driver whose memory was just cleared. */
  function ZeroTail(): bytes {
    seq(ECHO_LEN - INFO_LEN, _ => 0)
  }

  /** Bytes behind the 15 of an echo that hold no split byte and begin with no length of a packet. */
  predicate Inert(tail: bytes) {
    && |tail| == ECHO_LEN - INFO_LEN && SPLIT_CMD !in tail && SPLIT_DATA !in tail
    && !LengthOk(Data, I16(tail))
  }

  lemma {:induction false} OnlyText(a: bytes)
    ensures forall c <- Dotted(a) :: c < ZERO + 10
    ensures |a| >= 1 ==> |Dotted(a)| >= 2 && 0x8000 > 256 * Dotted(a)[1] > MTU_LEN
  {
    if a != [] {
      OnlyText(a[1..]);
    }
  }

  /** Zeros are inert, and so is any text printed over inert bytes: every echo a driver ever writes has
      an inert rest. */
  lemma StaysInert(addresses: bytes, tail: bytes)
    requires |addresses| == 12 && Inert(tail)
    ensures Inert(InfoText(addresses, tail))
  {
    hide Dotted, InfoText;
    OnlyText(addresses);
    DottedLength(addresses);
    InfoTextLength(addresses, tail);
    var d, text := Dotted(addresses), Printed(Dotted(addresses), TEXT_ROOM);
    assert text[0] == d[0] && text[1] == d[1];
    assert forall c <- text :: c == 0 || c in d;
  }

  lemma ZerosInert()
    ensures Inert(ZeroTail())
  {
  }
}
