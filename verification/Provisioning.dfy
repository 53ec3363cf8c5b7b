/**
 Credentials: the driver builds an ssid frame and a password frame from what is written to its two
 attributes, and the firmware reads them back one after the other at start-up.
 */
module Provisioning {
  import opened Framing
  import opened EspAsWritten
  import opened EspReceiver

  const EINVAL := 22

  /** `strncpy` of `|text|` bytes: up to the first NUL, then zeros. */
  function StrnCpy(text: bytes): (r: bytes)
    ensures |r| == |text|
  {
    var k := Find(text, 0);
    text[..k] + seq(|text| - k, _ => 0)
  }

  /** What an attribute keeps of a written line: its text, with the newline made the terminator. */
  function Stored(line: bytes): (r: bytes)
    requires line != []
    ensures |r| == |line| && r == line[..TextLength(line)] + Zeros(|line| - TextLength(line))
  {
    assert line[..|line| - 1] + [line[|line| - 1]] == line;
    StrnCpy(line)[..|line| - 1] + [0]
  }

  /** The length of a line's text, which its first NUL or its newline ends. */
  function TextLength(line: bytes): (k: nat)
    requires line != []
    ensures k < |line| && 0 !in line[..k] && (k < |line| - 1 ==> line[k] == 0)
  {
    Find(line[..|line| - 1], 0)
  }

  function Zeros(n: nat): bytes {
    seq(n, _ => 0)
  }

  function Credential(p: bytes, trailer: byte): bytes {
    Le16(|p|) + p + [trailer]
  }

  predicate LineOk(line: bytes, limit: nat) {
    line != [] && line[|line| - 1] == NEWLINE && |line| <= limit
  }

  class Attributes {
    const ssid: array<byte>
    const password: array<byte>

    ghost predicate Valid() {
      ssid.Length == 2 + WPA_MAX_SSID_LEN + 1 && password.Length == 2 + WPA_MAX_PASSWD_LEN + 1 && ssid != password
    }

    constructor ()
      ensures Valid() && fresh(ssid) && fresh(password)
    {
      ssid := new byte[2 + WPA_MAX_SSID_LEN + 1];
      password := new byte[2 + WPA_MAX_PASSWD_LEN + 1];
    }

    /** `str_store` for either attribute: the whole command frame, or nothing. */
    method Store(target: array<byte>, line: bytes, limit: nat) returns (r: int)
      requires line != [] && target.Length == 2 + limit + 1 && limit < 0x1_0000
      modifies target
      ensures if LineOk(line, limit) then
                && r == |line| && target[..|line| + 3] == Credential(Stored(line), SPLIT_CMD)
                && target[0] == |line| % 256 && target[1] == |line| / 256 && target[|line| + 2] == SPLIT_CMD
                && target[2..2 + |line|] == line[..TextLength(line)] + Zeros(|line| - TextLength(line))
              else
                r == -22 && target[..] == old(target[..])
    {
      var count := |line|;
      if line[count - 1] != NEWLINE || count > limit {
        return -EINVAL;
      }
      target[0], target[1] := count % 256, count / 256 % 256;
      var copy := StrnCpy(line);
      forall i | 0 <= i < count {
        target[2 + i] := copy[i];
      }
      target[2 + count - 1] := 0;
      target[2 + count] := SPLIT_CMD;
      assert target[..count + 3] == Le16(count) + (copy[..count - 1] + [0]) + [SPLIT_CMD];
      assert target[2..2 + count] == copy[..count - 1] + [0];
      return count;
    }
  }

  lemma CredentialParts(p: bytes, trailer: byte)
    requires 1 <= |p| < 0x8000
    ensures var f := Credential(p, trailer);
            && |f| == |p| + 3 && I16(f) == |p| && f[2..2 + |p|] == p
            && f[|p| + 1] == p[|p| - 1] && f[|p| + 2] == trailer
  {
  }

  /** A whole frame that passes is handed over. */
  lemma CredentialAccepted(g: Grammar, f: bytes, t: bytes)
    requires Accepted(g, f) && |f| == I16(f) + 3
    ensures Next(g, true, f + t) == Got(f[2..2 + I16(f)], t)
  {
    hide Next, BodyOk, LengthOk;
    NextAccepted(g, f, t);
    assert f[I16(f) + 3..] + t == t;
  }

  /** One that does not is never handed over with all its bytes. */
  lemma CredentialRefused(g: Grammar, f: bytes, t: bytes, p: bytes)
    requires |f| == |p| + 3 && LengthOk(g, I16(f)) && |f| == I16(f) + 3 && !BodyOk(g, f)
    ensures Next(g, true, f + t) != Got(p, t)
  {
    hide Next, BodyOk, LengthOk;
    BodyOkAppend(g, f, t);
    NextBad(g, f + t);
    NextShrinks(g, f + t);
  }

  /** A reader hands over payloads of legal length only. */
  lemma LegalOnly(g: Grammar, synced: bool, s: bytes)
    ensures Next(g, synced, s).Got? ==> LengthOk(g, |Next(g, synced, s).payload|)
  {
  }

  /** A credential frame is read back as sent exactly when its length is one the reader allows and
      either its last payload byte is NUL or its split byte is right. */
  lemma CredentialRoundTrip(g: Grammar, p: bytes, trailer: byte, t: bytes)
    requires g.Ssid? || g.Passwd?
    ensures Next(g, true, Credential(p, trailer) + t) == Got(p, t)
            <==> (if g.Ssid? then 1 <= |p| <= 32 else 8 <= |p| <= 64) && (p[|p| - 1] == 0 || trailer == SPLIT_CMD)
  {
    hide Next, Credential, I16;
    var f := Credential(p, trailer);
    if LengthOk(g, |p|) {
      CredentialParts(p, trailer);
      if BodyOk(g, f) {
        CredentialAccepted(g, f, t);
      } else {
        CredentialRefused(g, f, t, p);
      }
    } else {
      LegalOnly(g, true, f + t);
    }
  }

  /** A lost reader can no longer hand over everything it was given. */
  lemma NextShrinks(g: Grammar, s: bytes)
    ensures Next(g, false, s).Got? ==> |Next(g, false, s).payload| + 3 + |Next(g, false, s).rest| < |s|
  {
    var k := Find(s, SplitOf(g));
    if k < |s| {
      var _ := Next(g, true, s[k + 1..]);
    }
  }

  /** A password line of fewer than 8 bytes makes a frame that the reader skips, and nothing in it can be
      taken for another. */
  lemma ShortPassword(p: bytes)
    requires |p| < WPA_MIN_PASSWD_LEN
    ensures Next(Passwd, true, Credential(p, SPLIT_CMD)).Need?
  {
    hide Next;
    var f := Credential(p, SPLIT_CMD);
    assert I16(f) == |p| && |f| == |p| + 3;
    NextBad(Passwd, f);
    NextShrinks(Passwd, f);
  }

  /** What is read for a line: the line without its newline, terminated; a NUL in it ends it earlier, and
      zeros follow. */
  predicate ReadAs(line: bytes, value: bytes) {
    && line != [] && value == line[..TextLength(line)] + Zeros(|line| - TextLength(line))
    && (0 !in line ==> value == line[..|line| - 1] + [0])
  }

  lemma StoredReads(line: bytes)
    requires line != []
    ensures ReadAs(line, Stored(line))
  {
  }

  /** Both frames on the wire at once, read in any pieces: the ssid reader returns exactly what was
      stored, and then the password reader does, bytes read past the first frame included,
      exactly if its line has at least 8 bytes; for a shorter one it spins for ever. `None`
      means the FIFO readings ran out first; readings that never come up empty early suffice. */
  method Provision(ssidLine: bytes, passwdLine: bytes, polls: seq<nat>)
    returns (ssid: Option<bytes>, passwd: Option<bytes>)
    requires LineOk(ssidLine, WPA_MAX_SSID_LEN) && LineOk(passwdLine, WPA_MAX_PASSWD_LEN)
    ensures ssid.Some? ==> ReadAs(ssidLine, ssid.value)
    ensures passwd.Some? ==>
              ssid.Some? && |passwdLine| >= WPA_MIN_PASSWD_LEN && ReadAs(passwdLine, passwd.value)
    ensures |polls| >= |ssidLine| + |passwdLine| + 6 && (forall c <- polls :: c > 0) ==>
              ssid.Some? && (passwd.Some? <==> |passwdLine| >= WPA_MIN_PASSWD_LEN)
  {
    hide Next, Parse, Accounted, Refines, BodyOk, LengthOk, Stored, ReadAs, Spin;
    StoredReads(ssidLine);
    StoredReads(passwdLine);
    var first, second := WriteBoth(ssidLine, passwdLine);
    BothRead(Stored(ssidLine), Stored(passwdLine), first, second);
    assert LengthOk(Passwd, |passwdLine|) <==> |passwdLine| >= WPA_MIN_PASSWD_LEN by { PasswordLength(|passwdLine|); }
    var esp := new Receiver();
    esp.Arrive(Ssid, first + second);
    esp.polls := polls;
    assert esp.Buf() + esp.rx == first + second;
    passwd := None;
    ssid := esp.RecvCommand(Ssid);
    if ssid.None? {
      NotStarved(Ssid, esp.polls, esp.Synced(), esp.Buf(), esp.rx);
      return;
    }
    passwd := esp.RecvCommand(Passwd);
    if passwd.None? && |passwdLine| >= WPA_MIN_PASSWD_LEN {
      NotStarved(Passwd, esp.polls, esp.Synced(), esp.Buf(), esp.rx);
    }
  }

  lemma PasswordLength(n: nat)
    requires n <= WPA_MAX_PASSWD_LEN
    ensures LengthOk(Passwd, n) <==> n >= WPA_MIN_PASSWD_LEN
  {
  }

  /** Both lines written to their attributes: the frames the driver will send. */
  method WriteBoth(ssidLine: bytes, passwdLine: bytes) returns (first: bytes, second: bytes)
    requires LineOk(ssidLine, WPA_MAX_SSID_LEN) && LineOk(passwdLine, WPA_MAX_PASSWD_LEN)
    ensures first == Credential(Stored(ssidLine), SPLIT_CMD) && |first| == |ssidLine| + 3
    ensures second == Credential(Stored(passwdLine), SPLIT_CMD) && |second| == |passwdLine| + 3
    ensures |Stored(ssidLine)| == |ssidLine| && |Stored(passwdLine)| == |passwdLine|
  {
    hide Credential;
    var attributes := new Attributes();
    var m := attributes.Store(attributes.ssid, ssidLine, WPA_MAX_SSID_LEN);
    var n := attributes.Store(attributes.password, passwdLine, WPA_MAX_PASSWD_LEN);
    return attributes.ssid[..m + 3], attributes.password[..n + 3];
  }

  /** What the two readers make of the two frames. */
  lemma BothRead(ssid: bytes, passwd: bytes, first: bytes, second: bytes)
    requires first == Credential(ssid, SPLIT_CMD) && 1 <= |ssid| <= WPA_MAX_SSID_LEN
    requires second == Credential(passwd, SPLIT_CMD) && 1 <= |passwd| <= WPA_MAX_PASSWD_LEN
    ensures Next(Ssid, true, first + second) == Got(ssid, second)
    ensures if LengthOk(Passwd, |passwd|) then Next(Passwd, true, second) == Got(passwd, [])
            else Next(Passwd, true, second).Need?
  {
    hide Next, Credential;
    CredentialRoundTrip(Ssid, ssid, SPLIT_CMD, second);
    CredentialRoundTrip(Passwd, passwd, SPLIT_CMD, []);
    assert second + [] == second;
    if |passwd| < WPA_MIN_PASSWD_LEN {
      ShortPassword(passwd);
    }
  }

  lemma NotStarved(g: Grammar, polls: seq<nat>, synced: bool, buf: bytes, rx: bytes)
    requires polls == [] && Next(g, synced, buf).Need? && Next(g, synced, buf + rx).Got?
    ensures !Plenty(polls, rx)
  {
    hide Next;
    assert rx == [] ==> buf + rx == buf;
  }
}
