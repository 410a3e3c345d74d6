/**
 The signed session cookie v1.<kid>.<expiry>.<id>.<mac>: printing, checking
 and renewal. The MAC is an arbitrary function of key and payload onto
 43-character strings without dots; strings are sequences of bytes.
 */
module SessionCookie {
  import opened Wrappers
  import opened Decimal
  import opened Durations

  const MAX_COOKIE_LEN := 256

  type Mac = (string, string) -> string

  ghost predicate MacShape(mac: Mac) {
    forall secret, payload :: |mac(secret, payload)| == 43 && '.' !in mac(secret, payload)
  }

  /** A block's provisioned keys, signing key id first, and its cookie lifetime in nanoseconds. */
  datatype Ring = Ring(signKid: string, keys: map<string, string>, ttl: int)

  predicate KidChar(c: char) {
    'a' <= c <= 'z' || 'A' <= c <= 'Z' || '0' <= c <= '9' || c == '-' || c == '_'
  }

  /** In ASCII codes. */
  lemma KidCharExactly(c: char)
    ensures KidChar(c) <==>
            97 <= c as int <= 122 || 65 <= c as int <= 90 || 48 <= c as int <= 57 || c as int == 45 || c as int == 95
  {
  }

  predicate ValidKid(kid: string) {
    kid != "" && forall i :: 0 <= i < |kid| ==> KidChar(kid[i])
  }

  /** What provisioning establishes. */
  ghost predicate ValidRing(r: Ring) {
    r.signKid in r.keys && r.ttl > 0 && forall kid :: kid in r.keys ==> ValidKid(kid)
  }

  /** strings.Split(s, "."). */
  function Split(s: string): (parts: seq<string>)
    ensures parts != []
  {
    if s == "" then [""]
    else
      var rest := Split(s[1..]);
      if s[0] == '.' then [""] + rest else [[s[0]] + rest[0]] + rest[1..]
  }

  function Join(parts: seq<string>): string
    requires parts != []
  {
    if |parts| == 1 then parts[0] else parts[0] + "." + Join(parts[1..])
  }

  lemma {:induction false} SplitFirst(a: string, rest: string)
    requires '.' !in a
    ensures Split(a + "." + rest) == [a] + Split(rest)
  {
    var s := a + "." + rest;
    if a == "" {
      assert s == "." + rest && s[1..] == rest;
    } else {
      SplitFirst(a[1..], rest);
      assert s[1..] == a[1..] + "." + rest;
      assert [a[0]] + a[1..] == a;
    }
  }

  lemma {:induction false} SplitPlain(a: string)
    requires '.' !in a
    ensures Split(a) == [a]
  {
    if a != "" {
      SplitPlain(a[1..]);
      assert [a[0]] + a[1..] == a;
    }
  }

  lemma {:induction false} JoinSplit(s: string)
    ensures Join(Split(s)) == s
    ensures forall i :: 0 <= i < |Split(s)| ==> '.' !in Split(s)[i]
  {
    if s != "" {
      JoinSplit(s[1..]);
      var rest := Split(s[1..]);
      if s[0] == '.' {
        assert Split(s)[1..] == rest;
        assert "" + "." + Join(rest) == s;
      } else {
        assert Split(s)[1..] == rest[1..];
        assert [s[0]] + s[1..] == s;
        assert |rest| > 1 ==> [s[0]] + (rest[0] + "." + Join(rest[1..])) == ([s[0]] + rest[0]) + "." + Join(rest[1..]);
      }
    }
  }

  /** The signed part. */
  function Payload(kid: string, expiry: string, id: string): string {
    "v1." + kid + "." + expiry + "." + id
  }

  /** expiry is in Unix seconds. */
  function Sign(mac: Mac, r: Ring, id: string, expiry: int): string
    requires r.signKid in r.keys
  {
    var payload := Payload(r.signKid, FormatInt(expiry), id);
    payload + "." + mac(r.keys[r.signKid], payload)
  }

  /** The seconds from Go's year 1 to the Unix epoch, by which time.Unix shifts in 64 bits. */
  const UNIX_TO_INTERNAL := 62_135_596_800
  const MAX_UNIX := MAX_INT64 - UNIX_TO_INTERNAL

  function Wrap64(x: int): int { (x + MAX_INT64 + 1) % (2 * (MAX_INT64 + 1)) - MAX_INT64 - 1 }

  /** The instant time.Unix(e, 0) stands for, in Unix seconds. */
  function UnixTime(e: int): int { Wrap64(e + UNIX_TO_INTERNAL) - UNIX_TO_INTERNAL }

  /** A 64-bit second count stands for itself exactly up to MAX_UNIX; above, it wraps to before the epoch. */
  lemma UnixTimeExactly(e: int)
    requires -MAX_INT64 - 1 <= e <= MAX_INT64
    ensures UnixTime(e) == e <==> e <= MAX_UNIX
    ensures e > MAX_UNIX ==> UnixTime(e) == e - 2 * (MAX_INT64 + 1) < 0
  {
  }

  datatype Read = Absent | Invalid | Expired | Valid(id: string, kid: string, expiry: int)

  /** now is in Unix nanoseconds. */
  function Verify(mac: Mac, r: Ring, now: int, value: string): Read {
    if |value| > MAX_COOKIE_LEN then Invalid
    else
      var parts := Split(value);
      if |parts| != 5 || parts[0] != "v1" then Invalid
      else
        var kid, exp, id, tag := parts[1], parts[2], parts[3], parts[4];
        if kid !in r.keys || id == "" then Invalid
        else
          ValueOfFiveParts(value);
          var payload := value[..|value| - |tag| - 1];
          if tag != mac(r.keys[kid], payload) then Invalid
          else
            match ParseInt64(exp)
            case None => Invalid
            case Some(e) => if now < UnixTime(e) * SECOND then Valid(id, kid, UnixTime(e)) else Expired
  }

  // ---------- what a value says ----------

  lemma FiveParts(kid: string, exp: string, id: string, tag: string)
    requires '.' !in kid && '.' !in exp && '.' !in id && '.' !in tag
    ensures Split(Payload(kid, exp, id) + "." + tag) == ["v1", kid, exp, id, tag]
  {
    var value := Payload(kid, exp, id) + "." + tag;
    var r3 := id + "." + tag;
    var r2 := exp + "." + r3;
    var r1 := kid + "." + r2;
    assert value == "v1" + "." + r1;
    SplitFirst("v1", r1);
    SplitFirst(kid, r2);
    SplitFirst(exp, r3);
    SplitFirst(id, tag);
    SplitPlain(tag);
  }

  lemma ValueOfFiveParts(value: string)
    requires |Split(value)| == 5 && Split(value)[0] == "v1"
    ensures var p := Split(value);
            value == Payload(p[1], p[2], p[3]) + "." + p[4]
  {
    var p := Split(value);
    JoinSplit(value);
    assert Join(p[4..]) == p[4];
    assert p[1..][1..] == p[2..] && p[2..][1..] == p[3..] && p[3..][1..] == p[4..];
    assert Join(p[3..]) == p[3] + "." + p[4];
    assert Join(p[2..]) == p[2] + "." + (p[3] + "." + p[4]);
    assert Join(p[1..]) == p[1] + "." + (p[2] + "." + (p[3] + "." + p[4]));
    assert Join(p) == "v1" + "." + Join(p[1..]);
  }

  /** A value is accepted as (id, kid, e) exactly when it is a well-formed, short enough, unexpired
      value carrying the MAC that kid's key gives its payload. */
  ghost predicate Authentic(mac: Mac, r: Ring, now: int, value: string, id: string, kid: string, e: int, exp: string) {
    && |value| <= MAX_COOKIE_LEN && id != "" && kid in r.keys
    && '.' !in id && '.' !in kid && '.' !in exp
    && ParseInt64(exp).Some? && UnixTime(ParseInt64(exp).value) == e && now < e * SECOND
    && value == Payload(kid, exp, id) + "." + mac(r.keys[kid], Payload(kid, exp, id))
  }

  lemma AcceptedExactly(mac: Mac, r: Ring, now: int, value: string, id: string, kid: string, e: int)
    requires MacShape(mac)
    ensures Verify(mac, r, now, value) == Valid(id, kid, e) <==>
            exists exp :: Authentic(mac, r, now, value, id, kid, e, exp)
  {
    if Verify(mac, r, now, value) == Valid(id, kid, e) {
      var p := Split(value);
      ValueOfFiveParts(value);
      JoinSplit(value);
      assert value[..|value| - |p[4]| - 1] == Payload(kid, p[2], id);
      assert Authentic(mac, r, now, value, id, kid, e, p[2]);
    }
    forall exp | Authentic(mac, r, now, value, id, kid, e, exp)
      ensures Verify(mac, r, now, value) == Valid(id, kid, e)
    {
      var payload := Payload(kid, exp, id);
      FiveParts(kid, exp, id, mac(r.keys[kid], payload));
      assert value[..|payload|] == payload;
    }
  }

  // ---------- round trip ----------

  lemma KidPlain(kid: string)
    requires ValidKid(kid)
    ensures '.' !in kid
  {
  }

  lemma {:induction false} SplitDotted(a: string, rest: string)
    ensures |Split(a + "." + rest)| == |Split(a)| + |Split(rest)|
  {
    var s := a + "." + rest;
    if a == "" {
      assert s[1..] == rest;
    } else {
      SplitDotted(a[1..], rest);
      assert s[1..] == a[1..] + "." + rest;
    }
  }

  lemma {:induction false} DotsSplit(s: string)
    requires '.' in s
    ensures |Split(s)| >= 2
  {
    if s[0] != '.' {
      DotsSplit(s[1..]);
    }
  }

  lemma DottedIdRefused(mac: Mac, r: Ring, now: int, kid: string, exp: string, id: string, tag: string)
    requires '.' in id && '.' !in kid && '.' !in exp
    ensures Verify(mac, r, now, Payload(kid, exp, id) + "." + tag) == Invalid
  {
    var r2 := exp + "." + (id + "." + tag);
    var r1 := kid + "." + r2;
    assert Payload(kid, exp, id) + "." + tag == "v1" + "." + r1;
    SplitFirst("v1", r1);
    SplitFirst(kid, r2);
    SplitFirst(exp, id + "." + tag);
    SplitDotted(id, tag);
    DotsSplit(id);
  }

  /** Checking what was signed, by any block that shares the signing key: exactly when the id, the key id
      and the expiry come back. */
  lemma RoundTrip(mac: Mac, signer: Ring, checker: Ring, id: string, e: int, now: int)
    requires MacShape(mac) && ValidRing(signer) && -MAX_INT64 - 1 <= e <= MAX_INT64
    requires signer.signKid in checker.keys && checker.keys[signer.signKid] == signer.keys[signer.signKid]
    ensures var value := Sign(mac, signer, id, e);
            Verify(mac, checker, now, value) ==
            if |value| > MAX_COOKIE_LEN || id == "" || '.' in id then Invalid
            else if now < UnixTime(e) * SECOND then Valid(id, signer.signKid, UnixTime(e))
            else Expired
  {
    var kid, exp := signer.signKid, FormatInt(e);
    var payload := Payload(kid, exp, id);
    var tag := mac(signer.keys[kid], payload);
    KidPlain(kid);
    FormatIntPlain(e);
    ParseFormatInt(e);
    if '.' in id {
      DottedIdRefused(mac, checker, now, kid, exp, id, tag);
    } else {
      FiveParts(kid, exp, id, tag);
      var value := payload + "." + tag;
      assert value[..|payload|] == payload;
    }
  }

  /** From the epoch on, a signed expiry comes back, or is refused once it has passed, exactly if time.Unix can
      represent it; a later one always reads as expired. */
  lemma RoundTripRepresentable(mac: Mac, signer: Ring, checker: Ring, id: string, e: int, now: nat)
    requires MacShape(mac) && ValidRing(signer) && -MAX_INT64 - 1 <= e <= MAX_INT64
    requires signer.signKid in checker.keys && checker.keys[signer.signKid] == signer.keys[signer.signKid]
    requires |Sign(mac, signer, id, e)| <= MAX_COOKIE_LEN && id != "" && '.' !in id
    ensures var read := Verify(mac, checker, now, Sign(mac, signer, id, e));
            && (read == Valid(id, signer.signKid, e) <==> now < e * SECOND && e <= MAX_UNIX)
            && (read == Expired <==> now >= e * SECOND || e > MAX_UNIX)
  {
    hide Verify, Sign, UnixTime;
    RoundTrip(mac, signer, checker, id, e, now);
    UnixTimeExactly(e);
  }

  /** With a 22-character id and a 10-digit expiry the length bound admits key ids up to 175 characters. */
  lemma KidLengthExactly(mac: Mac, r: Ring, id: string, e: nat)
    requires MacShape(mac) && r.signKid in r.keys && |id| == 22 && Power10(9) <= e < Power10(10)
    ensures |Sign(mac, r, id, e)| <= MAX_COOKIE_LEN <==> |r.signKid| <= 175
  {
    FormatNatLength(e, 10);
  }
}
