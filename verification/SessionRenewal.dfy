/**
 One browser's session over a run of requests: it presents the newest cookie it
 was given, blocks renew it, keys rotate.
 */
module SessionRenewal {
  import opened Wrappers
  import opened Decimal
  import opened Durations
  import opened SessionCookie
  import Scoring

  datatype Action = Issued | Renewed

  /** A request served by a block with some keys. The block reads its clock twice, to check the cookie and to renew
      it; freshId is what the random source yields, if anything. */
  datatype Request = Request(now: int, later: int, ring: Ring, checking: bool, issuing: bool, freshId: Option<string>)

  function ReadCookie(mac: Mac, q: Request, cookie: string): Read {
    if cookie == "" then Absent else Verify(mac, q.ring, q.now, cookie)
  }

  function MaybeIssue(mac: Mac, q: Request, read: Read): Option<(string, Action)>
    requires q.ring.signKid in q.ring.keys
  {
    var expiry := (q.later + q.ring.ttl) / SECOND;
    if !q.issuing then None
    else if read.Valid? then
      if read.kid == q.ring.signKid && read.expiry * SECOND - q.later > q.ring.ttl / 2 then None
      else Some((Sign(mac, q.ring, read.id, expiry), Renewed))
    else
      match q.freshId
      case None => None
      case Some(id) => Some((Sign(mac, q.ring, id, expiry), Issued))
  }

  /** The browser's cookie after a request. */
  function After(mac: Mac, q: Request, cookie: string): string
    requires q.ring.signKid in q.ring.keys
  {
    match MaybeIssue(mac, q, ReadCookie(mac, q, cookie))
    case None => cookie
    case Some((value, _)) => value
  }

  ghost predicate RingsOk(qs: seq<Request>) {
    forall i :: 0 <= i < |qs| ==> ValidRing(qs[i].ring)
  }

  /** Every request of the run finds its cookie valid. */
  predicate StaysValid(mac: Mac, cookie: string, qs: seq<Request>)
    requires forall i :: 0 <= i < |qs| ==> qs[i].ring.signKid in qs[i].ring.keys
    decreases |qs|
  {
    qs == [] || (ReadCookie(mac, qs[0], cookie).Valid?
                 && StaysValid(mac, After(mac, qs[0], cookie), qs[1..]))
  }

  /** The ids the run's requests are counted under. */
  function IdsSeen(mac: Mac, cookie: string, qs: seq<Request>): (ids: seq<string>)
    requires forall i :: 0 <= i < |qs| ==> qs[i].ring.signKid in qs[i].ring.keys
    requires StaysValid(mac, cookie, qs)
    ensures |ids| == |qs|
    decreases |qs|
  {
    if qs == [] then []
    else [ReadCookie(mac, qs[0], cookie).id] + IdsSeen(mac, After(mac, qs[0], cookie), qs[1..])
  }

  /** What a value accepted as valid says. */
  lemma ReadSays(mac: Mac, q: Request, cookie: string)
    requires ReadCookie(mac, q, cookie).Valid?
    ensures var p, read := Split(cookie), ReadCookie(mac, q, cookie);
            |p| == 5 && read.kid == p[1] && read.id == p[3] && '.' !in p[3]
            && ParseInt64(p[2]).Some? && read.expiry == UnixTime(ParseInt64(p[2]).value) && q.now < read.expiry * SECOND
  {
    hide ParseInt64, Join, UnixTime;
    JoinSplit(cookie);
  }

  /** What a signed value says. */
  lemma SignedSays(mac: Mac, r: Ring, id: string, e: int)
    requires MacShape(mac) && ValidRing(r) && '.' !in id
    ensures var p := Split(Sign(mac, r, id, e));
            |p| == 5 && p[1] == r.signKid && p[2] == FormatInt(e) && p[3] == id
  {
    hide FormatInt, Split;
    KidPlain(r.signKid);
    FormatIntPlain(e);
    FiveParts(r.signKid, FormatInt(e), id, mac(r.keys[r.signKid], Payload(r.signKid, FormatInt(e), id)));
  }

  /** The id a five-part value carries. */
  predicate Carries(value: string, id: string) {
    |Split(value)| == 5 && Split(value)[3] == id && '.' !in id
  }

  lemma AfterCarries(mac: Mac, q: Request, cookie: string, id: string)
    requires MacShape(mac) && ValidRing(q.ring) && Carries(cookie, id)
    requires ReadCookie(mac, q, cookie).Valid?
    ensures ReadCookie(mac, q, cookie).id == id && Carries(After(mac, q, cookie), id)
  {
    hide Split, Sign, Verify, ReadCookie;
    ReadSays(mac, q, cookie);
    SignedSays(mac, q.ring, id, (q.later + q.ring.ttl) / SECOND);
  }

  lemma {:induction false} SameIdFrom(mac: Mac, cookie: string, qs: seq<Request>, id: string)
    requires MacShape(mac) && RingsOk(qs) && StaysValid(mac, cookie, qs) && Carries(cookie, id)
    ensures forall i :: 0 <= i < |qs| ==> IdsSeen(mac, cookie, qs)[i] == id
    decreases |qs|
  {
    if qs != [] {
      hide ReadCookie, After, Carries;
      AfterCarries(mac, qs[0], cookie, id);
      SameIdFrom(mac, After(mac, qs[0], cookie), qs[1..], id);
    }
  }

  /** However keys rotate between the requests, a session that stays valid keeps its id. */
  lemma SessionKeepsId(mac: Mac, cookie: string, qs: seq<Request>)
    requires MacShape(mac) && RingsOk(qs) && StaysValid(mac, cookie, qs)
    ensures forall i, j :: 0 <= i < |qs| && 0 <= j < |qs| ==> IdsSeen(mac, cookie, qs)[i] == IdsSeen(mac, cookie, qs)[j]
  {
    if qs != [] {
      hide ReadCookie, After, IdsSeen, Split;
      ReadSays(mac, qs[0], cookie);
      SameIdFrom(mac, cookie, qs, Split(cookie)[3]);
    }
  }

  // ---------- when a cookie is replaced ----------

  /** value was signed with kid at time `at` for lifetime ttl. */
  ghost predicate SignedAt(value: string, kid: string, at: int, ttl: int) {
    var p := Split(value);
    |p| == 5 && p[1] == kid && ParseInt64(p[2]) == Some((at + ttl) / SECOND) && 0 <= (at + ttl) / SECOND <= MAX_UNIX
  }

  /** The instant of the whole-second expiry of a cookie signed at `at` for ttl. */
  function ExpiryOf(at: int, ttl: int): int { (at + ttl) / SECOND * SECOND }

  /** An issuing block, of whatever key and lifetime, replaces a valid cookie exactly when it was signed with another
      key than the block's, or has at most half the block's own lifetime left. */
  lemma RenewedExactlyWhenDue(mac: Mac, q: Request, cookie: string, kid: string, at: int, ttl: int)
    requires ReadCookie(mac, q, cookie).Valid? && q.issuing && q.ring.signKid in q.ring.keys
    requires SignedAt(cookie, kid, at, ttl)
    ensures MaybeIssue(mac, q, ReadCookie(mac, q, cookie)).Some? <==>
            q.ring.signKid != kid || ExpiryOf(at, ttl) - q.later <= q.ring.ttl / 2
  {
    hide Split, Sign, ParseInt64, UnixTime, ReadCookie;
    ReadSays(mac, q, cookie);
    UnixTimeExactly((at + ttl) / SECOND);
  }

  /** The conditions under which a reader accepts what a signer signs at `at`, until it expires. */
  ghost predicate Readable(mac: Mac, signer: Ring, reader: Ring, id: string, at: int) {
    && ValidRing(signer) && ValidRing(reader) && id != "" && '.' !in id
    && signer.signKid in reader.keys && reader.keys[signer.signKid] == signer.keys[signer.signKid]
    && |Sign(mac, signer, id, (at + signer.ttl) / SECOND)| <= MAX_COOKIE_LEN
    && 0 <= (at + signer.ttl) / SECOND <= MAX_UNIX
  }

  function SignedBy(mac: Mac, signer: Ring, id: string, at: int): string
    requires signer.signKid in signer.keys
  {
    Sign(mac, signer, id, (at + signer.ttl) / SECOND)
  }

  lemma ReadableRead(mac: Mac, signer: Ring, q: Request, id: string, at: int)
    requires MacShape(mac) && Readable(mac, signer, q.ring, id, at)
    ensures var cookie := SignedBy(mac, signer, id, at);
            && SignedAt(cookie, signer.signKid, at, signer.ttl)
            && (ReadCookie(mac, q, cookie).Valid? <==> q.now < ExpiryOf(at, signer.ttl))
  {
    hide Split, Verify, Sign, ParseInt64, FormatInt, UnixTime, MacShape;
    var e := (at + signer.ttl) / SECOND;
    SignedSays(mac, signer, id, e);
    ParseFormatInt(e);
    UnixTimeExactly(e);
    RoundTrip(mac, signer, q.ring, id, e, q.now);
    assert Split("") == [""] by {
      SplitPlain("");
    }
  }

  /** An issuing block with these keys, from the signing on. */
  ghost predicate Visits(q: Request, reader: Ring, at: int) {
    q.ring == reader && q.issuing && at <= q.now <= q.later
  }

  /** No visit to the reader that finds the signer's cookie valid replaces it within half the signer's lifetime. */
  ghost predicate KeptForHalf(mac: Mac, signer: Ring, reader: Ring, id: string, at: int)
    requires signer.signKid in signer.keys && reader.signKid in reader.keys
  {
    forall q: Request ::
      Visits(q, reader, at) && ReadCookie(mac, q, SignedBy(mac, signer, id, at)).Valid?
      && MaybeIssue(mac, q, ReadCookie(mac, q, SignedBy(mac, signer, id, at))).Some?
      ==> q.later - at >= signer.ttl / 2
  }

  /** Whether signer and reader keep the promise of no second cookie within half a lifetime. */
  predicate PromiseKept(signer: Ring, reader: Ring, at: int) {
    || ExpiryOf(at, signer.ttl) <= at || signer.ttl < 2  // expired when signed, or no half lifetime
    || (reader.signKid == signer.signKid && ExpiryOf(at, signer.ttl) - at >= signer.ttl / 2 + reader.ttl / 2)
  }

  lemma KeptIfPromised(mac: Mac, signer: Ring, reader: Ring, id: string, at: int)
    requires MacShape(mac) && Readable(mac, signer, reader, id, at) && PromiseKept(signer, reader, at)
    ensures KeptForHalf(mac, signer, reader, id, at)
  {
    hide MacShape, Readable, SignedBy, ReadCookie, MaybeIssue, SignedAt;
    assert ValidRing(signer) && ValidRing(reader) by { ReadableRings(mac, signer, reader, id, at); }
    var cookie := SignedBy(mac, signer, id, at);
    forall q: Request | Visits(q, reader, at) && ReadCookie(mac, q, cookie).Valid?
                        && MaybeIssue(mac, q, ReadCookie(mac, q, cookie)).Some?
      ensures q.later - at >= signer.ttl / 2
    {
      ReadableRead(mac, signer, q, id, at);
      RenewedExactlyWhenDue(mac, q, cookie, signer.signKid, at, signer.ttl);
    }
  }

  lemma ReadableRings(mac: Mac, signer: Ring, reader: Ring, id: string, at: int)
    requires Readable(mac, signer, reader, id, at)
    ensures ValidRing(signer) && ValidRing(reader)
  {
  }

  lemma EarlyVisit(mac: Mac, signer: Ring, reader: Ring, id: string, at: int) returns (q: Request)
    requires MacShape(mac) && Readable(mac, signer, reader, id, at) && !PromiseKept(signer, reader, at)
    ensures Visits(q, reader, at) && q.later - at < signer.ttl / 2
    ensures ReadCookie(mac, q, SignedBy(mac, signer, id, at)).Valid?
    ensures MaybeIssue(mac, q, ReadCookie(mac, q, SignedBy(mac, signer, id, at))).Some?
  {
    hide MacShape, Readable, SignedBy, ReadCookie, MaybeIssue, SignedAt;
    ReadableRings(mac, signer, reader, id, at);
    var due := ExpiryOf(at, signer.ttl) - reader.ttl / 2;
    var later := if reader.signKid != signer.signKid || due <= at then at else due;
    q := Request(at, later, reader, true, true, None);
    ReadableRead(mac, signer, q, id, at);
    RenewedExactlyWhenDue(mac, q, SignedBy(mac, signer, id, at), signer.signKid, at, signer.ttl);
  }

  /** No second cookie within half a lifetime, as documented, holds exactly where the block visited signs with the
      same key and the whole-second expiry leaves room for both half lifetimes: with equal lifetimes, where the
      expiry loses nothing in whole seconds (or the odd nanosecond that halving drops). */
  lemma HalfLifetimeKeptExactly(mac: Mac, signer: Ring, reader: Ring, id: string, at: int)
    requires MacShape(mac) && Readable(mac, signer, reader, id, at)
    ensures KeptForHalf(mac, signer, reader, id, at) <==> PromiseKept(signer, reader, at)
    ensures signer.ttl >= SECOND ==>
              (KeptForHalf(mac, signer, reader, id, at) <==>
               reader.signKid == signer.signKid && ExpiryOf(at, signer.ttl) - at >= signer.ttl / 2 + reader.ttl / 2)
    ensures signer.ttl >= SECOND && reader.signKid == signer.signKid && reader.ttl == signer.ttl ==>
              (KeptForHalf(mac, signer, reader, id, at) <==> (at + signer.ttl) % SECOND <= signer.ttl % 2)
  {
    hide MacShape, Readable, SignedBy, ReadCookie, MaybeIssue;
    ReadableRings(mac, signer, reader, id, at);
    if PromiseKept(signer, reader, at) {
      KeptIfPromised(mac, signer, reader, id, at);
    } else {
      var q := EarlyVisit(mac, signer, reader, id, at);
    }
    if signer.ttl >= SECOND {
      PromiseForms(signer, reader, at);
    }
  }

  lemma PromiseForms(signer: Ring, reader: Ring, at: int)
    requires signer.ttl >= SECOND
    ensures PromiseKept(signer, reader, at) <==>
            reader.signKid == signer.signKid && ExpiryOf(at, signer.ttl) - at >= signer.ttl / 2 + reader.ttl / 2
    ensures reader.signKid == signer.signKid && reader.ttl == signer.ttl ==>
              (PromiseKept(signer, reader, at) <==> (at + signer.ttl) % SECOND <= signer.ttl % 2)
  {
    var x := at + signer.ttl;
    assert ExpiryOf(at, signer.ttl) == x - x % SECOND;
  }

  /** A cookie signed for ten minutes is replaced a second later by a block of half an hour, same key and all. */
  lemma LongerLifetimeResendsAtOnce(mac: Mac, keys: map<string, string>, id: string) returns (q: Request)
    requires MacShape(mac) && "k" in keys && (forall kid :: kid in keys ==> ValidKid(kid)) && |id| == 22 && '.' !in id
    ensures var at := 1_700_000_000 * SECOND;
            var cookie := SignedBy(mac, Ring("k", keys, 600 * SECOND), id, at);
            && q.ring == Ring("k", keys, 1800 * SECOND) && q.now == q.later == at + SECOND
            && ReadCookie(mac, q, cookie).Valid? && MaybeIssue(mac, q, ReadCookie(mac, q, cookie)).Some?
  {
    hide ReadCookie, MaybeIssue, MacShape, SignedAt;
    var at := 1_700_000_000 * SECOND;
    var signer, reader := Ring("k", keys, 600 * SECOND), Ring("k", keys, 1800 * SECOND);
    q := Request(at + SECOND, at + SECOND, reader, true, true, None);
    var e := (at + signer.ttl) / SECOND;
    assert e == 1_700_000_600;
    assert Power10(3) == 1000 && Power10(6) == 1000 * Power10(3) && Power10(9) == 1000 * Power10(6);
    KidLengthExactly(mac, signer, id, e);
    ReadableRead(mac, signer, q, id, at);
    RenewedExactlyWhenDue(mac, q, SignedBy(mac, signer, id, at), "k", at, signer.ttl);
  }

  // ---------- how a session starts ----------

  /** A cookie that is not valid is replaced by one of a new session, where the block issues and has a fresh id. */
  lemma NewSession(mac: Mac, q: Request, cookie: string, id: string)
    requires q.ring.signKid in q.ring.keys
    requires q.issuing && !ReadCookie(mac, q, cookie).Valid? && q.freshId == Some(id)
    ensures MaybeIssue(mac, q, ReadCookie(mac, q, cookie)) == Some((SignedBy(mac, q.ring, id, q.later), Issued))
    ensures After(mac, q, cookie) == SignedBy(mac, q.ring, id, q.later)
  {
    hide ReadCookie;
  }

  /** Until its whole-second expiry every block sharing the key reads the new cookie as that session's. */
  lemma NewSessionRead(mac: Mac, q: Request, cookie: string, id: string, next: Request)
    requires MacShape(mac) && Readable(mac, q.ring, next.ring, id, q.later)
    requires q.issuing && !ReadCookie(mac, q, cookie).Valid? && q.freshId == Some(id)
    ensures var e := (q.later + q.ring.ttl) / SECOND;
            ReadCookie(mac, next, After(mac, q, cookie)) ==
            if next.now < e * SECOND then Valid(id, q.ring.signKid, e) else Expired
  {
    hide ReadCookie, After, MaybeIssue, MacShape, SignedBy;
    ReadableRings(mac, q.ring, next.ring, id, q.later);
    NewSession(mac, q, cookie, id);
    SignedRead(mac, q.ring, next, id, q.later);
  }

  lemma SignedRead(mac: Mac, signer: Ring, q: Request, id: string, at: int)
    requires MacShape(mac) && Readable(mac, signer, q.ring, id, at)
    ensures var e := (at + signer.ttl) / SECOND;
            ReadCookie(mac, q, SignedBy(mac, signer, id, at)) ==
            if q.now < e * SECOND then Valid(id, signer.signKid, e) else Expired
  {
    hide Split, Verify, ParseInt64, FormatInt, UnixTime, MacShape;
    var e := (at + signer.ttl) / SECOND;
    UnixTimeExactly(e);
    RoundTrip(mac, signer, q.ring, id, e, q.now);
  }

  /** A renewed cookie is the same session's, read likewise. */
  lemma RenewedRead(mac: Mac, q: Request, cookie: string, next: Request)
    requires MacShape(mac) && ReadCookie(mac, q, cookie).Valid? && ValidRing(q.ring)
    requires MaybeIssue(mac, q, ReadCookie(mac, q, cookie)).Some?
    requires Readable(mac, q.ring, next.ring, ReadCookie(mac, q, cookie).id, q.later)
    ensures MaybeIssue(mac, q, ReadCookie(mac, q, cookie)).value.1 == Renewed
    ensures var e := (q.later + q.ring.ttl) / SECOND;
            ReadCookie(mac, next, After(mac, q, cookie)) ==
            if next.now < e * SECOND then Valid(ReadCookie(mac, q, cookie).id, q.ring.signKid, e) else Expired
  {
    hide ReadCookie, MacShape;
    SignedRead(mac, q.ring, next, ReadCookie(mac, q, cookie).id, q.later);
  }

  /** Nothing is sent exactly at a block that does not issue, for want of a fresh id, or for a valid cookie of the
      block's signing key with more than half its lifetime left; then the browser keeps what it had. */
  lemma NothingSentExactly(mac: Mac, q: Request, cookie: string)
    requires q.ring.signKid in q.ring.keys
    ensures var read := ReadCookie(mac, q, cookie);
            MaybeIssue(mac, q, read) == None <==>
            || !q.issuing
            || (!read.Valid? && q.freshId == None)
            || (read.Valid? && read.kid == q.ring.signKid && read.expiry * SECOND - q.later > q.ring.ttl / 2)
    ensures MaybeIssue(mac, q, ReadCookie(mac, q, cookie)) == None ==> After(mac, q, cookie) == cookie
  {
    hide ReadCookie, Sign;
  }

  /** What a request without a cookie, or with a bad one, is read as. */
  lemma ReadAbsentExactly(mac: Mac, q: Request, cookie: string)
    ensures ReadCookie(mac, q, cookie) == Absent <==> cookie == ""
  {
    hide Split;
  }

  // ---------- how often a cookie is sent over a run ----------

  /** A cookie sent at some time for some lifetime. */
  datatype Issue = Issue(at: int, ttl: int)

  /** The cookies the run's requests are sent. */
  function Issues(mac: Mac, cookie: string, qs: seq<Request>): seq<Issue>
    requires forall i :: 0 <= i < |qs| ==> qs[i].ring.signKid in qs[i].ring.keys
    decreases |qs|
  {
    if qs == [] then []
    else
      (if MaybeIssue(mac, qs[0], ReadCookie(mac, qs[0], cookie)).Some? then [Issue(qs[0].later, qs[0].ring.ttl)] else [])
      + Issues(mac, After(mac, qs[0], cookie), qs[1..])
  }

  /** The whole run is served with one signing key, for whatever lifetimes. */
  ghost predicate OneSigner(qs: seq<Request>, kid: string) {
    forall i :: 0 <= i < |qs| ==> qs[i].ring.signKid == kid
  }

  /** Clocks past the epoch whose time plus a lifetime is still a time. */
  ghost predicate InRange(qs: seq<Request>) {
    forall i :: 0 <= i < |qs| ==> 0 <= qs[i].later && (qs[i].later + qs[i].ring.ttl) / SECOND <= MAX_UNIX
  }

  /** What one request of a valid session does: it leaves the cookie, or signs one now. */
  lemma SessionStep(mac: Mac, q: Request, cookie: string)
    requires MacShape(mac) && ValidRing(q.ring) && ReadCookie(mac, q, cookie).Valid?
    requires 0 <= q.later && (q.later + q.ring.ttl) / SECOND <= MAX_UNIX
    ensures var read := ReadCookie(mac, q, cookie);
            if MaybeIssue(mac, q, read).Some? then
              q.issuing && SignedAt(After(mac, q, cookie), q.ring.signKid, q.later, q.ring.ttl)
            else After(mac, q, cookie) == cookie
  {
    hide Split, Sign, Verify, ReadCookie, ParseInt64, FormatInt;
    var e := (q.later + q.ring.ttl) / SECOND;
    ReadSays(mac, q, cookie);
    ParseFormatInt(e);
    SignedSays(mac, q.ring, ReadCookie(mac, q, cookie).id, e);
  }

  /** From one cookie to the next: the first one's lifetime less half the second one's, less the second that
      whole-second expiries lose. */
  ghost predicate Spaced(first: Issue, second: Issue) {
    second.at - first.at > first.ttl - second.ttl / 2 - SECOND
  }

  ghost predicate AllSpaced(sent: seq<Issue>) {
    forall i :: 0 < i < |sent| ==> Spaced(sent[i - 1], sent[i])
  }

  lemma IssuesNext(mac: Mac, cookie: string, qs: seq<Request>)
    requires qs != [] && forall i :: 0 <= i < |qs| ==> qs[i].ring.signKid in qs[i].ring.keys
    ensures var rest := Issues(mac, After(mac, qs[0], cookie), qs[1..]);
            Issues(mac, cookie, qs) ==
            if MaybeIssue(mac, qs[0], ReadCookie(mac, qs[0], cookie)).Some? then [Issue(qs[0].later, qs[0].ring.ttl)] + rest
            else rest
  {
    hide ReadCookie, After, MaybeIssue;
  }

  lemma SpacedCons(first: Issue, rest: seq<Issue>)
    requires AllSpaced(rest) && (rest != [] ==> Spaced(first, rest[0]))
    ensures AllSpaced([first] + rest)
  {
  }

  lemma {:induction false} SpacedAfterIssue(mac: Mac, cookie: string, qs: seq<Request>, kid: string, last: Issue)
    requires MacShape(mac) && RingsOk(qs) && StaysValid(mac, cookie, qs)
    requires OneSigner(qs, kid) && InRange(qs) && SignedAt(cookie, kid, last.at, last.ttl)
    ensures AllSpaced([last] + Issues(mac, cookie, qs))
    decreases |qs|
  {
    if qs != [] {
      hide ReadCookie, After, MaybeIssue, SignedAt, Issues, AllSpaced;
      var q := qs[0];
      var rest := qs[1..];
      SessionStep(mac, q, cookie);
      IssuesNext(mac, cookie, qs);
      if MaybeIssue(mac, q, ReadCookie(mac, q, cookie)).Some? {
        var next := Issue(q.later, q.ring.ttl);
        RenewedExactlyWhenDue(mac, q, cookie, kid, last.at, last.ttl);
        SpacedAfterIssue(mac, After(mac, q, cookie), rest, kid, next);
        SpacedCons(last, [next] + Issues(mac, After(mac, q, cookie), rest));
      } else {
        SpacedAfterIssue(mac, cookie, rest, kid, last);
      }
    }
  }

  /** With an unchanged signing key and any lifetimes, successive cookies of a valid session are spaced. */
  lemma {:induction false} RenewalsSpaced(mac: Mac, cookie: string, qs: seq<Request>, kid: string)
    requires MacShape(mac) && RingsOk(qs) && StaysValid(mac, cookie, qs)
    requires OneSigner(qs, kid) && InRange(qs)
    ensures AllSpaced(Issues(mac, cookie, qs))
    decreases |qs|
  {
    if qs != [] {
      hide ReadCookie, After, MaybeIssue, SignedAt, Issues, AllSpaced;
      var q := qs[0];
      SessionStep(mac, q, cookie);
      IssuesNext(mac, cookie, qs);
      if MaybeIssue(mac, q, ReadCookie(mac, q, cookie)).Some? {
        SpacedAfterIssue(mac, After(mac, q, cookie), qs[1..], kid, Issue(q.later, q.ring.ttl));
      } else {
        RenewalsSpaced(mac, cookie, qs[1..], kid);
      }
    }
  }

  lemma {:induction false} IssuesHaveLifetime(mac: Mac, cookie: string, qs: seq<Request>, ttl: int)
    requires RingsOk(qs) && forall i :: 0 <= i < |qs| ==> qs[i].ring.ttl == ttl
    ensures forall i :: 0 <= i < |Issues(mac, cookie, qs)| ==> Issues(mac, cookie, qs)[i].ttl == ttl
    decreases |qs|
  {
    if qs != [] {
      IssuesHaveLifetime(mac, After(mac, qs[0], cookie), qs[1..], ttl);
    }
  }

  /** With an unchanged signing key and lifetime, two successive cookies of a valid session are more than half a
      lifetime minus one second apart. */
  lemma RenewalsHalfLifetimeApart(mac: Mac, cookie: string, qs: seq<Request>, kid: string, ttl: int)
    requires MacShape(mac) && RingsOk(qs) && StaysValid(mac, cookie, qs)
    requires OneSigner(qs, kid) && InRange(qs) && forall i :: 0 <= i < |qs| ==> qs[i].ring.ttl == ttl
    ensures var sent := Issues(mac, cookie, qs);
            forall i :: 0 < i < |sent| ==> sent[i].at - sent[i - 1].at > ttl / 2 - SECOND
  {
    hide Issues;
    RenewalsSpaced(mac, cookie, qs, kid);
    IssuesHaveLifetime(mac, cookie, qs, ttl);
    var sent := Issues(mac, cookie, qs);
    forall i | 0 < i < |sent| ensures sent[i].at - sent[i - 1].at > ttl / 2 - SECOND {
      assert Spaced(sent[i - 1], sent[i]);
    }
  }

  // ---------- an active session never lapses ----------

  /** Expiries of ten digits, as from 2001 to 2286, and key ids within the length KidLengthExactly allows. */
  ghost predicate Typical(r: Ring, now: int) {
    Power10(9) <= (now + r.ttl) / SECOND < Power10(10) && |r.signKid| <= 175
  }

  /** After an issuing block with keys r was visited at `at`: the browser holds r's own signature, good for over half
      a lifetime. */
  ghost predicate Fresh(mac: Mac, cookie: string, id: string, r: Ring, at: int, e: int)
    requires r.signKid in r.keys
  {
    cookie == Sign(mac, r, id, e) && |cookie| <= MAX_COOKIE_LEN && 0 <= e <= MAX_UNIX && e * SECOND - at > r.ttl / 2
  }

  /** A request within half a lifetime of the last visit to an issuing block, at a block that has that one's key. */
  ghost predicate Follows(r: Ring, at: int, q: Request) {
    && q.now <= at + r.ttl / 2
    && r.signKid in r.keys && r.signKid in q.ring.keys && q.ring.keys[r.signKid] == r.keys[r.signKid]
    && (q.issuing ==> q.ring.ttl >= 2 * SECOND && Typical(q.ring, q.later))
  }

  /** Visits to blocks that only check lie between visits to issuing ones, and do not count as such. */
  ghost predicate Active(r: Ring, at: int, qs: seq<Request>)
    decreases |qs|
  {
    qs == []
    || (Follows(r, at, qs[0])
        && if qs[0].issuing then Active(qs[0].ring, qs[0].later, qs[1..]) else Active(r, at, qs[1..]))
  }

  lemma FreshRead(mac: Mac, cookie: string, id: string, r: Ring, at: int, e: int, q: Request)
    requires MacShape(mac) && ValidRing(r) && ValidRing(q.ring) && id != "" && '.' !in id
    requires Fresh(mac, cookie, id, r, at, e) && Follows(r, at, q)
    ensures ReadCookie(mac, q, cookie) == Valid(id, r.signKid, e)
  {
    hide FormatInt, Split, Verify, MacShape, UnixTime;
    RoundTrip(mac, r, q.ring, id, e, q.now);
    UnixTimeExactly(e);
  }

  lemma FreshStep(mac: Mac, cookie: string, id: string, r: Ring, at: int, e: int, q: Request) returns (e': int)
    requires MacShape(mac) && ValidRing(r) && ValidRing(q.ring) && |id| == 22 && '.' !in id
    requires Fresh(mac, cookie, id, r, at, e) && Follows(r, at, q) && q.issuing
    ensures Fresh(mac, After(mac, q, cookie), id, q.ring, q.later, e')
  {
    hide FormatInt, Split, Verify, MacShape, ReadCookie;
    FreshRead(mac, cookie, id, r, at, e, q);
    if MaybeIssue(mac, q, ReadCookie(mac, q, cookie)) == None {
      e' := e;
    } else {
      e' := (q.later + q.ring.ttl) / SECOND;
      KidLengthExactly(mac, q.ring, id, e');
    }
  }

  /** A browser whose requests all come within half a lifetime of its last visit to an issuing block keeps a valid
      session for ever, whatever checking blocks it visits in between, through key rotations that leave the key of
      that last visit in place. */
  lemma {:induction false} ActiveSessionStaysValid(
    mac: Mac, cookie: string, id: string, r: Ring, at: int, e: int, qs: seq<Request>)
    requires MacShape(mac) && ValidRing(r) && RingsOk(qs) && |id| == 22 && '.' !in id
    requires Fresh(mac, cookie, id, r, at, e) && Active(r, at, qs)
    ensures StaysValid(mac, cookie, qs)
    decreases |qs|
  {
    if qs != [] {
      hide ReadCookie, Fresh, Follows;
      var q := qs[0];
      FreshRead(mac, cookie, id, r, at, e, q);
      if q.issuing {
        hide After;
        var e' := FreshStep(mac, cookie, id, r, at, e, q);
        ActiveSessionStaysValid(mac, After(mac, q, cookie), id, q.ring, q.later, e', qs[1..]);
      } else {
        assert After(mac, q, cookie) == cookie;
        ActiveSessionStaysValid(mac, cookie, id, r, at, e, qs[1..]);
      }
    }
  }

  // ---------- the session as a penalty key ----------

  predicate ClaimedClass(userClass: string): (r: bool)
    ensures r <==> userClass in {"internal", "researcher", "service_account"}
  {
    userClass == "researcher" || userClass == "service_account" || userClass == "internal"
  }

  /** A checked cookie folded into a request's classification: a claimed class stays; a valid cookie makes a verified
      human of the rest, known by the session; a bad one makes an unknown user; nothing else changes. */
  function ApplySession(c: Scoring.Classification, read: Read): (r: Scoring.Classification)
    ensures ClaimedClass(c.userClass) || read == Absent ==> r == c
    ensures !ClaimedClass(c.userClass) && read.Valid? ==> r.userClass == "human_verified" && r.userID == "session:" + read.id
    ensures !ClaimedClass(c.userClass) && (read == Invalid || read == Expired) ==> r.userClass == "unknown" && r.userID == c.userID
    ensures r.(userClass := c.userClass, userID := c.userID) == c
  {
    if ClaimedClass(c.userClass) then c
    else
      match read
      case Valid(id, _, _) => c.(userClass := "human_verified", userID := "session:" + id)
      case Invalid => c.(userClass := "unknown")
      case Expired => c.(userClass := "unknown")
      case Absent => c
  }

  /** The classification a block counts the request under: only checking blocks look at the cookie. */
  function Counted(mac: Mac, q: Request, cookie: string, c: Scoring.Classification): Scoring.Classification {
    if q.checking then ApplySession(c, ReadCookie(mac, q, cookie)) else c
  }

  /** The key of the user dimension each of the run's requests is counted under. */
  function UserKeys(mac: Mac, cookie: string, qs: seq<Request>, cs: seq<Scoring.Classification>): (ks: seq<Option<string>>)
    requires |cs| == |qs| && forall i :: 0 <= i < |qs| ==> qs[i].ring.signKid in qs[i].ring.keys
    ensures |ks| == |qs|
    decreases |qs|
  {
    if qs == [] then []
    else [Scoring.DimensionKey("user", Counted(mac, qs[0], cookie, cs[0]))]
         + UserKeys(mac, After(mac, qs[0], cookie), qs[1..], cs[1..])
  }

  lemma SessionKey(mac: Mac, q: Request, cookie: string, c: Scoring.Classification, id: string)
    requires ReadCookie(mac, q, cookie).Valid? && ReadCookie(mac, q, cookie).id == id
    ensures Scoring.DimensionKey("user", Counted(mac, q, cookie, c)) ==
            if q.checking && !ClaimedClass(c.userClass) then Some("session:" + id) else Scoring.NonEmpty(c.userID)
  {
    hide ReadCookie;
  }

  lemma {:induction false} UserKeysOfSession(mac: Mac, cookie: string, qs: seq<Request>, cs: seq<Scoring.Classification>, id: string)
    requires MacShape(mac) && RingsOk(qs) && StaysValid(mac, cookie, qs) && Carries(cookie, id) && |cs| == |qs|
    ensures forall i :: 0 <= i < |qs| ==>
              UserKeys(mac, cookie, qs, cs)[i] ==
              if qs[i].checking && !ClaimedClass(cs[i].userClass) then Some("session:" + id)
              else Scoring.NonEmpty(cs[i].userID)
    decreases |qs|
  {
    if qs != [] {
      hide ReadCookie, After, Carries, Counted, Scoring.DimensionKey, ClaimedClass;
      AfterCarries(mac, qs[0], cookie, id);
      SessionKey(mac, qs[0], cookie, cs[0], id);
      UserKeysOfSession(mac, After(mac, qs[0], cookie), qs[1..], cs[1..], id);
    }
  }

  /** All requests of a session that stays valid are counted under its one key of the user dimension wherever a
      block checks cookies, unless they carry a claimed class, which keeps its own. */
  lemma SessionKeepsPenaltyKey(mac: Mac, cookie: string, qs: seq<Request>, cs: seq<Scoring.Classification>)
    requires MacShape(mac) && RingsOk(qs) && StaysValid(mac, cookie, qs) && |cs| == |qs|
    ensures forall i :: 0 <= i < |qs| ==>
              UserKeys(mac, cookie, qs, cs)[i] ==
              if qs[i].checking && !ClaimedClass(cs[i].userClass) then Some("session:" + IdsSeen(mac, cookie, qs)[0])
              else Scoring.NonEmpty(cs[i].userID)
  {
    if qs != [] {
      hide ReadCookie, After, Split, UserKeys, ClaimedClass;
      ReadSays(mac, qs[0], cookie);
      SameIdFrom(mac, cookie, qs, Split(cookie)[3]);
      UserKeysOfSession(mac, cookie, qs, cs, Split(cookie)[3]);
    }
  }
}
