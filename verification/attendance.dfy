/** The attendance route: find the first registered user whose stored
    descriptor the probe matches, then record a check-in or a check-out for
    that user, refusing a check-out within five minutes of the check-in.
    The route is a pure function from the request and the two stores to the
    response and the new attendance store. */
module Attendance {
  import opened Results
  import opened FaceRecognition
  import opened Store

  /** The shortest stay, in minutes, before a check-in may be followed by a
      check-out. */
  const MINIMUM_CHECKOUT_MINUTES: real := 5.0

  const MILLISECONDS_PER_MINUTE: int := 1000 * 60

  /** How a similarity score is turned into a match. `AsWritten` is the
      route's test `score < FACE_MATCH_THRESHOLD`; `Intended` is the rule
      the threshold's comment describes, similarity of at least 0.80. */
  datatype MatchRule = AsWritten | Intended

  predicate Accepts(rule: MatchRule, similarity: real) {
    match rule
    case AsWritten => similarity < FACE_MATCH_THRESHOLD
    case Intended => similarity >= 1.0 - FACE_MATCH_THRESHOLD
  }

  /** The user's stored descriptor is comparable with the probe and matches. */
  predicate Qualifies(rule: MatchRule, probe: Descriptor, u: User, sqrt: real -> real) {
    var c := CompareFaceFeatures(probe, u.faceData, sqrt);
    c.Success? && Accepts(rule, c.value)
  }

  /** The user's stored descriptor is comparable with the probe and does not
      match, so the scan moves on to the next user. */
  predicate ComparedAndRejected(rule: MatchRule, probe: Descriptor, u: User, sqrt: real -> real) {
    |u.faceData| == |probe| && !Qualifies(rule, probe, u, sqrt)
  }

  /** The outcome of the scan over the users: the first match, no match, or
      the position of a stored descriptor of the wrong length, on which
      `compareFaceFeatures` throws and the scan stops. */
  datatype Scan = Matched(index: nat) | NoMatch | Aborted(index: nat)

  function ScanFrom(rule: MatchRule, probe: Descriptor, users: seq<User>, sqrt: real -> real, i: nat): (s: Scan)
    requires i <= |users|
    ensures s.Matched? ==> i <= s.index < |users| && Qualifies(rule, probe, users[s.index], sqrt)
    ensures s.Aborted? ==> i <= s.index < |users| && |users[s.index].faceData| != |probe|
    ensures !s.NoMatch? ==> forall j :: i <= j < s.index ==> ComparedAndRejected(rule, probe, users[j], sqrt)
    ensures s.NoMatch? ==> forall j :: i <= j < |users| ==> ComparedAndRejected(rule, probe, users[j], sqrt)
    decreases |users| - i
  {
    if i == |users| then NoMatch
    else
      match CompareFaceFeatures(probe, users[i].faceData, sqrt)
      case Failure(_) => Aborted(i)
      case Success(similarity) =>
        if Accepts(rule, similarity) then Matched(i)
        else ScanFrom(rule, probe, users, sqrt, i + 1)
  }

  /** The `for (const user of users)` loop of the route: it reports the
      first matching user, the first user whose descriptor has the wrong
      length when no match comes before it, or no match when every user is
      compared and rejected. */
  function FindFirstMatch(rule: MatchRule, probe: Descriptor, users: seq<User>, sqrt: real -> real): (s: Scan)
    ensures s.Matched? ==> IsFirstMatch(rule, probe, users, sqrt, s.index)
    ensures s.Aborted? ==> s.index < |users| && |users[s.index].faceData| != |probe|
    ensures s.Aborted? ==> forall j :: 0 <= j < s.index ==> ComparedAndRejected(rule, probe, users[j], sqrt)
    ensures s.NoMatch? ==> forall j :: 0 <= j < |users| ==> ComparedAndRejected(rule, probe, users[j], sqrt)
  {
    ScanFrom(rule, probe, users, sqrt, 0)
  }

  /** What the route decides from the user's latest record. */
  datatype Decision = Record(kind: EventKind) | Wait(minutesLeft: real)

  /** Minutes from `since` to `now`, as a fraction (the division is not
      rounded in the source). */
  function ElapsedMinutes(since: int, now: int): (m: real)
    ensures m * MILLISECONDS_PER_MINUTE as real == (now - since) as real
    ensures m >= 0.0 <==> since <= now
    ensures m >= MINIMUM_CHECKOUT_MINUTES <==> now - since >= 5 * MILLISECONDS_PER_MINUTE
  {
    (now - since) as real / MILLISECONDS_PER_MINUTE as real
  }

  /** Check in when there is no record or the last was a check-out; check
      out after a check-in once five minutes have passed, otherwise report
      how many minutes remain. */
  function Decide(latest: Option<Event>, now: int): (d: Decision)
    ensures d.Record? && latest.Some? ==> d.kind != latest.value.kind
    ensures d.Record? && latest.None? ==> d.kind == CheckIn
    ensures d.Wait? ==> latest.Some? && latest.value.kind.CheckIn?
    ensures d.Wait? ==> 0.0 < d.minutesLeft
                        && d.minutesLeft + ElapsedMinutes(latest.value.timestamp, now) == MINIMUM_CHECKOUT_MINUTES
    ensures latest.Some? && latest.value.kind.CheckIn? ==>
              (d.Wait? <==> ElapsedMinutes(latest.value.timestamp, now) < MINIMUM_CHECKOUT_MINUTES)
  {
    if latest.None? || latest.value.kind.CheckOut? then Record(CheckIn)
    else
      var elapsed := ElapsedMinutes(latest.value.timestamp, now);
      if elapsed < MINIMUM_CHECKOUT_MINUTES then Wait(MINIMUM_CHECKOUT_MINUTES - elapsed)
      else Record(CheckOut)
  }

  /** The JSON body posted to the route; `faceFeatures` is `None` when the
      field is absent (an empty array is still present). */
  datatype Request = Request(faceFeatures: Option<Descriptor>, timestamp: int)

  datatype Response =
    | FeaturesRequired
    | NotRecognized
    | TooSoon(minutesLeft: real)
    | CheckedIn(name: string, email: string)
    | CheckedOut(name: string, email: string)
    | Failed
  {
    /** The HTTP status the route answers with. */
    function Status(): int {
      match this
      case FeaturesRequired => 400
      case NotRecognized => 404
      case TooSoon(_) => 400
      case CheckedIn(_, _) => 200
      case CheckedOut(_, _) => 200
      case Failed => 500
    }
  }

  /** The response together with the attendance store after the request. */
  datatype Reply = Reply(response: Response, events: seq<Event>)

  /** The route's `POST` handler, parameterised by the match rule. */
  function Handle(rule: MatchRule, req: Request, users: seq<User>, events: seq<Event>, sqrt: real -> real): (r: Reply)
    ensures |events| <= |r.events| <= |events| + 1 && r.events[..|events|] == events
    ensures r.response.Status() == 200 <==> |r.events| == |events| + 1
    ensures |r.events| == |events| + 1 ==>
              var e := r.events[|events|];
              && e.timestamp == req.timestamp
              && (exists k :: 0 <= k < |users| && users[k].id == e.userId)
              && (r.response.CheckedIn? <==> e.kind == CheckIn)
    ensures |r.events| == |events| + 1 ==>
              && req.faceFeatures.Some?
              && FindFirstMatch(rule, req.faceFeatures.value, users, sqrt).Matched?
              && r.events[|events|].userId == users[FindFirstMatch(rule, req.faceFeatures.value, users, sqrt).index].id
  {
    match req.faceFeatures
    case None => Reply(FeaturesRequired, events)
    case Some(probe) =>
      match FindFirstMatch(rule, probe, users, sqrt)
      case Aborted(_) => Reply(Failed, events)
      case NoMatch => Reply(NotRecognized, events)
      case Matched(k) =>
        var user := users[k];
        match Decide(LatestFor(events, user.id), req.timestamp)
        case Wait(minutesLeft) => Reply(TooSoon(minutesLeft), events)
        case Record(kind) =>
          var e := Event(user.id, kind, req.timestamp);
          assert (events + [e])[..|events|] == events;
          Reply(if kind == CheckIn then CheckedIn(user.name, user.email) else CheckedOut(user.name, user.email),
                events + [e])
  }

  /** The route as written: a record is stored only for the first user
      whose similarity to the probe is BELOW the threshold, every earlier
      user having been compared and scored at or above it. */
  function Post(req: Request, users: seq<User>, events: seq<Event>, sqrt: real -> real): (r: Reply)
    ensures r.response == FeaturesRequired <==> req.faceFeatures.None?
    ensures |r.events| == |events| + 1 ==>
              && req.faceFeatures.Some?
              && exists k: nat :: && IsFirstMatch(AsWritten, req.faceFeatures.value, users, sqrt, k)
                             && CompareFaceFeatures(req.faceFeatures.value, users[k].faceData, sqrt).value < FACE_MATCH_THRESHOLD
                             && r.events[|events|].userId == users[k].id
  {
    assert req.faceFeatures.Some? && FindFirstMatch(AsWritten, req.faceFeatures.value, users, sqrt).Matched? ==>
             Qualifies(AsWritten, req.faceFeatures.value, users[FindFirstMatch(AsWritten, req.faceFeatures.value, users, sqrt).index], sqrt);
    Handle(AsWritten, req, users, events, sqrt)
  }

  /** `users[k]` is the first user the probe matches: every earlier user was
      compared and rejected. */
  predicate IsFirstMatch(rule: MatchRule, probe: Descriptor, users: seq<User>, sqrt: real -> real, k: nat) {
    && k < |users|
    && Qualifies(rule, probe, users[k], sqrt)
    && forall j :: 0 <= j < k ==> ComparedAndRejected(rule, probe, users[j], sqrt)
  }

  /** The scan reports exactly the first matching user. */
  lemma FindFirstMatchIsFirst(rule: MatchRule, probe: Descriptor, users: seq<User>, sqrt: real -> real, k: nat)
    ensures FindFirstMatch(rule, probe, users, sqrt) == Matched(k) <==> IsFirstMatch(rule, probe, users, sqrt, k)
  {
  }

  /** Once the scan has stopped at a user, users stored after it make no
      difference. */
  lemma {:induction false} ScanIgnoresLaterUsers(rule: MatchRule, probe: Descriptor, users: seq<User>, extra: seq<User>, sqrt: real -> real, i: nat)
    requires i <= |users|
    requires !ScanFrom(rule, probe, users, sqrt, i).NoMatch?
    ensures ScanFrom(rule, probe, users + extra, sqrt, i) == ScanFrom(rule, probe, users, sqrt, i)
    decreases |users| - i
  {
    assert (users + extra)[i] == users[i];
    match CompareFaceFeatures(probe, users[i].faceData, sqrt)
    case Failure(_) =>
    case Success(similarity) =>
      if !Accepts(rule, similarity) {
        ScanIgnoresLaterUsers(rule, probe, users, extra, sqrt, i + 1);
      }
  }

  /** A missing `faceFeatures` field is answered with 400 and records nothing. */
  lemma MissingFeaturesRejected(rule: MatchRule, req: Request, users: seq<User>, events: seq<Event>, sqrt: real -> real)
    requires req.faceFeatures.None?
    ensures Handle(rule, req, users, events, sqrt) == Reply(FeaturesRequired, events)
    ensures Handle(rule, req, users, events, sqrt).response.Status() == 400
  {
  }

  /** When every stored descriptor is comparable and none matches, the answer
      is 404 and nothing is recorded. */
  lemma UnrecognizedRecordsNothing(rule: MatchRule, probe: Descriptor, timestamp: int, users: seq<User>, events: seq<Event>, sqrt: real -> real)
    requires forall j :: 0 <= j < |users| ==> ComparedAndRejected(rule, probe, users[j], sqrt)
    ensures Handle(rule, Request(Some(probe), timestamp), users, events, sqrt) == Reply(NotRecognized, events)
  {
  }

  /** A stored descriptor of another length, reached before any match, makes
      `compareFaceFeatures` throw: the answer is 500 and nothing is recorded,
      however many later users would have matched. */
  lemma LengthMismatchAborts(rule: MatchRule, probe: Descriptor, timestamp: int, users: seq<User>, events: seq<Event>, sqrt: real -> real, k: nat)
    requires k < |users| && |users[k].faceData| != |probe|
    requires forall j :: 0 <= j < k ==> ComparedAndRejected(rule, probe, users[j], sqrt)
    ensures Handle(rule, Request(Some(probe), timestamp), users, events, sqrt) == Reply(Failed, events)
    ensures Handle(rule, Request(Some(probe), timestamp), users, events, sqrt).response.Status() == 500
  {
  }

  /** The first matching user is the one the request is about: the reply is
      the same if only the users up to that one were stored. */
  lemma LaterUsersDoNotMatter(rule: MatchRule, req: Request, users: seq<User>, events: seq<Event>, sqrt: real -> real, k: nat)
    requires req.faceFeatures.Some? && IsFirstMatch(rule, req.faceFeatures.value, users, sqrt, k)
    ensures Handle(rule, req, users, events, sqrt) == Handle(rule, req, users[..k + 1], events, sqrt)
  {
    var probe := req.faceFeatures.value;
    FindFirstMatchIsFirst(rule, probe, users, sqrt, k);
    FindFirstMatchIsFirst(rule, probe, users[..k + 1], sqrt, k);
  }

  /** With no record for the matched user, or a check-out as the latest one,
      exactly one check-in at the request time is recorded, however recent
      that check-out was. */
  lemma MatchedUserChecksIn(rule: MatchRule, req: Request, users: seq<User>, events: seq<Event>, sqrt: real -> real, k: nat)
    requires req.faceFeatures.Some? && IsFirstMatch(rule, req.faceFeatures.value, users, sqrt, k)
    requires LatestFor(events, users[k].id).None? || LatestFor(events, users[k].id).value.kind.CheckOut?
    ensures Handle(rule, req, users, events, sqrt)
            == Reply(CheckedIn(users[k].name, users[k].email), events + [Event(users[k].id, CheckIn, req.timestamp)])
  {
    FindFirstMatchIsFirst(rule, req.faceFeatures.value, users, sqrt, k);
  }

  /** After a check-in less than five minutes old the request is refused with
      the positive number of minutes still to wait, and nothing is recorded. */
  lemma MatchedUserTooSoon(rule: MatchRule, req: Request, users: seq<User>, events: seq<Event>, sqrt: real -> real, k: nat)
    requires req.faceFeatures.Some? && IsFirstMatch(rule, req.faceFeatures.value, users, sqrt, k)
    requires LatestFor(events, users[k].id).Some? && LatestFor(events, users[k].id).value.kind.CheckIn?
    requires ElapsedMinutes(LatestFor(events, users[k].id).value.timestamp, req.timestamp) < MINIMUM_CHECKOUT_MINUTES
    ensures var elapsed := ElapsedMinutes(LatestFor(events, users[k].id).value.timestamp, req.timestamp);
            && Handle(rule, req, users, events, sqrt) == Reply(TooSoon(MINIMUM_CHECKOUT_MINUTES - elapsed), events)
            && MINIMUM_CHECKOUT_MINUTES - elapsed > 0.0
    ensures Handle(rule, req, users, events, sqrt).response.Status() == 400
  {
    FindFirstMatchIsFirst(rule, req.faceFeatures.value, users, sqrt, k);
  }

  /** Five minutes or more after a check-in (exactly five included) exactly
      one check-out at the request time is recorded. */
  lemma MatchedUserChecksOut(rule: MatchRule, req: Request, users: seq<User>, events: seq<Event>, sqrt: real -> real, k: nat)
    requires req.faceFeatures.Some? && IsFirstMatch(rule, req.faceFeatures.value, users, sqrt, k)
    requires LatestFor(events, users[k].id).Some? && LatestFor(events, users[k].id).value.kind.CheckIn?
    requires ElapsedMinutes(LatestFor(events, users[k].id).value.timestamp, req.timestamp) >= MINIMUM_CHECKOUT_MINUTES
    ensures Handle(rule, req, users, events, sqrt)
            == Reply(CheckedOut(users[k].name, users[k].email), events + [Event(users[k].id, CheckOut, req.timestamp)])
  {
    FindFirstMatchIsFirst(rule, req.faceFeatures.value, users, sqrt, k);
  }

  /** A recorded event never repeats the kind of its user's latest record,
      and it leaves every other user's history as it was. */
  lemma RecordedKindFlips(rule: MatchRule, req: Request, users: seq<User>, events: seq<Event>, sqrt: real -> real)
    ensures var r := Handle(rule, req, users, events, sqrt);
            |r.events| == |events| + 1 ==>
              var e := r.events[|events|];
              && (LatestFor(events, e.userId).Some? ==> e.kind != LatestFor(events, e.userId).value.kind)
              && (LatestFor(events, e.userId).None? ==> e.kind.CheckIn?)
              && forall uid :: uid != e.userId ==> History(r.events, uid) == History(events, uid)
  {
  }

  /** With a request newer than every stored record, each user's history
      stays chronological and alternating: check-in and check-out take
      turns, starting with a check-in. */
  lemma HandlePreservesWellFormed(rule: MatchRule, req: Request, users: seq<User>, events: seq<Event>, sqrt: real -> real)
    requires WellFormed(events)
    requires forall j :: 0 <= j < |events| ==> events[j].timestamp < req.timestamp
    ensures WellFormed(Handle(rule, req, users, events, sqrt).events)
  {
    var r := Handle(rule, req, users, events, sqrt);
    if |r.events| == |events| + 1 {
      var e := r.events[|events|];
      assert r.events == events + [e];
      RecordedKindFlips(rule, req, users, events, sqrt);
      AppendPreservesWellFormed(events, e);
    }
  }

  /** A request newer than every stored record of the matched user makes
      the recorded event that user's latest. */
  lemma RecordedEventBecomesLatest(rule: MatchRule, req: Request, users: seq<User>, events: seq<Event>, sqrt: real -> real)
    requires forall j :: 0 <= j < |events| ==> events[j].timestamp < req.timestamp
    ensures var r := Handle(rule, req, users, events, sqrt);
            |r.events| == |events| + 1 ==> LatestFor(r.events, r.events[|events|].userId) == Some(r.events[|events|])
  {
  }

  /** The route's test accepts a stored descriptor exactly when it is FAR
      from the probe: squared distance above 0.64, distance above 0.8. */
  lemma AsWrittenMatchesOnlyDistantFaces(probe: Descriptor, u: User, sqrt: real -> real)
    requires |u.faceData| == |probe|
    requires IsSquareRoot(SquaredDistance(probe, u.faceData), sqrt(SquaredDistance(probe, u.faceData)))
    ensures Qualifies(AsWritten, probe, u, sqrt) <==> SquaredDistance(probe, u.faceData) > 0.64
  {
    var s := SquaredDistance(probe, u.faceData);
    RootAbove(s, sqrt(s), 0.8);
  }

  /** The intended test accepts a stored descriptor exactly when it is close
      to the probe: squared distance at most 0.04, distance at most 0.2. */
  lemma IntendedMatchesOnlyCloseFaces(probe: Descriptor, u: User, sqrt: real -> real)
    requires |u.faceData| == |probe|
    requires IsSquareRoot(SquaredDistance(probe, u.faceData), sqrt(SquaredDistance(probe, u.faceData)))
    ensures Qualifies(Intended, probe, u, sqrt) <==> SquaredDistance(probe, u.faceData) <= 0.04
  {
    var s := SquaredDistance(probe, u.faceData);
    RootAbove(s, sqrt(s), 0.2);
  }

  /** As written, a user who presents exactly the descriptor stored for them
      is not recognised: the similarity is 1, which is not below 0.20. */
  lemma AsWrittenRejectsExactProbe(u: User, timestamp: int, events: seq<Event>, sqrt: real -> real)
    requires sqrt(0.0) == 0.0
    ensures !Qualifies(AsWritten, u.faceData, u, sqrt)
    ensures Post(Request(Some(u.faceData), timestamp), [u], events, sqrt) == Reply(NotRecognized, events)
  {
    CompareSelfIsOne(u.faceData, sqrt);
  }

  /** Under the intended rule, the exact stored descriptor matches its user,
      so the first such user in store order is the one recognised. */
  lemma IntendedAcceptsExactProbe(probe: Descriptor, users: seq<User>, sqrt: real -> real, k: nat)
    requires sqrt(0.0) == 0.0
    requires k < |users| && users[k].faceData == probe
    requires forall j :: 0 <= j < k ==> ComparedAndRejected(Intended, probe, users[j], sqrt)
    ensures IsFirstMatch(Intended, probe, users, sqrt, k)
    ensures FindFirstMatch(Intended, probe, users, sqrt) == Matched(k)
  {
    CompareSelfIsOne(probe, sqrt);
    FindFirstMatchIsFirst(Intended, probe, users, sqrt, k);
  }
}
