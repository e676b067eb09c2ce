/** The persisted records the two routes read and write, and the one query
    over them with any logic: "the latest attendance record of a user"
    (`findFirst` ordered by descending timestamp). The database itself is an
    immutable sequence of records in insertion order. */
module Store {
  import opened Results
  import opened FaceRecognition

  type UserId = nat

  /** A registered user; `faceData` is the stored descriptor (the JSON
      text of the source, read back as the numbers it was written from). */
  datatype User = User(id: UserId, name: string, email: string, faceData: Descriptor)

  datatype EventKind = CheckIn | CheckOut

  /** An attendance record; `timestamp` is in milliseconds since the epoch. */
  datatype Event = Event(userId: UserId, kind: EventKind, timestamp: int)

  /** No two users share an email address. */
  predicate EmailsUnique(users: seq<User>) {
    forall i, j :: 0 <= i < j < |users| ==> users[i].email != users[j].email
  }

  /** No two users share an identifier. */
  predicate IdsUnique(users: seq<User>) {
    forall i, j :: 0 <= i < j < |users| ==> users[i].id != users[j].id
  }

  /** Some user is registered under `email` (`findUnique({ where: { email } })`). */
  predicate EmailRegistered(users: seq<User>, email: string) {
    exists i :: 0 <= i < |users| && users[i].email == email
  }

  /** The position, among the first `n` records, of the latest record of
      `uid`: one with the greatest timestamp, the earliest stored of those
      on a tie (the database leaves ties unordered). */
  function LatestIndex(events: seq<Event>, uid: UserId, n: nat): (r: Option<nat>)
    requires n <= |events|
    ensures r.None? <==> forall j :: 0 <= j < n ==> events[j].userId != uid
    ensures r.Some? ==> r.value < n && events[r.value].userId == uid
    ensures r.Some? ==> forall j :: 0 <= j < n && events[j].userId == uid ==>
              events[j].timestamp <= events[r.value].timestamp
    ensures r.Some? ==> forall j :: 0 <= j < r.value && events[j].userId == uid ==>
              events[j].timestamp < events[r.value].timestamp
    decreases n
  {
    if n == 0 then None
    else
      var earlier := LatestIndex(events, uid, n - 1);
      if events[n - 1].userId != uid then earlier
      else if earlier.Some? && events[earlier.value].timestamp >= events[n - 1].timestamp then earlier
      else Some(n - 1)
  }

  /** The latest attendance record of `uid`, if any. */
  function LatestFor(events: seq<Event>, uid: UserId): (r: Option<Event>)
    ensures r.None? <==> forall j :: 0 <= j < |events| ==> events[j].userId != uid
    ensures r.Some? ==> r.value in events && r.value.userId == uid
    ensures r.Some? ==> forall j :: 0 <= j < |events| && events[j].userId == uid ==>
              events[j].timestamp <= r.value.timestamp
  {
    match LatestIndex(events, uid, |events|)
    case None => None
    case Some(k) => Some(events[k])
  }

  /** Appending a record does not change what the earlier records decide. */
  lemma {:induction false} LatestIndexOfPrefix(events: seq<Event>, e: Event, uid: UserId, n: nat)
    requires n <= |events|
    ensures LatestIndex(events + [e], uid, n) == LatestIndex(events, uid, n)
    decreases n
  {
    if n != 0 {
      LatestIndexOfPrefix(events, e, uid, n - 1);
      assert (events + [e])[n - 1] == events[n - 1];
    }
  }

  /** A record newer than every record of its user becomes that user's
      latest; every other user's latest record is unchanged. */
  lemma LatestAfterAppend(events: seq<Event>, e: Event)
    requires forall j :: 0 <= j < |events| && events[j].userId == e.userId ==>
               events[j].timestamp < e.timestamp
    ensures LatestFor(events + [e], e.userId) == Some(e)
    ensures forall uid :: uid != e.userId ==> LatestFor(events + [e], uid) == LatestFor(events, uid)
  {
    var all := events + [e];
    LatestIndexOfPrefix(events, e, e.userId, |events|);
    forall uid | uid != e.userId
      ensures LatestFor(all, uid) == LatestFor(events, uid)
    {
      LatestIndexOfPrefix(events, e, uid, |events|);
      assert all[..|events|] == events;
    }
  }

  /** The records of `uid`, in store order. */
  function History(events: seq<Event>, uid: UserId): (h: seq<Event>)
    ensures |h| <= |events|
    ensures forall i :: 0 <= i < |h| ==> h[i].userId == uid
    decreases |events|
  {
    if |events| == 0 then []
    else
      var last := events[|events| - 1];
      History(events[..|events| - 1], uid) + (if last.userId == uid then [last] else [])
  }

  /** Timestamps strictly increase along the history. */
  predicate Chronological(h: seq<Event>) {
    forall i, j :: 0 <= i < j < |h| ==> h[i].timestamp < h[j].timestamp
  }

  /** The history starts with a check-in and never repeats a kind. */
  predicate Alternating(h: seq<Event>) {
    && (|h| > 0 ==> h[0].kind.CheckIn?)
    && forall i :: 0 <= i < |h| - 1 ==> h[i].kind != h[i + 1].kind
  }

  /** Every user's history is chronological and alternates between
      check-in and check-out. */
  ghost predicate WellFormed(events: seq<Event>) {
    forall uid :: Chronological(History(events, uid)) && Alternating(History(events, uid))
  }

  /** The latest record after appending `e`, from the latest record before. */
  lemma LatestForAppend(events: seq<Event>, e: Event, uid: UserId)
    ensures var before := LatestFor(events, uid);
            LatestFor(events + [e], uid)
            == if e.userId != uid then before
               else if before.Some? && before.value.timestamp >= e.timestamp then before
               else Some(e)
  {
    LatestIndexOfPrefix(events, e, uid, |events|);
  }

  /** With a chronological history, the latest record is the last one. */
  lemma {:induction false} LatestIsLastOfHistory(events: seq<Event>, uid: UserId)
    requires Chronological(History(events, uid))
    ensures var h := History(events, uid);
            LatestFor(events, uid) == if |h| == 0 then None else Some(h[|h| - 1])
    decreases |events|
  {
    if |events| != 0 {
      var p := events[..|events| - 1];
      var last := events[|events| - 1];
      assert events == p + [last];
      var hp := History(p, uid);
      var h := History(events, uid);
      HistoryAfterAppend(p, last, uid);
      ChronologicalPrefix(h, |hp|);
      assert h[..|hp|] == hp;
      LatestIsLastOfHistory(p, uid);
      LatestForAppend(p, last, uid);
      if last.userId != uid {
        assert h == hp;
      } else if |hp| == 0 {
        assert h == [last];
      } else {
        assert h == hp + [last];
        assert h[|hp| - 1] == hp[|hp| - 1] && h[|hp|] == last;
        assert h[|hp| - 1].timestamp < h[|hp|].timestamp;
      }
    }
  }

  lemma ChronologicalPrefix(h: seq<Event>, n: nat)
    requires n <= |h| && Chronological(h)
    ensures Chronological(h[..n])
  {
  }

  /** Appending a record newer than its user's records, whose kind differs
      from that user's latest record (a check-in if there is none), keeps
      the store well-formed. */
  lemma AppendPreservesWellFormed(events: seq<Event>, e: Event)
    requires WellFormed(events)
    requires forall j :: 0 <= j < |events| && events[j].userId == e.userId ==> events[j].timestamp < e.timestamp
    requires LatestFor(events, e.userId).None? ==> e.kind.CheckIn?
    requires LatestFor(events, e.userId).Some? ==> e.kind != LatestFor(events, e.userId).value.kind
    ensures WellFormed(events + [e])
  {
    forall uid
      ensures Chronological(History(events + [e], uid)) && Alternating(History(events + [e], uid))
    {
      HistoryAfterAppend(events, e, uid);
      if uid == e.userId {
        LatestIsLastOfHistory(events, uid);
        AppendToOwnHistory(events, e);
      }
    }
  }

  lemma AppendToOwnHistory(events: seq<Event>, e: Event)
    requires Chronological(History(events, e.userId)) && Alternating(History(events, e.userId))
    requires forall j :: 0 <= j < |events| && events[j].userId == e.userId ==> events[j].timestamp < e.timestamp
    requires var h := History(events, e.userId);
             && (|h| == 0 ==> e.kind.CheckIn?)
             && (|h| > 0 ==> e.kind != h[|h| - 1].kind)
    ensures Chronological(History(events, e.userId) + [e]) && Alternating(History(events, e.userId) + [e])
  {
    var h := History(events, e.userId);
    HistoryBefore(events, e.userId, e.timestamp);
    ChronologicalAppend(h, e);
    AlternatingAppend(h, e);
  }

  /** A time later than every record of `uid` is later than its history. */
  lemma {:induction false} HistoryBefore(events: seq<Event>, uid: UserId, t: int)
    requires forall j :: 0 <= j < |events| && events[j].userId == uid ==> events[j].timestamp < t
    ensures forall i :: 0 <= i < |History(events, uid)| ==> History(events, uid)[i].timestamp < t
    decreases |events|
  {
    if |events| != 0 {
      var p := events[..|events| - 1];
      HistoryBefore(p, uid, t);
    }
  }

  lemma ChronologicalAppend(h: seq<Event>, e: Event)
    requires Chronological(h)
    requires forall i :: 0 <= i < |h| ==> h[i].timestamp < e.timestamp
    ensures Chronological(h + [e])
  {
  }

  lemma AlternatingAppend(h: seq<Event>, e: Event)
    requires Alternating(h)
    requires |h| == 0 ==> e.kind.CheckIn?
    requires |h| > 0 ==> e.kind != h[|h| - 1].kind
    ensures Alternating(h + [e])
  {
  }

  /** Appending a record extends its own user's history and no other. */
  lemma HistoryAfterAppend(events: seq<Event>, e: Event, uid: UserId)
    ensures History(events + [e], uid) == History(events, uid) + (if e.userId == uid then [e] else [])
  {
  }
}
