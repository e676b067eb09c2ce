/** End-to-end scenarios of the two routes: a user registers, then presents the
    same descriptor three times, under the route's test and under the
    intended one. */
module Scenarios {
  import opened Results
  import opened FaceRecognition
  import opened Store
  import Attendance
  import Register

  /** The debounce rule at its boundaries: no record gives a check-in; four
      minutes after a check-in one minute is left; at exactly five minutes
      the check-out goes through; a check-in one second after a check-out is
      accepted. */
  lemma DebounceBoundaries(uid: UserId, t0: int)
    ensures Attendance.Decide(None, t0) == Attendance.Record(CheckIn)
    ensures Attendance.Decide(Some(Event(uid, CheckIn, t0)), t0 + 4 * 60000) == Attendance.Wait(1.0)
    ensures Attendance.Decide(Some(Event(uid, CheckIn, t0)), t0 + 5 * 60000) == Attendance.Record(CheckOut)
    ensures Attendance.Decide(Some(Event(uid, CheckOut, t0)), t0 + 1000) == Attendance.Record(CheckIn)
  {
  }

  /** Under the intended rule: register with descriptor `d`, present `d`
      (check-in), again a minute later (four minutes left), and six minutes
      after the first time (check-out). */
  lemma RegisterThenAttendIntended(d: Descriptor, name: string, email: string, id: UserId, t0: int, sqrt: real -> real)
    requires name != "" && email != "" && sqrt(0.0) == 0.0
    ensures var reg := Register.Handle(Register.Request(Some(name), Some(email), Some(d)), [], id);
            var r1 := Attendance.Handle(Attendance.Intended, Attendance.Request(Some(d), t0), reg.users, [], sqrt);
            var r2 := Attendance.Handle(Attendance.Intended, Attendance.Request(Some(d), t0 + 60000), reg.users, r1.events, sqrt);
            var r3 := Attendance.Handle(Attendance.Intended, Attendance.Request(Some(d), t0 + 360000), reg.users, r2.events, sqrt);
            && reg.response == Register.Registered(id, name, email)
            && r1.response == Attendance.CheckedIn(name, email)
            && r2 == Attendance.Reply(Attendance.TooSoon(4.0), r1.events)
            && r3.response == Attendance.CheckedOut(name, email)
            && r3.events == [Event(id, CheckIn, t0), Event(id, CheckOut, t0 + 360000)]
  {
    var reg := Register.Handle(Register.Request(Some(name), Some(email), Some(d)), [], id);
    assert reg.users == [User(id, name, email, d)];
    Attendance.IntendedAcceptsExactProbe(d, reg.users, sqrt, 0);
    var e1 := Event(id, CheckIn, t0);
    assert LatestFor([e1], id) == Some(e1);
  }

  /** As written, the same registration is never recognised. */
  lemma RegisterThenAttendAsWritten(d: Descriptor, name: string, email: string, id: UserId, t0: int, sqrt: real -> real)
    requires name != "" && email != "" && sqrt(0.0) == 0.0
    ensures var reg := Register.Handle(Register.Request(Some(name), Some(email), Some(d)), [], id);
            Attendance.Post(Attendance.Request(Some(d), t0), reg.users, [], sqrt) == Attendance.Reply(Attendance.NotRecognized, [])
  {
    var reg := Register.Handle(Register.Request(Some(name), Some(email), Some(d)), [], id);
    assert reg.users == [User(id, name, email, d)];
    Attendance.AsWrittenRejectsExactProbe(reg.users[0], t0, [], sqrt);
  }
}
