# Face-recognition attendance: a Dafny model of the server core

This project models the server side of a face-recognition attendance web
application. A user registers with a name, an email and a face descriptor. After
that, each attendance request carries a freshly captured descriptor. The server
finds the first registered user whose stored descriptor matches it. It then
records a check-in or a check-out for that user. A check-out is refused within
five minutes of the check-in.

Files and modules:

- `results.dfy`, module `Results`: `Option` and `Result`, used for absent JSON
  fields and for the operations that throw.
- `face_recognition.dfy`, module `FaceRecognition` (from `src/utils/faceRecognition.ts`):
  - the similarity score `compareFaceFeatures`;
  - the Euclidean distance under it, kept as a squared distance plus a
    square-root function passed in as `sqrt`;
  - `calculateMeanDescriptor`. A JavaScript `undefined` read past the end of a
    shorter descriptor is modelled as `NaN`.
- `store.dfy`, module `Store`:
  - the user and attendance records;
  - the query "latest attendance record of a user";
  - a user's history and the well-formedness invariant on it.
- `attendance.dfy`, module `Attendance` (from `src/app/api/attendance/route.ts`):
  - the `POST` handler as a pure function from the request, the users and the
    attendance records to the response and the new attendance records;
  - its first-match scan and its check-in/check-out decision.
  - The handler is parameterised by the match rule. `Attendance.Post` is the
    route as written.
- `register.dfy`, module `Register` (from `src/app/api/register/route.ts`): the
  `POST` handler as a pure function from the request and the users to the
  response and the new users.
- `scenarios.dfy`, module `Scenarios`: end-to-end scenarios combining both routes.

Behaviours a reader might not expect, which the model follows as written:

- A stored descriptor of a different length makes `compareFaceFeatures` throw
  inside the scan. The throw reaches the handler's `catch` and the answer is 500.
  The candidate is not skipped.
- The scan stops at the first user that qualifies under the test. It does not keep
  looking for the best-scoring user.
- The route compares the similarity score with `< FACE_MATCH_THRESHOLD`
  (0.20). So it matches a face when the similarity is below 0.20, that is, when
  the distance is above 0.8. The comment on the constant promises the opposite:
  similarity of at least 0.80. Both rules are modelled (`Attendance.MatchRule`).
  See Findings.
- An empty `faceFeatures` or `faceData` array is truthy in JavaScript, so it
  passes the route's "required" test. Only an absent field is refused. Empty
  `name` or `email` strings are refused.

## Model

| member | source | states |
|---|---|---|
| FaceRecognition.CompareFaceFeatures | src/utils/faceRecognition.ts:8-18 | the comparison fails exactly when the lengths differ (error LengthMismatch); otherwise the score lies in [0, 1] |
| FaceRecognition.SquaredDistance | src/utils/faceRecognition.ts:48-55 | the sum of squared differences under the square root is never negative |
| FaceRecognition.EuclideanDistanceZeroIffEqual | src/utils/faceRecognition.ts:48-55 | `EuclideanDistance` (which has no contract of its own) is zero if and only if the two descriptors are identical, when `sqrt` returns a true square root of the sum |
| FaceRecognition.Clamp01 | src/utils/faceRecognition.ts:17 | the similarity is clamped into [0, 1]: values inside are kept, values below become 0 and values above become 1 |
| FaceRecognition.SquaredDistanceSymmetric | src/utils/faceRecognition.ts:48-55 | the distance does not depend on the order of the two descriptors |
| FaceRecognition.SquaredDistanceZeroIffEqual | src/utils/faceRecognition.ts:48-55 | the distance is zero if and only if the descriptors are identical |
| FaceRecognition.CompareSymmetric | src/utils/faceRecognition.ts:8-18 | compareFaceFeatures(a, b) equals compareFaceFeatures(b, a), for the error outcome too |
| FaceRecognition.CompareSelfIsOne | src/utils/faceRecognition.ts:14-17 | a descriptor compared with itself scores exactly 1 when sqrt(0) = 0 |
| FaceRecognition.CompareIsOneIffIdentical | src/utils/faceRecognition.ts:8-55 | with a true square root, the score is 1 if and only if the descriptors are identical |
| FaceRecognition.CompareMonotone | src/utils/faceRecognition.ts:5-18 | with true square roots, a descriptor whose squared distance from the probe is at most another's scores at least as high, so a higher similarity means a closer face |
| FaceRecognition.ColumnTotal | src/utils/faceRecognition.ts:33-38 | the running sum at position i is NaN if and only if some descriptor is shorter than i + 1, and otherwise it is the real sum of position i over all descriptors |
| FaceRecognition.CalculateMeanDescriptor | src/utils/faceRecognition.ts:24-42 | fails exactly on an empty list; otherwise the result is as long as the first descriptor, and each position is the column sum divided by the number of descriptors (NaN where a later descriptor is too short) |
| FaceRecognition.MeanOfSingle | src/utils/faceRecognition.ts:24-42 | the mean of one descriptor is that descriptor |
| FaceRecognition.MeanOfCopies | src/utils/faceRecognition.ts:24-42 | the mean of n >= 1 copies of a descriptor is that descriptor |
| Store.LatestIndex | src/app/api/attendance/route.ts:42-45 | none exactly when the user has no record; otherwise a record of the user whose timestamp is at least that of every other record of the user, and the earliest stored one on a tie |
| Store.LatestFor | src/app/api/attendance/route.ts:42-45 | the latest record is a stored record of the user with the greatest timestamp, and is absent exactly when the user has no record |
| Store.LatestAfterAppend | src/app/api/attendance/route.ts:42-45 | a record newer than all of its user's records becomes that user's latest, and no other user's latest changes |
| Store.LatestIsLastOfHistory | src/app/api/attendance/route.ts:42-45 | when a user's history is chronological, the latest record is the last of that history |
| Store.AppendPreservesWellFormed | src/app/api/attendance/route.ts:50-95 | appending a record newer than its user's records, whose kind differs from that user's latest record (a check-in when there is none), keeps every history chronological and alternating |
| Attendance.ScanFrom | src/app/api/attendance/route.ts:24-32 | a match is a user who qualifies under the test; an abort is a user whose stored descriptor has another length; every user scanned before either one was comparable and rejected; no match means every user was comparable and rejected |
| Attendance.FindFirstMatch | src/app/api/attendance/route.ts:24-32 | a reported match is the first user who qualifies under the test, every earlier user having been compared and rejected; an abort names a user with a different descriptor length, with every earlier user compared and rejected; no match means every user was compared and rejected |
| Attendance.FindFirstMatchIsFirst | src/app/api/attendance/route.ts:24-32 | the scan reports user k if and only if k is the first user in store order who qualifies under the test |
| Attendance.ScanIgnoresLaterUsers | src/app/api/attendance/route.ts:24-32 | once the scan stops at a user, appending more users does not change its outcome |
| Attendance.LaterUsersDoNotMatter | src/app/api/attendance/route.ts:24-32 | when user k is the first match, the reply is the same as if only users 0..k were stored |
| Attendance.Decide | src/app/api/attendance/route.ts:50-95 | a recorded kind differs from the latest record's kind and is a check-in when there is none; waiting happens only after a check-in, and if and only if less than five minutes have elapsed; the minutes left are positive and add up with the elapsed minutes to five |
| Attendance.ElapsedMinutes | src/app/api/attendance/route.ts:70 | the elapsed minutes times 60000 are the elapsed milliseconds; they are non-negative exactly when the latest record is not in the future, and at least five exactly when at least 300000 ms have passed |
| Attendance.Handle | src/app/api/attendance/route.ts:8-103 | at most one record is appended and the old records are kept as they were; status 200 if and only if a record is appended; the appended record carries the request time and the id of the user the scan matched first, and it is a check-in exactly when the response says checked in |
| Attendance.Post | src/app/api/attendance/route.ts:8-103 | the handler with the route's own test: 400 "features required" exactly when faceFeatures is absent; a record is stored only for the first user whose similarity to the probe is below 0.20, every earlier user having been compared and scored at or above it |
| Attendance.MissingFeaturesRejected | src/app/api/attendance/route.ts:12-17 | an absent faceFeatures gives status 400 and leaves the records unchanged |
| Attendance.UnrecognizedRecordsNothing | src/app/api/attendance/route.ts:34-39 | when every user is comparable and rejected, the answer is 404 and nothing is recorded |
| Attendance.LengthMismatchAborts | src/app/api/attendance/route.ts:96-102 | a stored descriptor of another length reached before any match gives status 500 and nothing is recorded |
| Attendance.MatchedUserChecksIn | src/app/api/attendance/route.ts:50-67 | with no record, or a check-out as the latest record, exactly one check-in at the request time is appended for the matched user, however recent the check-out |
| Attendance.MatchedUserTooSoon | src/app/api/attendance/route.ts:68-77 | less than five minutes after a check-in, the answer is 400 with minutesLeft = 5 - elapsed > 0, and nothing is recorded |
| Attendance.MatchedUserChecksOut | src/app/api/attendance/route.ts:79-94 | five or more minutes after a check-in (exactly five included), exactly one check-out at the request time is appended for the matched user |
| Attendance.RecordedKindFlips | src/app/api/attendance/route.ts:50-95 | an appended record never repeats the kind of its user's latest record, and every other user's history is unchanged |
| Attendance.HandlePreservesWellFormed | src/app/api/attendance/route.ts:50-95 | when the request is newer than every stored record, every user's history stays chronological and alternates check-in/check-out, starting with a check-in |
| Attendance.RecordedEventBecomesLatest | src/app/api/attendance/route.ts:42-95 | when the request is newer than every stored record, an appended record becomes its user's latest |
| Attendance.AsWrittenMatchesOnlyDistantFaces | src/app/api/attendance/route.ts:26-28 | under the route's test, a comparable stored descriptor matches if and only if its squared distance from the probe exceeds 0.64 (distance above 0.8) |
| Attendance.IntendedMatchesOnlyCloseFaces | src/utils/faceRecognition.ts:1-2 | under the documented rule (similarity at least 0.80), a comparable stored descriptor matches if and only if its squared distance is at most 0.04 |
| Attendance.AsWrittenRejectsExactProbe | src/app/api/attendance/route.ts:26-28 | as written, a user who presents exactly their stored descriptor is not matched, and the route answers 404 |
| Attendance.IntendedAcceptsExactProbe | src/utils/faceRecognition.ts:1-2 | under the documented rule, the first user whose stored descriptor equals the probe is the one recognised |
| Register.Handle | src/app/api/register/route.ts:8-74 | 400 "required" if and only if a field is missing (or name/email empty); 400 "exists" if and only if the fields are present and the email is registered; the store is unchanged on both errors; otherwise exactly the new user is appended and the response echoes its id, name and email |
| Register.HandlePreservesUniqueEmails | src/app/api/register/route.ts:24-50 | if emails are unique before a registration, they are unique after it |
| Register.HandlePreservesUniqueIds | src/app/api/register/route.ts:41-50 | with an unused identifier for the new row, identifiers stay unique |
| Register.HandleOnlyAppends | src/app/api/register/route.ts:41-61 | existing users are neither changed nor removed, and a registered email can then be found |
| Scenarios.DebounceBoundaries | src/app/api/attendance/route.ts:50-85 | no record gives a check-in; 4 minutes after a check-in leaves 1 minute; exactly 5 minutes gives a check-out; 1 second after a check-out gives a check-in |
| Scenarios.RegisterThenAttendIntended | src/app/api/attendance/route.ts:50-95 | under the documented rule: register, present the same face to check in, again 1 minute later (4 minutes left), and 6 minutes after the first time to check out |
| Scenarios.RegisterThenAttendAsWritten | src/app/api/attendance/route.ts:24-39 | as written, the same registration followed by the same face is answered 404 |

## Left out

- Database access (Prisma `findMany`, `findFirst`, `findUnique`, `create`, `$disconnect`): the stores are immutable sequences, and the latest record on a timestamp tie is the earliest stored one, because the database leaves such ties unordered. The scan visits users in the sequence's order; `prisma.user.findMany()` has no `orderBy`, so the database guarantees no order, and which user matches first when several would match depends on the order it happens to return.
- Database failures: the 500 answers they would cause in both routes are not modelled. The only 500 modelled is the length-mismatch throw in the attendance scan.
- Register.Handle: the identifier the database assigns to the new row is a parameter, because the schema that generates it is not part of this model.
- JSON parsing and `JSON.stringify` of `faceData`: a stored descriptor reads back as the numbers that were registered. A body that is not JSON, or a `faceFeatures` value that is not an array of numbers, is not modelled.
- `Date` handling: timestamps are integer milliseconds, so a missing or unparsable `timestamp` (an invalid date) is not modelled.
- Float32 storage and IEEE arithmetic: descriptor entries are reals. The only NaN modelled is the one from reading past the end of a shorter descriptor in `calculateMeanDescriptor`.
- `Math.sqrt`: passed in as the function `sqrt`. The facts that need a true square root state this in their `requires`.
- The read-then-append race between two concurrent attendance requests for the same user: the model is sequential.
- Logging, the React components (camera, canvas, toasts, `fetch`), the page, the metadata and the bundler configuration: user interface and I/O.

## Findings

| source | as written | input that shows it | evidently intended | confidence | as-written member | corrected member |
|---|---|---|---|---|---|---|
| src/app/api/attendance/route.ts:26-28 | the similarity returned by `compareFaceFeatures` is compared with `< FACE_MATCH_THRESHOLD` (0.20), so only faces with similarity below 0.20, at distance above 0.8, match | a registered user presents exactly the stored descriptor: similarity 1, answer 404 | a match needs similarity of at least 0.80, as the comment on the constant (src/utils/faceRecognition.ts:1-2) says | high; not executed | Attendance.AsWrittenRejectsExactProbe | Attendance.IntendedAcceptsExactProbe |
