# Hobby postit check-ins, modelled in Dafny

HobbyIt is a backend for hobby clubs. Members join hobby groups. Once a day a
member can post a "postit" to a hobby: an image check-in. This project models
the postit service (`HobbyPostitServiceImpl`) as a state machine over in-memory
repositories and proves its contracts.

- `save` checks the submission window, then the member, the hobby and the
  membership, in that order. It then stores one postit. If the hobby has no
  monthly record for the requested month yet, it also stores one.
- `findHobbyPostits` runs the same three membership checks. It then returns
  the hobby's postits registered between 00:00:00 and 23:59:59 of the
  requested date.

Files:

- `clock.dfy` (module `Clock`): dates, timestamps to the second, their
  chronological order, the inclusive `Between` condition, and the day bounds.
- `postit.dfy` (module `Postit`): the entities (`HobbyPostit`,
  `HobbyPostitRecord`), the four exceptions, the window predicate, the
  membership checks, the two repository queries, the monthly-record rule, and
  the lemmas about them.
- `postit_service.dfy` (module `PostitService`): class `HobbyPostitService`.
  Its fields are the member, hobby, membership, postit and record
  repositories. `Save` is a method that updates them. `FindHobbyPostits` is a
  function that reads them.

Modelling decisions:

- The clock reading (`LocalDateTime.now()`) is the parameter `now` of `Save`.
  `Save` requires it to be a real clock reading (hour < 24, minute < 60,
  second < 60). This is a property of the clock, not a demand on callers.
- The storage upload is the parameter `fileUploader`, an arbitrary total
  function from (file, hobby id) to a URL string.
- The saved postit's registration time is `now`. The builder in `save` does
  not set it. It is presumably filled in when the row is persisted, but the
  entity class is not part of this model, so equality with `now` is an
  assumption.
- The window guard is modelled literally: the requested date equals the
  clock's date, and it is not the case that the hour is 23 and the minute
  exceeds 55 (the guard at HobbyPostitServiceImpl.java:44). So 23:55:00
  through 23:55:59 are accepted, matching the guard's own error message at
  line 45, which gives the allowed time as "00:00 ~ 23:55" with 23:55
  included. A reading as "strictly before 23:55:00" would reject 23:55:xx,
  which the guard does not. `SubmissionWindowIsInterval` shows that the
  window is exactly [date 00:00:00, date 23:55:59].
- The record lookup is keyed by the requested date's year and month. The
  inserted record is built from the clock's year, month and day. The window
  guard makes the two agree. `UniquenessNeedsWindowGuard` exhibits the
  duplicate that would appear without the guard.

## Model

| member | source | states |
|---|---|---|
| `Clock.DayRangeIsCalendarDay` | backend/src/main/java/com/a505/hobbyit/hobbypostit/service/HobbyPostitServiceImpl.java:84-85 | For any real clock reading, lying in [d 00:00:00, d 23:59:59] inclusive is the same as having calendar date d |
| `Clock.NotAfterIsTotalOrder` | backend/src/main/java/com/a505/hobbyit/hobbypostit/service/HobbyPostitServiceImpl.java:82-85 | The timestamp order used by the `Between` query is reflexive, antisymmetric, transitive and total |
| `Postit.InSubmissionWindow` | backend/src/main/java/com/a505/hobbyit/hobbypostit/service/HobbyPostitServiceImpl.java:44 | The guard, kept literal in the body; its contract: a requested date other than the clock's date is always rejected, and for a real clock reading the guard passes exactly when the clock lies in [date 00:00:00, date 23:55:59] |
| `Postit.SubmissionWindowIsInterval` | backend/src/main/java/com/a505/hobbyit/hobbypostit/service/HobbyPostitServiceImpl.java:44-45 | For a real clock reading, the window guard passes exactly when the clock lies in [date 00:00:00, date 23:55:59]; any other date is rejected |
| `Postit.SubmissionWindowEdges` | backend/src/main/java/com/a505/hobbyit/hobbypostit/service/HobbyPostitServiceImpl.java:44-45 | Every second of 23:55 passes, 23:56:00 is rejected, the next day is rejected, and every clock reading whose date is not the requested date is rejected |
| `Postit.CheckMembership` | backend/src/main/java/com/a505/hobbyit/hobbypostit/service/HobbyPostitServiceImpl.java:46-51 | Passes iff the member, the hobby and their membership all exist; otherwise the first missing one decides the error: NoSuchMember, then NoSuchHobby, then NoSuchHobbyMember; never the window error |
| `Postit.SaveOutcome` | backend/src/main/java/com/a505/hobbyit/hobbypostit/service/HobbyPostitServiceImpl.java:44-51 | Failure order of `save`: UnAuthorizedHobbyPostit iff outside the window; each membership error iff the window passed and the earlier lookups succeeded; pass iff all four checks succeed |
| `Postit.FindByHobbyAndRegDtBetween` | backend/src/main/java/com/a505/hobbyit/hobbypostit/service/HobbyPostitServiceImpl.java:82-86 | The result is a subsequence of the store (store order kept), and holds a postit iff it is stored, belongs to the hobby and has regDt within the inclusive bounds; each matching postit occurs in the result exactly as many times as in the store, others not at all |
| `Postit.FindByHobbyAndRegDtBetweenAppend` | backend/src/main/java/com/a505/hobbyit/hobbypostit/service/HobbyPostitServiceImpl.java:82-86 | The query distributes over concatenation of the store: matches of earlier postits stay first, in order, and appended postits add only their own matches |
| `Postit.SavedPostitIsFound` | backend/src/main/java/com/a505/hobbyit/hobbypostit/service/HobbyPostitServiceImpl.java:53-55 | Appending a postit registered on `date` to the store appends exactly that postit to its hobby's query result for `date` |
| `Postit.PostitsOfDayAreCalendarDay` | backend/src/main/java/com/a505/hobbyit/hobbypostit/service/HobbyPostitServiceImpl.java:82-86 | For postits with real clock readings, the day query returns exactly the hobby's postits whose registration date is the requested date |
| `Postit.FindByHobbyAndYearAndMonth` | backend/src/main/java/com/a505/hobbyit/hobbypostit/service/HobbyPostitServiceImpl.java:56-58 | The lookup is empty iff no stored record has that (hobby, year, month); a found record is stored and has that key |
| `Postit.RecordsAfterSave` | backend/src/main/java/com/a505/hobbyit/hobbypostit/service/HobbyPostitServiceImpl.java:56-68 | Look up by the requested date's year and month; the store is unchanged iff a record for (hobby, date.year, date.month) exists, and otherwise (hobby, now.year, now.month, now.day) is appended |
| `Postit.SaveKeepsOneRecordPerMonth` | backend/src/main/java/com/a505/hobbyit/hobbypostit/service/HobbyPostitServiceImpl.java:56-68 | Inside the window, after a save a record for (hobby, date.year, date.month) exists, at most one record per (hobby, year, month) is preserved, and an existing record leaves the store unchanged |
| `Postit.NewRecordIsToday` | backend/src/main/java/com/a505/hobbyit/hobbypostit/service/HobbyPostitServiceImpl.java:44-68 | Inside the window, a newly inserted record is (hobby, date.year, date.month, date.day), and its day is the clock's day |
| `Postit.RepeatSaveKeepsRecords` | backend/src/main/java/com/a505/hobbyit/hobbypostit/service/HobbyPostitServiceImpl.java:56-68 | After a save inside the window, another save for the same hobby in the same year and month leaves the record store unchanged |
| `Postit.UniquenessNeedsWindowGuard` | backend/src/main/java/com/a505/hobbyit/hobbypostit/service/HobbyPostitServiceImpl.java:44-68 | Without the date-equality guard, a request for 31 January handled on 1 February would store a second February record: the guard is what keeps records unique |
| `PostitService.HobbyPostitService.constructor` | backend/src/main/java/com/a505/hobbyit/hobbypostit/service/HobbyPostitServiceImpl.java:31-38 | A service over repositories that already hold the given members, hobbies, memberships, postits and records; for stored postits with clock readings and at most one record per month it satisfies the store invariant |
| `PostitService.HobbyPostitService.Save` | backend/src/main/java/com/a505/hobbyit/hobbypostit/service/HobbyPostitServiceImpl.java:42-69 | Outcome follows the fixed failure order; any failure leaves every store unchanged; a success appends exactly one postit (given member, hobby, uploaded URL, now), inserts a monthly record only if none existed, keeps the one-record-per-month invariant, and makes that day's query return the old result plus the new postit; member, hobby and membership stores never change |
| `PostitService.HobbyPostitService.FindHobbyPostits` | backend/src/main/java/com/a505/hobbyit/hobbypostit/service/HobbyPostitServiceImpl.java:72-87 | Fails exactly as the membership checks fail, with the same error; otherwise returns, in store order, exactly the hobby's postits with regDt in [date 00:00:00, date 23:59:59], each as many times as it is stored; reads the stores without changing them |
| `PostitService.HobbyPostitService.FindHobbyPostitsIsCalendarDay` | backend/src/main/java/com/a505/hobbyit/hobbypostit/service/HobbyPostitServiceImpl.java:82-86 | On a valid store, a successful day query returns exactly the hobby's postits registered on the requested calendar date |

## Left out

- The HTTP controller for hobby articles: routing, header and multipart binding, and pagination. It only delegates to services that are not part of this model.
- The QueryDSL repository that lists the hobbies a member owns. It is a database query plus a one-for-one mapping to response objects.
- The file upload itself: external storage, modelled as the opaque `fileUploader` parameter.
- The clock: `LocalDateTime.now()` becomes the parameter `now`.
- Sub-second precision of timestamps. The model counts whole seconds, so it does not capture that the source's 23:59:59 upper bound would exclude 23:59:59.5. Under the registration-time assumption below, no saved postit can carry such a time, since saves after 23:55:59 are rejected.
- Assignment of the registration time when the postit row is persisted: assumed to equal `now`. The upload (HobbyPostitServiceImpl.java:53) runs between the guard and the persist, so a time assigned at persist may in fact be later than the guard's clock reading.
- Transaction rollback and concurrent execution. The model runs calls one after another. So it does not capture the race in which two concurrent saves both see no monthly record and both insert one.
- The projection of postits to response objects (`HobbyPostitResponse.of`). It is not part of this model, so `FindHobbyPostits` returns the postits themselves.
- The error message strings.
- The record repository's return type, which is not part of this model. If the lookup returns an optional and several rows share a key, it may throw; if it returns a list, duplicates only make it non-empty, as the model's first-match lookup does. The store invariant rules out duplicates, so the two readings agree on every valid store.
- Result order of the day query. The query has no explicit ordering, and the model assumes store (insertion) order. The contract of `Save` that a successful save adds the new postit at the end of that day's result depends on this assumption.
- Calendar validity of dates (month 1 to 12, days per month). The model compares dates field by field, as `LocalDate` does, without checking them.
