/** The daily check-in ("postit") rules of the hobby service: the entities it
    stores, the submission window, the membership checks with their failure
    order, the repository queries it issues, and the monthly-record rule. */
module Postit {
  import opened Clock

  type MemberId = int
  type HobbyId = int

  /** The uploaded image file, as raw bytes. */
  type MultipartFile = seq<bv8>

  /** The external storage upload: file and hobby id to the stored image's URL. */
  type FileUploader = (MultipartFile, HobbyId) -> string

  /** One daily check-in. */
  datatype HobbyPostit = HobbyPostit(member: MemberId, hobby: HobbyId, imgUrl: string, regDt: DateTime)

  /** Marker that a hobby had at least one check-in in a (year, month);
      `day` is the day of the check-in that created it. */
  datatype HobbyPostitRecord = HobbyPostitRecord(hobby: HobbyId, year: int, month: nat, day: nat)

  /** The exceptions the service throws. */
  datatype Error =
    | UnAuthorizedHobbyPostit
    | NoSuchMember
    | NoSuchHobby
    | NoSuchHobbyMember

  /** A call that returns nothing: it passes or throws. */
  datatype Outcome = Pass | Fail(error: Error)

  /** A repository lookup that may find nothing. */
  datatype Option<T> = None | Some(value: T)

  /** A call that returns a value or throws. */
  datatype Result<T> = Success(value: T) | Failure(error: Error)

  // ---------------------------------------------------------------------------
  // Submission window

  /** The guard of `save`: the requested date is the clock's date and the clock
      does not read 23:56 to 23:59. The minute 23:55 itself is inside. */
  predicate InSubmissionWindow(date: Date, now: DateTime)
    ensures date != now.ToLocalDate() ==> !InSubmissionWindow(date, now)
    ensures IsClockTime(now) ==>
              (InSubmissionWindow(date, now) <==> Between(now, StartOfDay(date), At(date, 23, 55, 59)))
  {
    date == now.ToLocalDate() && !(now.hour == 23 && 55 < now.minute)
  }

  /** For a real clock reading, the window is the interval from midnight to
      23:55:59 of the requested date, both ends included. */
  lemma SubmissionWindowIsInterval(date: Date, now: DateTime)
    requires IsClockTime(now)
    ensures InSubmissionWindow(date, now) <==> Between(now, StartOfDay(date), At(date, 23, 55, 59))
  {
  }

  /** Any minute of the day up to and including 23:55 passes; 23:56 fails;
      the next day fails, and so does any reading whose date is not `date`. */
  lemma SubmissionWindowEdges(date: Date, second: nat)
    requires second < 60
    ensures InSubmissionWindow(date, At(date, 23, 55, second))
    ensures !InSubmissionWindow(date, At(date, 23, 56, 0))
    ensures !InSubmissionWindow(Date(date.year, date.month, date.day + 1), At(date, 0, 0, 0))
    ensures forall t: DateTime :: t.ToLocalDate() != date ==> !InSubmissionWindow(date, t)
  {
  }

  // ---------------------------------------------------------------------------
  // Membership validation

  /** The three lookups shared by `save` and `findHobbyPostits`: member by id,
      hobby by id, then the membership of that pair; the first miss throws. */
  function CheckMembership(members: set<MemberId>, hobbies: set<HobbyId>,
                           memberships: set<(MemberId, HobbyId)>,
                           memberId: MemberId, hobbyId: HobbyId): (r: Outcome)
    ensures r.Pass? <==> memberId in members && hobbyId in hobbies && (memberId, hobbyId) in memberships
    ensures r == Fail(NoSuchMember) <==> memberId !in members
    ensures r == Fail(NoSuchHobby) <==> memberId in members && hobbyId !in hobbies
    ensures r == Fail(NoSuchHobbyMember) <==>
              memberId in members && hobbyId in hobbies && (memberId, hobbyId) !in memberships
    ensures r != Fail(UnAuthorizedHobbyPostit)
  {
    if memberId !in members then Fail(NoSuchMember)
    else if hobbyId !in hobbies then Fail(NoSuchHobby)
    else if (memberId, hobbyId) !in memberships then Fail(NoSuchHobbyMember)
    else Pass
  }

  /** What `save` reports: the window first, then the membership checks. */
  function SaveOutcome(members: set<MemberId>, hobbies: set<HobbyId>,
                       memberships: set<(MemberId, HobbyId)>,
                       memberId: MemberId, hobbyId: HobbyId, date: Date, now: DateTime): (r: Outcome)
    ensures r == Fail(UnAuthorizedHobbyPostit) <==> !InSubmissionWindow(date, now)
    ensures r == Fail(NoSuchMember) <==> InSubmissionWindow(date, now) && memberId !in members
    ensures r == Fail(NoSuchHobby) <==>
              InSubmissionWindow(date, now) && memberId in members && hobbyId !in hobbies
    ensures r == Fail(NoSuchHobbyMember) <==>
              InSubmissionWindow(date, now) && memberId in members && hobbyId in hobbies &&
              (memberId, hobbyId) !in memberships
    ensures r.Pass? <==>
              InSubmissionWindow(date, now) && memberId in members && hobbyId in hobbies &&
              (memberId, hobbyId) in memberships
  {
    if !InSubmissionWindow(date, now) then Fail(UnAuthorizedHobbyPostit)
    else CheckMembership(members, hobbies, memberships, memberId, hobbyId)
  }

  // ---------------------------------------------------------------------------
  // Postit query

  /** `a` is `b` with some elements dropped, the rest kept in order. */
  ghost predicate IsSubsequence<T>(a: seq<T>, b: seq<T>)
    decreases |b|
  {
    if a == [] then true
    else if b == [] then false
    else if a[0] == b[0] then IsSubsequence(a[1..], b[1..])
    else IsSubsequence(a, b[1..])
  }

  /** The condition of findByHobbyAndRegDtBetween. */
  predicate Matches(p: HobbyPostit, hobby: HobbyId, from: DateTime, to: DateTime)
  {
    p.hobby == hobby && Between(p.regDt, from, to)
  }

  /** findByHobbyAndRegDtBetween over the stored postits: the postits of `hobby`
      registered in [from, to], in store order, each as often as it is stored. */
  function FindByHobbyAndRegDtBetween(postits: seq<HobbyPostit>, hobby: HobbyId,
                                      from: DateTime, to: DateTime): (r: seq<HobbyPostit>)
    ensures IsSubsequence(r, postits)
    ensures forall p :: p in r <==> p in postits && Matches(p, hobby, from, to)
    ensures forall p :: multiset(r)[p] == if Matches(p, hobby, from, to) then multiset(postits)[p] else 0
  {
    if postits == [] then []
    else
      var rest := FindByHobbyAndRegDtBetween(postits[1..], hobby, from, to);
      assert postits == [postits[0]] + postits[1..];
      if Matches(postits[0], hobby, from, to) then [postits[0]] + rest
      else
        assert rest != [] ==> rest[0] in rest && rest[0] != postits[0];
        rest
  }

  /** The query distributes over the store: appending postits appends their
      matches, and earlier results are kept in place. */
  lemma {:induction false} FindByHobbyAndRegDtBetweenAppend(a: seq<HobbyPostit>, b: seq<HobbyPostit>,
                                                            hobby: HobbyId, from: DateTime, to: DateTime)
    ensures FindByHobbyAndRegDtBetween(a + b, hobby, from, to) ==
            FindByHobbyAndRegDtBetween(a, hobby, from, to) + FindByHobbyAndRegDtBetween(b, hobby, from, to)
  {
    if a == [] {
      assert a + b == b;
    } else {
      assert (a + b)[0] == a[0];
      assert (a + b)[1..] == a[1..] + b;
      FindByHobbyAndRegDtBetweenAppend(a[1..], b, hobby, from, to);
    }
  }

  /** A postit registered on `date` is appended to that day's query result of
      its hobby when it is appended to the store. */
  lemma SavedPostitIsFound(postits: seq<HobbyPostit>, p: HobbyPostit, date: Date)
    requires IsClockTime(p.regDt) && p.regDt.ToLocalDate() == date
    ensures FindByHobbyAndRegDtBetween(postits + [p], p.hobby, StartOfDay(date), EndOfDay(date)) ==
            FindByHobbyAndRegDtBetween(postits, p.hobby, StartOfDay(date), EndOfDay(date)) + [p]
  {
    FindByHobbyAndRegDtBetweenAppend(postits, [p], p.hobby, StartOfDay(date), EndOfDay(date));
    DayRangeIsCalendarDay(p.regDt, date);
    assert [p][1..] == [];
  }

  /** The day query of `findHobbyPostits` for stored postits with real clock
      readings: exactly the postits of `hobby` registered on `date`. */
  lemma PostitsOfDayAreCalendarDay(postits: seq<HobbyPostit>, hobby: HobbyId, date: Date)
    requires forall i :: 0 <= i < |postits| ==> IsClockTime(postits[i].regDt)
    ensures forall p :: p in FindByHobbyAndRegDtBetween(postits, hobby, StartOfDay(date), EndOfDay(date)) <==>
                          p in postits && p.hobby == hobby && p.regDt.ToLocalDate() == date
  {
    forall p | p in postits
      ensures Matches(p, hobby, StartOfDay(date), EndOfDay(date)) <==>
              p.hobby == hobby && p.regDt.ToLocalDate() == date
    {
      DayRangeIsCalendarDay(p.regDt, date);
    }
  }

  // ---------------------------------------------------------------------------
  // Monthly records

  /** `rec` is the record of (hobby, year, month). */
  predicate IsRecordOf(rec: HobbyPostitRecord, hobby: HobbyId, year: int, month: nat)
  {
    rec.hobby == hobby && rec.year == year && rec.month == month
  }

  /** Some stored record is the record of (hobby, year, month). */
  ghost predicate HasRecord(records: seq<HobbyPostitRecord>, hobby: HobbyId, year: int, month: nat)
  {
    exists i :: 0 <= i < |records| && IsRecordOf(records[i], hobby, year, month)
  }

  /** The store holds at most one record per (hobby, year, month). */
  ghost predicate OneRecordPerMonth(records: seq<HobbyPostitRecord>)
  {
    forall i, j :: 0 <= i < j < |records| ==> !IsRecordOf(records[j], records[i].hobby, records[i].year, records[i].month)
  }

  /** findByHobbyAndYearAndMonth: the first stored record of (hobby, year, month), if any. */
  function FindByHobbyAndYearAndMonth(records: seq<HobbyPostitRecord>, hobby: HobbyId,
                                      year: int, month: nat): (r: Option<HobbyPostitRecord>)
    ensures r.Some? ==> r.value in records && IsRecordOf(r.value, hobby, year, month)
    ensures r.None? <==> !HasRecord(records, hobby, year, month)
  {
    if records == [] then None
    else if IsRecordOf(records[0], hobby, year, month) then Some(records[0])
    else
      var r := FindByHobbyAndYearAndMonth(records[1..], hobby, year, month);
      assert HasRecord(records, hobby, year, month) <==> HasRecord(records[1..], hobby, year, month) by {
        if HasRecord(records, hobby, year, month) {
          var i :| 0 <= i < |records| && IsRecordOf(records[i], hobby, year, month);
          assert records[1..][i - 1] == records[i];
        }
        if HasRecord(records[1..], hobby, year, month) {
          var i :| 0 <= i < |records[1..]| && IsRecordOf(records[1..][i], hobby, year, month);
          assert records[i + 1] == records[1..][i];
        }
      }
      r
  }

  /** The record store after a successful `save` on `date` at `now`: look the
      record up by the requested date's year and month; if there is none, add
      one built from the clock's year, month and day. */
  function RecordsAfterSave(records: seq<HobbyPostitRecord>, hobby: HobbyId,
                            date: Date, now: DateTime): (r: seq<HobbyPostitRecord>)
    ensures r == records <==> HasRecord(records, hobby, date.year, date.month)
    ensures r != records ==> r == records + [HobbyPostitRecord(hobby, now.year, now.month, now.day)]
  {
    if FindByHobbyAndYearAndMonth(records, hobby, date.year, date.month).Some? then records
    else records + [HobbyPostitRecord(hobby, now.year, now.month, now.day)]
  }

  /** Inside the window, a save leaves a record for the requested month, adds
      one only when none existed, and keeps at most one per month. */
  lemma SaveKeepsOneRecordPerMonth(records: seq<HobbyPostitRecord>, hobby: HobbyId, date: Date, now: DateTime)
    requires OneRecordPerMonth(records)
    requires InSubmissionWindow(date, now)
    ensures HasRecord(RecordsAfterSave(records, hobby, date, now), hobby, date.year, date.month)
    ensures OneRecordPerMonth(RecordsAfterSave(records, hobby, date, now))
    ensures HasRecord(records, hobby, date.year, date.month) ==>
              RecordsAfterSave(records, hobby, date, now) == records
  {
    var after := RecordsAfterSave(records, hobby, date, now);
    if !HasRecord(records, hobby, date.year, date.month) {
      assert after[|records|] == HobbyPostitRecord(hobby, date.year, date.month, date.day);
      forall i, j | 0 <= i < j < |after|
        ensures !IsRecordOf(after[j], after[i].hobby, after[i].year, after[i].month)
      {
        if j == |records| {
          assert after[i] == records[i];
          assert !IsRecordOf(records[i], hobby, date.year, date.month);
        }
      }
    }
  }

  /** A record added by a save carries the looked-up year and month, and
      today's day. */
  lemma NewRecordIsToday(records: seq<HobbyPostitRecord>, hobby: HobbyId, date: Date, now: DateTime)
    requires InSubmissionWindow(date, now)
    requires !HasRecord(records, hobby, date.year, date.month)
    ensures RecordsAfterSave(records, hobby, date, now) ==
              records + [HobbyPostitRecord(hobby, date.year, date.month, date.day)]
    ensures date.day == now.day
  {
  }

  /** A second save for the same hobby in the same month as a successful one
      leaves the record store as the first left it. */
  lemma RepeatSaveKeepsRecords(records: seq<HobbyPostitRecord>, hobby: HobbyId,
                               date1: Date, now1: DateTime, date2: Date, now2: DateTime)
    requires InSubmissionWindow(date1, now1)
    requires date2.year == date1.year && date2.month == date1.month
    ensures RecordsAfterSave(RecordsAfterSave(records, hobby, date1, now1), hobby, date2, now2) ==
              RecordsAfterSave(records, hobby, date1, now1)
  {
    var after := RecordsAfterSave(records, hobby, date1, now1);
    if !HasRecord(records, hobby, date1.year, date1.month) {
      assert IsRecordOf(after[|records|], hobby, date2.year, date2.month);
    }
    assert HasRecord(after, hobby, date2.year, date2.month);
  }

  /** The lookup uses the requested date and the insert uses the clock; only
      the window guard makes them agree. Without it (a request for 31 January
      handled on 1 February), a second February record would be stored. */
  lemma UniquenessNeedsWindowGuard()
    ensures var records := [HobbyPostitRecord(7, 2024, 2, 1)];
            var date := Date(2024, 1, 31);
            var now := DateTime(2024, 2, 1, 9, 0, 0);
            OneRecordPerMonth(records) && !InSubmissionWindow(date, now) &&
            !OneRecordPerMonth(RecordsAfterSave(records, 7, date, now))
  {
    var records := [HobbyPostitRecord(7, 2024, 2, 1)];
    var after := RecordsAfterSave(records, 7, Date(2024, 1, 31), DateTime(2024, 2, 1, 9, 0, 0));
    assert !IsRecordOf(records[0], 7, 2024, 1);
    assert !HasRecord(records, 7, 2024, 1);
    assert after == records + [HobbyPostitRecord(7, 2024, 2, 1)];
    assert IsRecordOf(after[1], after[0].hobby, after[0].year, after[0].month);
  }
}
