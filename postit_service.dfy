/** The check-in service over its repositories, kept in memory: `save` records
    a check-in, `findHobbyPostits` lists one day's check-ins of a hobby. */
module PostitService {
  import opened Clock
  import opened Postit

  class HobbyPostitService {
    /** The member, hobby and membership repositories: which ids exist. */
    var members: set<MemberId>
    var hobbies: set<HobbyId>
    var memberships: set<(MemberId, HobbyId)>
    /** The postit repository, in insertion order. */
    var postits: seq<HobbyPostit>
    /** The monthly record repository, in insertion order. */
    var records: seq<HobbyPostitRecord>

    /** Every stored postit was registered at a real clock reading, and there is
        at most one monthly record per (hobby, year, month). */
    ghost predicate Valid()
      reads this
    {
      (forall i :: 0 <= i < |postits| ==> IsClockTime(postits[i].regDt)) &&
      OneRecordPerMonth(records)
    }

    /** A service over repositories that already hold the given rows. The
        stored postits carry clock readings and the records are one per month. */
    constructor (members: set<MemberId>, hobbies: set<HobbyId>, memberships: set<(MemberId, HobbyId)>,
                 postits: seq<HobbyPostit>, records: seq<HobbyPostitRecord>)
      requires forall i :: 0 <= i < |postits| ==> IsClockTime(postits[i].regDt)
      requires OneRecordPerMonth(records)
      ensures Valid()
      ensures this.members == members && this.hobbies == hobbies && this.memberships == memberships
      ensures this.postits == postits && this.records == records
    {
      this.members := members;
      this.hobbies := hobbies;
      this.memberships := memberships;
      this.postits := postits;
      this.records := records;
    }

    /** `save(memberId, hobbyId, date, multipartFile)`, with the clock reading
        `now` and the storage upload `fileUploader` passed in. The saved
        postit's registration time is `now`. */
    method Save(memberId: MemberId, hobbyId: HobbyId, date: Date, multipartFile: MultipartFile,
                now: DateTime, fileUploader: FileUploader) returns (outcome: Outcome)
      requires Valid()
      requires IsClockTime(now)
      modifies this
      ensures Valid()
      ensures members == old(members) && hobbies == old(hobbies) && memberships == old(memberships)
      ensures outcome == SaveOutcome(members, hobbies, memberships, memberId, hobbyId, date, now)
      ensures outcome.Fail? ==> postits == old(postits) && records == old(records)
      ensures outcome.Pass? ==>
                postits == old(postits) + [HobbyPostit(memberId, hobbyId, fileUploader(multipartFile, hobbyId), now)]
      ensures outcome.Pass? ==> records == RecordsAfterSave(old(records), hobbyId, date, now)
      ensures outcome.Pass? ==> HasRecord(records, hobbyId, date.year, date.month)
      ensures outcome.Pass? && HasRecord(old(records), hobbyId, date.year, date.month) ==>
                records == old(records)
      ensures outcome.Pass? ==>
                FindHobbyPostits(memberId, hobbyId, date) ==
                Success(old(FindHobbyPostits(memberId, hobbyId, date)).value +
                        [HobbyPostit(memberId, hobbyId, fileUploader(multipartFile, hobbyId), now)])
    {
      if !InSubmissionWindow(date, now) {
        return Fail(UnAuthorizedHobbyPostit);
      }
      var membership := CheckMembership(members, hobbies, memberships, memberId, hobbyId);
      if membership.Fail? {
        return membership;
      }

      var imgUrl := fileUploader(multipartFile, hobbyId);
      var postit := HobbyPostit(memberId, hobbyId, imgUrl, now);
      postits := postits + [postit];
      if FindByHobbyAndYearAndMonth(records, hobbyId, date.year, date.month).None? {
        records := records + [HobbyPostitRecord(hobbyId, now.year, now.month, now.day)];
      }

      SaveKeepsOneRecordPerMonth(old(records), hobbyId, date, now);
      SavedPostitIsFound(old(postits), postit, date);
      assert old(FindHobbyPostits(memberId, hobbyId, date)) ==
             Success(FindByHobbyAndRegDtBetween(old(postits), hobbyId, StartOfDay(date), EndOfDay(date)));
      assert FindHobbyPostits(memberId, hobbyId, date) ==
             Success(FindByHobbyAndRegDtBetween(postits, hobbyId, StartOfDay(date), EndOfDay(date)));
      outcome := Pass;
    }

    /** `findHobbyPostits(memberId, hobbyId, date)`: after the membership checks,
        the hobby's postits registered from 00:00:00 to 23:59:59 of `date`. */
    function FindHobbyPostits(memberId: MemberId, hobbyId: HobbyId, date: Date): (r: Result<seq<HobbyPostit>>)
      reads this
      ensures r.Failure? <==> CheckMembership(members, hobbies, memberships, memberId, hobbyId).Fail?
      ensures r.Failure? ==> r.error == CheckMembership(members, hobbies, memberships, memberId, hobbyId).error
      ensures r.Success? ==> IsSubsequence(r.value, postits)
      ensures r.Success? ==>
                forall p :: p in r.value <==> p in postits && Matches(p, hobbyId, StartOfDay(date), EndOfDay(date))
      ensures r.Success? ==>
                forall p :: multiset(r.value)[p] ==
                              if Matches(p, hobbyId, StartOfDay(date), EndOfDay(date)) then multiset(postits)[p] else 0
    {
      var membership := CheckMembership(members, hobbies, memberships, memberId, hobbyId);
      if membership.Fail? then Failure(membership.error)
      else Success(FindByHobbyAndRegDtBetween(postits, hobbyId, StartOfDay(date), EndOfDay(date)))
    }

    /** On a valid store, a successful day query returns exactly the hobby's
        postits whose registration date is `date`. */
    lemma FindHobbyPostitsIsCalendarDay(memberId: MemberId, hobbyId: HobbyId, date: Date)
      requires Valid()
      requires FindHobbyPostits(memberId, hobbyId, date).Success?
      ensures forall p :: p in FindHobbyPostits(memberId, hobbyId, date).value <==>
                            p in postits && p.hobby == hobbyId && p.regDt.ToLocalDate() == date
    {
      PostitsOfDayAreCalendarDay(postits, hobbyId, date);
    }
  }
}
