/** The availability search of the classes controller (`index`): the classes
    of one subject that own a schedule slot covering a weekday and a minute,
    each joined with its owning user.
 */
module ClassSearch {
  import opened Tables

  const MissingFiltersError := "Missing filters to search classes"

  /** The query string as the HTTP layer hands it over. `weekDay` is already a
      number; an absent or empty `week_day` parameter is `None`. */
  datatype SearchQuery = SearchQuery(subject: Option<string>, weekDay: Option<int>, time: Option<string>)

  /** The criteria once the query is validated and its time converted. */
  datatype Filter = Filter(subject: string, weekDay: int, minute: int)

  /** One result: a class joined with a user of its `user_id`. */
  datatype Row = Row(cls: ClassRow, owner: UserRow)

  datatype SearchOutcome =
    | BadRequest(error: string)
    | TimeNotConverted
    | Found(rows: seq<Row>)

  /** A query parameter is given when it is present and not the empty string. */
  predicate Given(p: Option<string>) {
    p.Some? && p.value != ""
  }

  predicate FiltersGiven(q: SearchQuery) {
    q.weekDay.Some? && Given(q.subject) && Given(q.time)
  }

  /** Slot `slot` belongs to class `classId` and its half-open window
      `[from, to)` on `weekDay` contains `minute`. */
  predicate Covers(slot: ScheduleRow, classId: nat, weekDay: int, minute: int) {
    && slot.classId == classId
    && slot.weekDay == weekDay
    && slot.from <= minute
    && slot.to > minute
  }

  /** Reference meaning of the `whereExists` sub-query. */
  ghost predicate Available(schedule: seq<ScheduleRow>, classId: nat, weekDay: int, minute: int) {
    exists slot :: slot in schedule && Covers(slot, classId, weekDay, minute)
  }

  /** Reference meaning of one result row. */
  ghost predicate Matches(s: Store, f: Filter, r: Row) {
    && r.cls in s.classes
    && r.cls.subject == f.subject
    && Available(s.schedule, r.cls.id, f.weekDay, f.minute)
    && r.owner in s.users
    && r.owner.id == r.cls.userId
  }

  /** Scan of `class_schedule` for a slot of `classId` covering the instant. */
  function AnySlotCovers(schedule: seq<ScheduleRow>, classId: nat, weekDay: int, minute: int): (b: bool)
    ensures b <==> Available(schedule, classId, weekDay, minute)
  {
    if |schedule| == 0 then false
    else
      var init := schedule[..|schedule| - 1];
      assert schedule == init + [schedule[|schedule| - 1]];
      AnySlotCovers(init, classId, weekDay, minute) || Covers(schedule[|schedule| - 1], classId, weekDay, minute)
  }

  /** Inner join of class `c` with `users` on `classes.user_id = users.id`. */
  function Join(c: ClassRow, users: seq<UserRow>): (rows: seq<Row>)
    ensures forall r :: r in rows <==> r.cls == c && r.owner in users && r.owner.id == c.userId
  {
    if |users| == 0 then []
    else
      var init := users[..|users| - 1];
      var u := users[|users| - 1];
      assert users == init + [u];
      Join(c, init) + (if u.id == c.userId then [Row(c, u)] else [])
  }

  /** The rows class `c` contributes to the result. */
  function RowsOf(c: ClassRow, s: Store, f: Filter): (rows: seq<Row>)
    ensures forall r :: r in rows <==>
      && r.cls == c
      && c.subject == f.subject
      && Available(s.schedule, c.id, f.weekDay, f.minute)
      && r.owner in s.users
      && r.owner.id == c.userId
  {
    if c.subject == f.subject && AnySlotCovers(s.schedule, c.id, f.weekDay, f.minute)
    then Join(c, s.users)
    else []
  }

  /** The result rows for `classes`, scanned in order against the users and
      the schedule of `s`. */
  function Select(classes: seq<ClassRow>, s: Store, f: Filter): (rows: seq<Row>)
    ensures forall r :: r in rows <==>
      && r.cls in classes
      && r.cls.subject == f.subject
      && Available(s.schedule, r.cls.id, f.weekDay, f.minute)
      && r.owner in s.users
      && r.owner.id == r.cls.userId
  {
    if |classes| == 0 then []
    else
      var init := classes[..|classes| - 1];
      var c := classes[|classes| - 1];
      assert classes == init + [c];
      Select(init, s, f) + RowsOf(c, s, f)
  }

  /** The search over the whole store, in the store order of `classes`. */
  function Search(s: Store, f: Filter): (rows: seq<Row>)
    ensures forall r :: r in rows <==> Matches(s, f, r)
  {
    Select(s.classes, s, f)
  }

  /** `index`: reject a query missing a filter, convert the time, search. */
  function Index(s: Store, q: SearchQuery, conv: Converter): (out: SearchOutcome)
    ensures out == BadRequest(MissingFiltersError) <==> !FiltersGiven(q)
    ensures out.BadRequest? ==> out.error == MissingFiltersError
    ensures out.TimeNotConverted? <==> FiltersGiven(q) && conv(q.time.value).None?
    ensures out.Found? ==>
      && FiltersGiven(q)
      && conv(q.time.value).Some?
      && forall r :: r in out.rows <==>
           Matches(s, Filter(q.subject.value, q.weekDay.value, conv(q.time.value).value), r)
  {
    if !FiltersGiven(q) then BadRequest(MissingFiltersError)
    else
      match conv(q.time.value)
      case None => TimeNotConverted
      case Some(minute) => Found(Search(s, Filter(q.subject.value, q.weekDay.value, minute)))
  }

  /** A query missing a filter is answered without looking at the store or
      converting the time. */
  lemma MissingFiltersSkipStore(s1: Store, s2: Store, q: SearchQuery, conv1: Converter, conv2: Converter)
    requires !FiltersGiven(q)
    ensures Index(s1, q, conv1) == Index(s2, q, conv2) == BadRequest(MissingFiltersError)
  {
  }

  /** Every result has exactly the requested subject. */
  lemma NoCrossSubjectLeak(s: Store, q: SearchQuery, conv: Converter, r: Row)
    requires Index(s, q, conv).Found?
    requires r in Index(s, q, conv).rows
    ensures r.cls.subject == q.subject.value
  {
  }

  /** A slot covers its first minute iff it is non-empty, never covers its end
      minute, and one whose end is not after its start covers nothing. */
  lemma HalfOpenSlot(slot: ScheduleRow, minute: int)
    ensures Covers(slot, slot.classId, slot.weekDay, slot.from) <==> slot.from < slot.to
    ensures !Covers(slot, slot.classId, slot.weekDay, slot.to)
    ensures slot.to <= slot.from ==> !Covers(slot, slot.classId, slot.weekDay, minute)
  {
  }

  /** Back-to-back slots never both cover one minute. */
  lemma BackToBackSlots(a: ScheduleRow, b: ScheduleRow, classId: nat, weekDay: int, minute: int)
    requires a.to == b.from
    ensures !(Covers(a, classId, weekDay, minute) && Covers(b, classId, weekDay, minute))
  {
  }

  /** A weekday on which no slot exists finds nothing, and is not an error. */
  lemma UnscheduledWeekDayFindsNothing(s: Store, q: SearchQuery, conv: Converter)
    requires FiltersGiven(q)
    requires conv(q.time.value).Some?
    requires forall slot :: slot in s.schedule ==> slot.weekDay != q.weekDay.value
    ensures Index(s, q, conv) == Found([])
  {
    NothingCoveredSelectsNothing(s.classes, s, Filter(q.subject.value, q.weekDay.value, conv(q.time.value).value));
  }

  lemma {:induction false} NothingCoveredSelectsNothing(classes: seq<ClassRow>, s: Store, f: Filter)
    requires forall slot :: slot in s.schedule ==> slot.weekDay != f.weekDay
    ensures Select(classes, s, f) == []
  {
    if |classes| > 0 {
      var c := classes[|classes| - 1];
      NothingCoveredSelectsNothing(classes[..|classes| - 1], s, f);
      assert !AnySlotCovers(s.schedule, c.id, f.weekDay, f.minute);
    }
  }

  /** In a well-formed store every class of the subject with a covering slot
      is found, and always with its one owner. */
  lemma EveryMatchingClassFound(s: Store, f: Filter, c: ClassRow)
    requires WellFormed(s)
    requires c in s.classes
    requires c.subject == f.subject
    requires Available(s.schedule, c.id, f.weekDay, f.minute)
    ensures exists u :: Row(c, u) in Search(s, f)
    ensures forall r1, r2 :: r1 in Search(s, f) && r2 in Search(s, f) && r1.cls == c && r2.cls == c ==> r1 == r2
  {
    var u :| u in s.users && u.id == c.userId;
    assert Row(c, u) in Search(s, f);
    forall r1, r2 | r1 in Search(s, f) && r2 in Search(s, f) && r1.cls == c && r2.cls == c
      ensures r1 == r2
    {
      var i :| 0 <= i < |s.users| && s.users[i] == r1.owner;
      var j :| 0 <= j < |s.users| && s.users[j] == r2.owner;
      assert i == j;
    }
  }

  /** A class none of whose users exist joins with nothing. */
  lemma {:induction false} JoinWithoutOwner(c: ClassRow, users: seq<UserRow>)
    requires forall v :: v in users ==> v.id != c.userId
    ensures Join(c, users) == []
  {
    if |users| > 0 {
      var init := users[..|users| - 1];
      assert forall v :: v in init ==> v in users;
      JoinWithoutOwner(c, init);
      assert users[|users| - 1] in users;
    }
  }

  /** With unique user ids a class joins with at most one user. */
  lemma {:induction false} JoinAtMostOne(c: ClassRow, users: seq<UserRow>)
    requires UniqueUserIds(users)
    ensures |Join(c, users)| <= 1
  {
    if |users| > 0 {
      var init := users[..|users| - 1];
      var u := users[|users| - 1];
      assert forall i :: 0 <= i < |init| ==> init[i] == users[i];
      JoinAtMostOne(c, init);
      if u.id == c.userId {
        forall v | v in init
          ensures v.id != c.userId
        {
          var i :| 0 <= i < |init| && init[i] == v;
          assert users[i] == v;
        }
        JoinWithoutOwner(c, init);
      }
    }
  }

  /** With unique user and class ids the scan yields each row once. */
  lemma {:induction false} SelectNoDuplicates(classes: seq<ClassRow>, s: Store, f: Filter)
    requires UniqueUserIds(s.users)
    requires UniqueClassIds(classes)
    ensures NoDuplicates(Select(classes, s, f))
  {
    if |classes| > 0 {
      var n := |classes| - 1;
      var init := classes[..n];
      var c := classes[n];
      assert forall i :: 0 <= i < |init| ==> init[i] == classes[i];
      SelectNoDuplicates(init, s, f);
      var a := Select(init, s, f);
      var b := RowsOf(c, s, f);
      JoinAtMostOne(c, s.users);
      assert |b| <= 1;
      forall r | r in a
        ensures r.cls != c
      {
        var i :| 0 <= i < |init| && init[i] == r.cls;
        assert classes[i].id != classes[n].id;
      }
      assert Select(classes, s, f) == a + b;
      forall i, j | 0 <= i < j < |a + b|
        ensures (a + b)[i] != (a + b)[j]
      {
        if j < |a| {
          assert (a + b)[i] == a[i] && (a + b)[j] == a[j];
        } else {
          assert i < |a|;
          assert (a + b)[i] == a[i] && a[i] in a;
          assert (a + b)[j] == b[j - |a|] && b[j - |a|] in b;
        }
      }
    }
  }

  /** With unique keys every matching class/user pair is found exactly once:
      the result holds no row twice. */
  lemma IndexRowsDistinct(s: Store, q: SearchQuery, conv: Converter)
    requires UniqueUserIds(s.users)
    requires UniqueClassIds(s.classes)
    ensures Index(s, q, conv).Found? ==> NoDuplicates(Index(s, q, conv).rows)
  {
    if FiltersGiven(q) && conv(q.time.value).Some? {
      SelectNoDuplicates(s.classes, s, Filter(q.subject.value, q.weekDay.value, conv(q.time.value).value));
    }
  }
}
