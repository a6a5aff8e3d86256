/** Listing registration of the classes controller (`create`): inside one
    transaction, insert a user, a class of that user and one schedule row per
    schedule item; commit, or roll back and report one generic error.
 */
module ClassRegistration {
  import opened Tables

  const CreationError := "Unexpected error while creating new class"

  /** One entry of the request's `schedule`, times still as wall-clock text. */
  datatype ScheduleItem = ScheduleItem(weekDay: int, from: string, to: string)

  /** The request body. `schedule` is `None` when the body carries no array,
      so that `schedule.map` throws. */
  datatype ClassBody = ClassBody(
    name: string, avatar: string, whatsapp: string, bio: string,
    subject: string, cost: int,
    schedule: Option<seq<ScheduleItem>>)

  /** Which inserts the database rejects (a violated constraint, a lost
      connection): decided outside the controller. */
  datatype StorageFaults = StorageFaults(usersInsert: bool, classesInsert: bool, scheduleInsert: bool)

  const NoFaults := StorageFaults(false, false, false)

  datatype CreateOutcome = Created | Failed(error: string)

  datatype CreateResult = CreateResult(store: Store, outcome: CreateOutcome)

  /** Both times of `item` convert. */
  predicate Convertible(item: ScheduleItem, conv: Converter) {
    conv(item.from).Some? && conv(item.to).Some?
  }

  /** `row` is the schedule row of `item` for class `classId`. */
  predicate RowOfItem(row: ScheduleRow, item: ScheduleItem, classId: nat, conv: Converter) {
    && row.classId == classId
    && row.weekDay == item.weekDay
    && conv(item.from) == Some(row.from)
    && conv(item.to) == Some(row.to)
  }

  /** The `schedule.map(...)` step: the rows to insert for class `classId`,
      or `None` when some time fails to convert. */
  function ConvertSchedule(items: seq<ScheduleItem>, classId: nat, conv: Converter): (rows: Option<seq<ScheduleRow>>)
    ensures rows.Some? <==> forall i :: 0 <= i < |items| ==> Convertible(items[i], conv)
    ensures rows.Some? ==>
      && |rows.value| == |items|
      && forall i :: 0 <= i < |items| ==> RowOfItem(rows.value[i], items[i], classId, conv)
  {
    if |items| == 0 then Some([])
    else
      var item := items[0];
      match (conv(item.from), conv(item.to))
      case (Some(from), Some(to)) =>
        (match ConvertSchedule(items[1..], classId, conv)
         case Some(rest) => Some([ScheduleRow(classId, item.weekDay, from, to)] + rest)
         case None => None)
      case _ => None
  }

  /** The user row a registration inserts into `s`. */
  function ListingUser(s: Store, body: ClassBody): (u: UserRow) {
    UserRow(NextUserId(s), body.name, body.avatar, body.whatsapp, body.bio)
  }

  /** The class row a registration inserts into `s`, owned by its new user. */
  function ListingClass(s: Store, body: ClassBody): (c: ClassRow) {
    ClassRow(NextClassId(s), body.subject, body.cost, NextUserId(s))
  }

  /** Step 1: `users` gets the profile; the transaction's view after it. */
  function InsertUser(s: Store, body: ClassBody): (s': Store) {
    s.(users := s.users + [ListingUser(s, body)])
  }

  /** Step 2: `classes` gets the listing referencing user `userId`. */
  function InsertClass(s: Store, body: ClassBody, userId: nat): (s': Store) {
    s.(classes := s.classes + [ClassRow(NextClassId(s), body.subject, body.cost, userId)])
  }

  /** The statements of the `try` block in order; `None` when one throws. */
  function Transaction(s: Store, body: ClassBody, conv: Converter, faults: StorageFaults): (r: Option<Store>) {
    if faults.usersInsert then None
    else
      var userId := NextUserId(s);
      var afterUser := InsertUser(s, body);
      if faults.classesInsert then None
      else
        var classId := NextClassId(afterUser);
        var afterClass := InsertClass(afterUser, body, userId);
        if body.schedule.None? then None
        else
          match ConvertSchedule(body.schedule.value, classId, conv)
          case None => None
          case Some(rows) =>
            if faults.scheduleInsert then None
            else Some(afterClass.(schedule := afterClass.schedule + rows))
  }

  /** Every step of the transaction goes through. */
  predicate CanCommit(body: ClassBody, conv: Converter, faults: StorageFaults) {
    && !faults.usersInsert
    && !faults.classesInsert
    && !faults.scheduleInsert
    && body.schedule.Some?
    && forall i :: 0 <= i < |body.schedule.value| ==> Convertible(body.schedule.value[i], conv)
  }

  /** `s'` is `s` plus exactly the user, the class and the schedule rows of
      the listing `body`, with the existing rows untouched. */
  ghost predicate AddsListing(s: Store, s': Store, body: ClassBody, conv: Converter) {
    && body.schedule.Some?
    && var items := body.schedule.value;
    && s'.users == s.users + [ListingUser(s, body)]
    && s'.classes == s.classes + [ListingClass(s, body)]
    && |s'.schedule| == |s.schedule| + |items|
    && s'.schedule[..|s.schedule|] == s.schedule
    && forall i :: 0 <= i < |items| ==>
         RowOfItem(s'.schedule[|s.schedule| + i], items[i], NextClassId(s), conv)
  }

  /** `create`: commit the transaction's view, or roll back to `s`. */
  function Create(s: Store, body: ClassBody, conv: Converter, faults: StorageFaults): (r: CreateResult)
    ensures r.outcome.Created? <==> CanCommit(body, conv, faults)
    ensures r.outcome.Failed? ==> r.store == s && r.outcome.error == CreationError
    ensures r.outcome.Created? ==> AddsListing(s, r.store, body, conv)
  {
    match Transaction(s, body, conv, faults)
    case Some(committed) => CreateResult(committed, Created)
    case None => CreateResult(s, Failed(CreationError))
  }

  /** A registration keeps primary keys unique and foreign keys resolving. */
  lemma CreatePreservesWellFormed(s: Store, body: ClassBody, conv: Converter, faults: StorageFaults)
    requires WellFormed(s)
    ensures WellFormed(Create(s, body, conv, faults).store)
  {
  }

  /** Starting from a store where every user has a listing, a registration,
      committed or rolled back, never leaves a user without one. */
  lemma CreateLeavesNoOrphanUser(s: Store, body: ClassBody, conv: Converter, faults: StorageFaults)
    requires EveryUserListed(s)
    ensures EveryUserListed(Create(s, body, conv, faults).store)
  {
  }

  /** Why the rollback matters: when every class's owner exists, the
      transaction's view after step 1 holds a user that no class references. */
  lemma UncommittedUserIsOrphan(s: Store, body: ClassBody)
    requires OwnersExist(s)
    ensures !EveryUserListed(InsertUser(s, body))
  {
  }
}
