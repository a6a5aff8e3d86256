/** The three tables the classes controller reads and writes (`users`,
    `classes`, `class_schedule`), held as sequences in store order, together
    with a model of the database's id generator and the referential-integrity
    invariants the schema intends.
 */
module Tables {

  datatype Option<+T> = None | Some(value: T)

  /** The hour-to-minute converter the controller imports. Its body is not
      part of this model: it is any function from a wall-clock string to a
      number of minutes, and `None` stands for a string it cannot convert. */
  type Converter = string -> Option<int>

  /** A row of `users`: a tutor's profile. */
  datatype UserRow = UserRow(id: nat, name: string, avatar: string, whatsapp: string, bio: string)

  /** A row of `classes`: one subject a tutor teaches, at a cost, owned by `userId`. */
  datatype ClassRow = ClassRow(id: nat, subject: string, cost: int, userId: nat)

  /** A row of `class_schedule`: a weekly window `[from, to)` in minutes since
      midnight during which class `classId` is available. */
  datatype ScheduleRow = ScheduleRow(classId: nat, weekDay: int, from: int, to: int)

  datatype Store = Store(users: seq<UserRow>, classes: seq<ClassRow>, schedule: seq<ScheduleRow>)

  /** The model's id for the next insert into a table whose ids are `ids`:
      one past the largest id in use, or 1 for an empty table. A real
      database may hand out a larger id (for example after a rolled-back
      insert); what matters to the rest of the model is that it is fresh. */
  function FreshId(ids: seq<nat>): (id: nat)
    ensures 0 < id
    ensures forall k :: 0 <= k < |ids| ==> ids[k] < id
    ensures |ids| == 0 ==> id == 1
    ensures |ids| > 0 ==> id - 1 in ids
  {
    if |ids| == 0 then 1
    else
      var rest := FreshId(ids[1..]);
      if ids[0] < rest then rest else ids[0] + 1
  }

  /** The id the next inserted user receives; no existing user has it. */
  function NextUserId(s: Store): (id: nat)
    ensures forall u :: u in s.users ==> u.id < id
  {
    var ids := seq(|s.users|, k requires 0 <= k < |s.users| => s.users[k].id);
    assert forall k :: 0 <= k < |s.users| ==> ids[k] == s.users[k].id;
    assert forall k :: 0 <= k < |s.users| ==> s.users[k].id < FreshId(ids);
    FreshId(ids)
  }

  /** The id the next inserted class receives; no existing class has it. */
  function NextClassId(s: Store): (id: nat)
    ensures forall c :: c in s.classes ==> c.id < id
  {
    var ids := seq(|s.classes|, k requires 0 <= k < |s.classes| => s.classes[k].id);
    assert forall k :: 0 <= k < |s.classes| ==> ids[k] == s.classes[k].id;
    assert forall k :: 0 <= k < |s.classes| ==> s.classes[k].id < FreshId(ids);
    FreshId(ids)
  }

  /** No element occurs twice in `xs`. */
  predicate NoDuplicates<T(==)>(xs: seq<T>) {
    forall i, j :: 0 <= i < j < |xs| ==> xs[i] != xs[j]
  }

  predicate UniqueUserIds(users: seq<UserRow>) {
    forall i, j :: 0 <= i < |users| && 0 <= j < |users| && i != j ==> users[i].id != users[j].id
  }

  predicate UniqueClassIds(classes: seq<ClassRow>) {
    forall i, j :: 0 <= i < |classes| && 0 <= j < |classes| && i != j ==> classes[i].id != classes[j].id
  }

  /** Every class references an existing user (the `user_id` foreign key). */
  predicate OwnersExist(s: Store) {
    forall c :: c in s.classes ==> exists u :: u in s.users && u.id == c.userId
  }

  /** Every schedule row references an existing class (the `class_id` foreign key). */
  predicate SlotsBelong(s: Store) {
    forall slot :: slot in s.schedule ==> exists c :: c in s.classes && c.id == slot.classId
  }

  /** Primary keys are unique and foreign keys resolve. */
  predicate WellFormed(s: Store) {
    && UniqueUserIds(s.users)
    && UniqueClassIds(s.classes)
    && OwnersExist(s)
    && SlotsBelong(s)
  }

  /** No tutor profile without a listing: the state a registration must never
      leave behind. */
  predicate EveryUserListed(s: Store) {
    forall u :: u in s.users ==> exists c :: c in s.classes && c.userId == u.id
  }
}
