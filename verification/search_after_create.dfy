/** How the two operations of the classes controller meet: what a search sees
    after a registration, committed or rolled back.
 */
module SearchAfterCreate {
  import opened Tables
  import opened ClassSearch
  import opened ClassRegistration

  /** Schedule item `item` of a request, once converted, covers the instant. */
  predicate ItemCovers(item: ScheduleItem, conv: Converter, weekDay: int, minute: int) {
    && item.weekDay == weekDay
    && conv(item.from).Some?
    && conv(item.to).Some?
    && conv(item.from).value <= minute < conv(item.to).value
  }

  ghost predicate SomeItemCovers(items: seq<ScheduleItem>, conv: Converter, weekDay: int, minute: int) {
    exists item :: item in items && ItemCovers(item, conv, weekDay, minute)
  }

  /** After a registration, a class has a covering slot iff it had one
      before, or it is the new class and one of the request's items covers. */
  lemma AvailableAfterCreate(s: Store, s': Store, body: ClassBody, conv: Converter, classId: nat, weekDay: int, minute: int)
    requires AddsListing(s, s', body, conv)
    ensures Available(s'.schedule, classId, weekDay, minute) <==>
      || Available(s.schedule, classId, weekDay, minute)
      || (classId == NextClassId(s) && SomeItemCovers(body.schedule.value, conv, weekDay, minute))
  {
    var items := body.schedule.value;
    var n := |s.schedule|;
    if Available(s'.schedule, classId, weekDay, minute) {
      var slot :| slot in s'.schedule && Covers(slot, classId, weekDay, minute);
      var k :| 0 <= k < |s'.schedule| && s'.schedule[k] == slot;
      if k < n {
        assert slot == s'.schedule[..n][k];
        assert slot in s.schedule;
      } else {
        var i := k - n;
        assert RowOfItem(slot, items[i], NextClassId(s), conv);
        assert items[i] in items && ItemCovers(items[i], conv, weekDay, minute);
      }
    }
    if Available(s.schedule, classId, weekDay, minute) {
      var slot :| slot in s.schedule && Covers(slot, classId, weekDay, minute);
      var k :| 0 <= k < n && s.schedule[k] == slot;
      assert s'.schedule[k] == s'.schedule[..n][k];
      assert slot in s'.schedule;
    }
    if classId == NextClassId(s) && SomeItemCovers(items, conv, weekDay, minute) {
      var item :| item in items && ItemCovers(item, conv, weekDay, minute);
      var i :| 0 <= i < |items| && items[i] == item;
      assert RowOfItem(s'.schedule[n + i], items[i], NextClassId(s), conv);
      assert s'.schedule[n + i] in s'.schedule;
    }
  }

  /** Classes that contribute the same rows in two stores select the same rows. */
  lemma {:induction false} SelectFrame(classes: seq<ClassRow>, s: Store, s': Store, f: Filter)
    requires forall d :: d in classes ==> RowsOf(d, s', f) == RowsOf(d, s, f)
    ensures Select(classes, s', f) == Select(classes, s, f)
  {
    if |classes| > 0 {
      var init := classes[..|classes| - 1];
      assert forall d :: d in init ==> d in classes;
      SelectFrame(init, s, s', f);
      assert classes[|classes| - 1] in classes;
    }
  }

  /** In a well-formed store, a class that existed before a registration
      contributes the same rows after it: the new user and the new slots are
      not its own. */
  lemma OldClassRowsUnchanged(s: Store, s': Store, body: ClassBody, conv: Converter, f: Filter, d: ClassRow)
    requires WellFormed(s)
    requires AddsListing(s, s', body, conv)
    requires d in s.classes
    ensures RowsOf(d, s', f) == RowsOf(d, s, f)
  {
    var v :| v in s.users && v.id == d.userId;
    assert s'.users[..|s'.users| - 1] == s.users;
    assert Join(d, s'.users) == Join(d, s.users);
    AvailableAfterCreate(s, s', body, conv, d.id, f.weekDay, f.minute);
  }

  /** In a well-formed store, the new class contributes one row, joined with
      the new user, exactly when its subject matches and one of the request's
      items covers. */
  lemma NewClassRows(s: Store, s': Store, body: ClassBody, conv: Converter, f: Filter)
    requires WellFormed(s)
    requires AddsListing(s, s', body, conv)
    ensures RowsOf(ListingClass(s, body), s', f) ==
      if body.subject == f.subject && SomeItemCovers(body.schedule.value, conv, f.weekDay, f.minute)
      then [Row(ListingClass(s, body), ListingUser(s, body))]
      else []
  {
    var c := ListingClass(s, body);
    AvailableAfterCreate(s, s', body, conv, c.id, f.weekDay, f.minute);
    forall slot | slot in s.schedule
      ensures slot.classId != c.id
    {
      var d :| d in s.classes && d.id == slot.classId;
    }
    JoinWithoutOwner(c, s.users);
    assert s'.users[..|s'.users| - 1] == s.users;
  }

  /** In a well-formed store, a search after a committed registration finds
      what it found before, in the same order, plus the new listing with its
      tutor when the subject matches and one of the request's items covers
      the instant. (A rolled back registration leaves the store, and so every
      search, unchanged.) */
  lemma SearchAfterCommit(s: Store, s': Store, body: ClassBody, conv: Converter, f: Filter)
    requires WellFormed(s)
    requires AddsListing(s, s', body, conv)
    ensures Search(s', f) ==
      Search(s, f) +
      (if body.subject == f.subject && SomeItemCovers(body.schedule.value, conv, f.weekDay, f.minute)
       then [Row(ListingClass(s, body), ListingUser(s, body))]
       else [])
  {
    forall d | d in s.classes
      ensures RowsOf(d, s', f) == RowsOf(d, s, f)
    {
      OldClassRowsUnchanged(s, s', body, conv, f, d);
    }
    SelectFrame(s.classes, s, s', f);
    assert s'.classes[..|s'.classes| - 1] == s.classes;
    NewClassRows(s, s', body, conv, f);
  }

  /** The listing registered in the walk-through below. */
  const Ana := ClassBody("Ana", "ana.png", "5511999999999", "Biologist", "Biology", 30,
                         Some([ScheduleItem(1, "15:00", "16:00")]))

  const AnaUser := UserRow(1, "Ana", "ana.png", "5511999999999", "Biologist")

  const AnaClass := ClassRow(1, "Biology", 30, 1)

  const AnaStore := Store([AnaUser], [AnaClass], [ScheduleRow(1, 1, 900, 960)])

  /** Registering Ana into an empty store commits her profile, her Biology
      class and the Monday slot [900, 960). */
  lemma RegisterAna(conv: Converter)
    requires conv("15:00") == Some(900)
    requires conv("16:00") == Some(960)
    ensures Create(Store([], [], []), Ana, conv, NoFaults) == CreateResult(AnaStore, Created)
  {
  }

  /** Ana's Biology class is found on Mondays exactly from minute 900 up to,
      not including, minute 960. */
  lemma SearchAnaStore(minute: int)
    ensures Search(AnaStore, Filter("Biology", 1, minute)) ==
      if 900 <= minute < 960 then [Row(AnaClass, AnaUser)] else []
  {
    assert AnaStore.classes[..0] == [];
    assert AnaStore.users[..0] == [];
    assert AnaStore.schedule[..0] == [];
    assert AnySlotCovers(AnaStore.schedule, 1, 1, minute) == (900 <= minute < 960);
    assert Join(AnaClass, AnaStore.users) == [Row(AnaClass, AnaUser)];
    var f := Filter("Biology", 1, minute);
    assert Select(AnaStore.classes, AnaStore, f) == Select([], AnaStore, f) + RowsOf(AnaClass, AnaStore, f);
  }

  /** The registration-then-search walk-through: Ana registers Biology on
      Mondays 15:00-16:00; a search at 15:30 finds exactly her listing, one at
      16:00 finds nothing. */
  lemma RegisterThenSearch(conv: Converter)
    requires conv("15:00") == Some(900)
    requires conv("16:00") == Some(960)
    requires conv("15:30") == Some(930)
    ensures
      var r := Create(Store([], [], []), Ana, conv, NoFaults);
      && r.outcome == Created
      && Index(r.store, SearchQuery(Some("Biology"), Some(1), Some("15:30")), conv) == Found([Row(AnaClass, AnaUser)])
      && Index(r.store, SearchQuery(Some("Biology"), Some(1), Some("16:00")), conv) == Found([])
  {
    RegisterAna(conv);
    SearchAnaStore(930);
    SearchAnaStore(960);
    assert FiltersGiven(SearchQuery(Some("Biology"), Some(1), Some("15:30")));
    assert FiltersGiven(SearchQuery(Some("Biology"), Some(1), Some("16:00")));
  }
}
