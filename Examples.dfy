/**
 * Two of the scenarios of the processor's tests, computed through the
 * model: pickers sorted by activeSince then id, and chilled picks dropped.
 * Instants are small integers in the order of the test's timestamps.
 */
module ProcessorExamples {
  import opened Model
  import opened Grouping
  import opened Sorting
  import opened PickingStreamProcessor
  import JavaStrings

  const John := Picker("1", "john", 100)
  const Dave := Picker("3", "dave", 100)
  const Burt := Picker("4", "burt", 50)

  const Noodle := Article("1", "noodle", Ambient)
  const Sprite := Article("2", "sprite", Ambient)
  const Cheese := Article("3", "cheese", Chilled)
  const Potato := Article("3", "potato", Ambient)

  // Picker sort: john and dave share activeSince, burt is earlier.

  const S1 := PickRequest("1", 1, John, Noodle, 1)
  const S2 := PickRequest("2", 2, Dave, Potato, 1)
  const S3 := PickRequest("3", 3, Burt, Sprite, 1)

  const GJohn := Group(John, [S1])
  const GDave := Group(Dave, [S2])
  const GBurt := Group(Burt, [S3])

  lemma SortScenarioGroupedTwo()
    ensures GroupByPicker([S1, S2]) == [GJohn, GDave]
  {
    assert [S1, S2][..1] == [S1] && [S1][..0] == [];
    assert GroupByPicker([S1]) == [GJohn];
    assert FindGroup([GJohn], Dave) == 1;
  }

  lemma SortScenarioGrouped()
    ensures GroupByPicker([S1, S2, S3]) == [GJohn, GDave, GBurt]
  {
    assert [S1, S2, S3][..2] == [S1, S2];
    SortScenarioGroupedTwo();
    assert FindGroup([GJohn, GDave], Burt) == 2;
  }

  lemma SortScenarioSortedTail()
    ensures SortGroups([GDave, GBurt]) == [GBurt, GDave]
  {
    assert ComparePickers(Dave, Burt) > 0;
    assert [GDave, GBurt][1..] == [GBurt] && [GBurt][1..] == [];
  }

  lemma SortScenarioInsertJohn()
    ensures InsertGroup(GJohn, [GBurt, GDave]) == [GBurt, GJohn, GDave]
  {
    assert JavaStrings.CompareTo("1", "3") < 0;
    assert ComparePickers(John, Burt) > 0 && ComparePickers(John, Dave) < 0;
    assert [GBurt, GDave][1..] == [GDave];
  }

  lemma SortScenarioEntries()
    ensures Entries([S1, S2, S3]) == [GBurt, GJohn, GDave]
  {
    FilterRequiredAll([S1, S2, S3]);
    SortScenarioGrouped();
    SortScenarioSortedTail();
    SortScenarioInsertJohn();
    assert [GJohn, GDave, GBurt][1..] == [GDave, GBurt];
  }

  /** The earlier picker comes first; at equal activeSince, id "1" precedes id "3". */
  lemma PickerSortScenario()
    ensures var out := Process([S1, S2, S3]);
      |out| == 3 && out[0].name == "burt" && out[1].name == "john" && out[2].name == "dave"
  {
    SortScenarioEntries();
  }

  // Filter: one picker, a chilled pick in the third place.

  const F1 := PickRequest("1", 1, John, Noodle, 1)
  const F2 := PickRequest("2", 2, John, Sprite, 1)
  const F3 := PickRequest("3", 3, John, Cheese, 1)
  const F4 := PickRequest("4", 4, John, Potato, 1)

  lemma FilterScenarioFiltered()
    ensures FilterRequired([F1, F2, F3, F4]) == [F1, F2, F4]
  {
    assert [F1, F2, F3, F4][..3] == [F1, F2, F3] && [F1, F2, F3][..2] == [F1, F2];
    FilterRequiredAll([F1, F2]);
  }

  lemma FilterScenarioGroupedTwo()
    ensures GroupByPicker([F1, F2]) == [Group(John, [F1, F2])]
  {
    assert [F1, F2][..1] == [F1] && [F1][..0] == [];
    assert GroupByPicker([F1]) == [Group(John, [F1])];
    assert FindGroup([Group(John, [F1])], John) == 0;
    assert [F1] + [F2] == [F1, F2];
  }

  lemma FilterScenarioGrouped()
    ensures GroupByPicker([F1, F2, F4]) == [Group(John, [F1, F2, F4])]
  {
    assert [F1, F2, F4][..2] == [F1, F2];
    FilterScenarioGroupedTwo();
    assert FindGroup([Group(John, [F1, F2])], John) == 0;
    assert [F1, F2] + [F4] == [F1, F2, F4];
  }

  lemma FilterScenarioPicksSorted()
    ensures SortByTimestamp([F1, F2, F4]) == [F1, F2, F4]
  {
    assert [F1, F2, F4][1..] == [F2, F4] && [F2, F4][1..] == [F4] && [F4][1..] == [];
    assert SortByTimestamp([F4]) == [F4];
    assert SortByTimestamp([F2, F4]) == [F2, F4];
  }

  lemma FilterScenarioEntries()
    ensures Entries([F1, F2, F3, F4]) == [Group(John, [F1, F2, F4])]
  {
    FilterScenarioFiltered();
    FilterScenarioGrouped();
  }

  lemma FilterScenarioSummary()
    ensures Process([F1, F2, F3, F4]) == [PickerWithPicks("john", 100, ToPickResponses([F1, F2, F4]))]
  {
    FilterScenarioEntries();
    FilterScenarioPicksSorted();
  }

  /** The chilled cheese is dropped; the ambient picks come out upper-cased and in time order. */
  lemma FilterChilledScenario()
    ensures var out := Process([F1, F2, F3, F4]);
      |out| == 1 && out[0].name == "john" &&
      |out[0].picks| == 3 &&
      out[0].picks[0].name == "NOODLE" && out[0].picks[1].name == "SPRITE" && out[0].picks[2].name == "POTATO"
  {
    FilterScenarioSummary();
    UpperCaseNames();
    var picks := ToPickResponses([F1, F2, F4]);
    assert picks[0] == ToPickResponse(F1) && picks[1] == ToPickResponse(F2) && picks[2] == ToPickResponse(F4);
  }

  lemma UpperCaseNames()
    ensures JavaStrings.ToUpperCase("noodle") == "NOODLE"
    ensures JavaStrings.ToUpperCase("sprite") == "SPRITE"
    ensures JavaStrings.ToUpperCase("potato") == "POTATO"
  {
    UpperCaseOf("noodle", "NOODLE");
    UpperCaseOf("sprite", "SPRITE");
    UpperCaseOf("potato", "POTATO");
  }

  lemma UpperCaseOf(s: string, u: string)
    requires |s| == |u|
    requires forall i :: 0 <= i < |s| ==> JavaStrings.IsLowerAscii(s[i]) && u[i] as int == s[i] as int - 32
    ensures JavaStrings.ToUpperCase(s) == u
  {
  }
}
