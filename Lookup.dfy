/** The schedule lookup (`lookupSchedule`): every roster person whose full
    name contains the search text, each with the schedule the schedule sheet
    gives them, or else the default for their department. */
module Lookup {
  import opened Wrappers
  import opened Text
  import opened Records
  import opened Shift
  import opened Matching

  datatype ScheduleInfo = ScheduleInfo(
    name: string, title: string, department: string, location: string, schedule: string)

  /** The lookup is refused when the search text is blank. */
  datatype LookupError = EmptyQuery

  // ---------------------------------------------------------------------------
  // Which roster people match
  // ---------------------------------------------------------------------------

  /** The lower-cased `"first last"` of a roster person (missing names as ""),
      searched for the lower-cased search text as it was typed, untrimmed. */
  predicate NameMatches(person: Record, search: string) {
    Contains(ToLower(Field(person, "First Name") + " " + Field(person, "Last Name")), ToLower(search))
  }

  /** `masterData.filter(...)`: the matching people in roster order. */
  function Found(master: seq<Record>, search: string): seq<Record> {
    if master == [] then []
    else
      var n := |master| - 1;
      Found(master[..n], search) + (if NameMatches(master[n], search) then [master[n]] else [])
  }

  /** The roster positions of the matching people, in increasing order. */
  function FoundIndices(master: seq<Record>, search: string): seq<nat> {
    if master == [] then []
    else
      var n := |master| - 1;
      FoundIndices(master[..n], search) + (if NameMatches(master[n], search) then [n] else [])
  }

  // ---------------------------------------------------------------------------
  // The schedule of one person
  // ---------------------------------------------------------------------------

  /** The schedule cell of a schedule row: the named column, else the third
      positional column. */
  function ScheduleValue(s: Record): string {
    Pick(Field(s, "Schedule"), Field(s, "_3"))
  }

  /** A schedule cell is used unless it is empty or is the column heading. */
  predicate Usable(v: string) {
    v != "" && ToLower(v) != "schedule"
  }

  /** The schedule the sheet gives a person, if it gives a usable one. */
  function SheetSchedule(person: Record, schedule: Option<seq<Record>>): Option<string> {
    if schedule.None? then None
    else match FindSchedule(schedule.value, person)
      case None => None
      case Some(k) =>
        var v := ScheduleValue(schedule.value[k]);
        if Usable(v) then Some(v) else None
  }

  /** The sheet's schedule, else the default for the person's department. */
  function ScheduleFor(person: Record, schedule: Option<seq<Record>>): string {
    match SheetSchedule(person, schedule)
    case Some(v) => v
    case None => Classify(Field(person, "Department")).DefaultSchedule()
  }

  /** The entry shown for one person; the name is interpolated without a
      fallback, so a missing name column shows as "undefined". */
  function EntryFor(person: Record, schedule: Option<seq<Record>>): ScheduleInfo {
    ScheduleInfo(
      Display(person, "First Name") + " " + Display(person, "Last Name"),
      Field(person, "Job Title Description"), Field(person, "Department"),
      Field(person, "School Location"), ScheduleFor(person, schedule))
  }

  /** The entries of the matching people, in roster order. */
  function Entries(master: seq<Record>, search: string, schedule: Option<seq<Record>>): (r: seq<ScheduleInfo>)
    ensures |r| == |Found(master, search)|
  {
    var found := Found(master, search);
    seq(|found|, i requires 0 <= i < |found| => EntryFor(found[i], schedule))
  }

  // ---------------------------------------------------------------------------
  // The lookup as the component performs it
  // ---------------------------------------------------------------------------

  /** `lookupSchedule`: refuses a blank search; with no roster loaded the
      result is empty; otherwise one entry per matching roster person. */
  method LookupSchedule(search: string, master: Option<seq<Record>>, schedule: Option<seq<Record>>)
    returns (result: Result<seq<ScheduleInfo>, LookupError>)
    ensures result.Failure? <==> Trim(search) == ""
    ensures result.Success? && master.None? ==> result.value == []
    ensures result.Success? && master.Some? ==> result.value == Entries(master.value, search, schedule)
  {
    if Trim(search) == "" {
      return Failure(EmptyQuery);
    }
    var results: seq<ScheduleInfo> := [];
    if master.Some? {
      var found := FilterByName(master.value, search);
      ghost var es := Entries(master.value, search, schedule);
      var j := 0;
      while j < |found|
        invariant 0 <= j <= |found| == |es|
        invariant results == es[..j]
      {
        assert es[j] == EntryFor(found[j], schedule);
        results := results + [EntryFor(found[j], schedule)];
        j := j + 1;
      }
      assert es[..|found|] == es;
    }
    result := Success(results);
  }

  /** The filter over the roster. */
  method FilterByName(master: seq<Record>, search: string) returns (found: seq<Record>)
    ensures found == Found(master, search)
  {
    found := [];
    var i := 0;
    while i < |master|
      invariant 0 <= i <= |master|
      invariant found == Found(master[..i], search)
    {
      assert master[..i + 1][..i] == master[..i];
      if NameMatches(master[i], search) {
        found := found + [master[i]];
      }
      i := i + 1;
    }
    assert master[..|master|] == master;
  }

  // ---------------------------------------------------------------------------
  // What the lookup promises
  // ---------------------------------------------------------------------------

  /** The lookup lists exactly the matching roster people, once each, in
      roster order: the k-th entry describes the k-th matching row. */
  lemma FoundExactly(master: seq<Record>, search: string, schedule: Option<seq<Record>>)
    ensures var ix, es := FoundIndices(master, search), Entries(master, search, schedule);
      && |es| == |ix|
      && (forall k :: 0 <= k < |ix| ==> ix[k] < |master| && es[k] == EntryFor(master[ix[k]], schedule))
      && (forall k1, k2 :: 0 <= k1 < k2 < |ix| ==> ix[k1] < ix[k2])
      && (forall i :: i in ix <==> 0 <= i < |master| && NameMatches(master[i], search))
  {
    FoundIndicesInOrder(master, search);
    FoundAlign(master, search);
    var ix := FoundIndices(master, search);
    forall i ensures i in ix <==> 0 <= i < |master| && NameMatches(master[i], search) {
      if 0 <= i < |master| && NameMatches(master[i], search) {
        MatchingRowFound(master, search, i);
      }
      if i in ix {
        FoundIndexMatches(master, search, i);
      }
    }
  }

  lemma {:induction false} FoundIndicesInOrder(master: seq<Record>, search: string)
    ensures forall k :: 0 <= k < |FoundIndices(master, search)| ==> FoundIndices(master, search)[k] < |master|
    ensures forall k1, k2 :: 0 <= k1 < k2 < |FoundIndices(master, search)| ==>
              FoundIndices(master, search)[k1] < FoundIndices(master, search)[k2]
  {
    if master != [] {
      var n := |master| - 1;
      FoundIndicesInOrder(master[..n], search);
      var ix0, ix := FoundIndices(master[..n], search), FoundIndices(master, search);
      assert |master[..n]| == n;
      assert ix == ix0 + (if NameMatches(master[n], search) then [n] else []);
      forall k1, k2 | 0 <= k1 < k2 < |ix| ensures ix[k1] < ix[k2] {
        if k2 < |ix0| {
          assert ix[k1] == ix0[k1] && ix[k2] == ix0[k2];
        } else {
          assert ix[k1] == ix0[k1] < n && ix[k2] == n;
        }
      }
    }
  }

  lemma {:induction false} FoundIndexMatches(master: seq<Record>, search: string, i: nat)
    requires i in FoundIndices(master, search)
    ensures i < |master| && NameMatches(master[i], search)
  {
    var n := |master| - 1;
    if i in FoundIndices(master[..n], search) {
      FoundIndexMatches(master[..n], search, i);
      assert master[..n][i] == master[i];
    }
  }

  lemma {:induction false} MatchingRowFound(master: seq<Record>, search: string, i: nat)
    requires i < |master| && NameMatches(master[i], search)
    ensures i in FoundIndices(master, search)
  {
    var n := |master| - 1;
    if i < n {
      assert master[..n][i] == master[i];
      MatchingRowFound(master[..n], search, i);
    }
  }

  lemma {:induction false} FoundAlign(master: seq<Record>, search: string)
    ensures var ix, found := FoundIndices(master, search), Found(master, search);
      && |found| == |ix|
      && (forall k :: 0 <= k < |ix| ==> ix[k] < |master| && found[k] == master[ix[k]])
  {
    if master != [] {
      var n := |master| - 1;
      FoundAlign(master[..n], search);
      var ix0 := FoundIndices(master[..n], search);
      assert forall k :: 0 <= k < |ix0| ==> master[ix0[k]] == master[..n][ix0[k]];
    }
  }

  /** Letter case in the search text does not matter. */
  lemma SearchIgnoresCase(person: Record, search: string)
    ensures NameMatches(person, ToLower(search)) == NameMatches(person, search)
  {
    ToLowerIdempotent(search);
  }

  /** The search text is not trimmed before matching: a trailing space only
      matches where a space follows in the name, so "smith " finds nobody
      named exactly John Smith, although the search as a whole is accepted. */
  lemma SearchIsNotTrimmed(person: Record)
    requires Field(person, "First Name") == "John" && Field(person, "Last Name") == "Smith"
    ensures Trim("smith ") != ""
    ensures !NameMatches(person, "smith ")
    ensures NameMatches(person, "smith")
  {
    var full := Field(person, "First Name") + " " + Field(person, "Last Name");
    assert ToLower(full) == "john smith" && ToLower("smith ") == "smith " && ToLower("smith") == "smith" by {
      assert full == "John Smith";
      LowerJohnSmith();
    }
    NoTrailingSpaceMatch();
    assert Contains("john smith", "smith") by {
      ContainsInContext("john ", "smith", "", "smith");
      assert "john " + "smith" + "" == "john smith";
    }
    SmithNotBlank();
  }

  lemma SmithNotBlank()
    ensures Trim("smith ") != ""
  {
    assert TrimStart("smith ") == "smith ";
  }

  lemma LowerJohnSmith()
    ensures ToLower("John Smith") == "john smith"
    ensures ToLower("smith ") == "smith " && ToLower("smith") == "smith"
  {
  }

  lemma NoTrailingSpaceMatch()
    ensures !Contains("john smith", "smith ")
  {
    var full := "john smith";
    ContainsIff(full, "smith ");
    forall i | 0 <= i <= 4 ensures !OccursAt(full, "smith ", i) {
      assert full[i + 5] != ' ';
      assert full[i..i + 6][5] == full[i + 5];
    }
  }

  /** A usable cell of the person's schedule row is shown verbatim. */
  lemma SheetScheduleShown(person: Record, rows: seq<Record>, k: nat)
    requires FindSchedule(rows, person) == Some(k)
    requires Usable(ScheduleValue(rows[k]))
    ensures ScheduleFor(person, Some(rows)) == ScheduleValue(rows[k])
  {
  }

  /** Without a usable schedule cell, the schedule is the department's
      default, which is always one of the two fixed texts. */
  lemma DepartmentDefault(person: Record, schedule: Option<seq<Record>>)
    requires schedule.None? || FindSchedule(schedule.value, person).None?
             || !Usable(ScheduleValue(schedule.value[FindSchedule(schedule.value, person).value]))
    ensures ScheduleFor(person, schedule) == Classify(Field(person, "Department")).DefaultSchedule()
    ensures ScheduleFor(person, schedule) in {"7:50 AM - 3:50 PM (Instructional)", "8:30 AM - 4:30 PM (Non-Instructional)"}
  {
  }

  /** A schedule sheet that holds only header rows gives everyone the
      default for their department. */
  lemma HeaderOnlySheetDefaults(person: Record, rows: seq<Record>)
    requires forall j :: 0 <= j < |rows| ==> IsHeaderRow(rows[j])
    ensures ScheduleFor(person, Some(rows)) == Classify(Field(person, "Department")).DefaultSchedule()
  {
    HeaderRowNeverMatches(rows, person);
  }

  /** A person whose department names instructional work gets the
      instructional default when the sheet has nothing for them. */
  lemma InstructionalDefault(person: Record)
    requires Contains(ToLower(Field(person, "Department")), "instructional")
    ensures ScheduleFor(person, None) == "7:50 AM - 3:50 PM (Instructional)"
  {
  }
}
