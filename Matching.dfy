/** Identity matching by name: `Array.prototype.find` over the roster (for a
    sign-in row) and over the schedule sheet (for a roster person). The first
    row that matches wins; later duplicates are never seen. */
module Matching {
  import opened Wrappers
  import opened Text
  import opened Records

  /** `Array.prototype.find`, returning the index of the first element at or
      after `from` that satisfies `p`. */
  function FindFirst<T>(s: seq<T>, p: T -> bool, from: nat): (r: Option<nat>)
    requires from <= |s|
    ensures r.Some? ==> from <= r.value < |s| && p(s[r.value])
    ensures r.Some? ==> forall j :: from <= j < r.value ==> !p(s[j])
    ensures r.None? ==> forall j :: from <= j < |s| ==> !p(s[j])
    decreases |s| - from
  {
    if from == |s| then None
    else if p(s[from]) then Some(from)
    else FindFirst(s, p, from + 1)
  }

  // ---------------------------------------------------------------------------
  // Roster match for a sign-in row
  // ---------------------------------------------------------------------------

  /** The roster predicate of the attendance check; `fname` and `lname` are the
      sign-in row's already-trimmed names. */
  predicate RosterRowMatches(m: Record, fname: string, lname: string) {
    && ToLower(Trim(Field(m, "First Name"))) == ToLower(fname)
    && ToLower(Trim(Field(m, "Last Name"))) == ToLower(lname)
  }

  /** The roster row a sign-in belongs to: the first whose trimmed,
      lower-cased names equal the sign-in's; none when no row does. */
  function FindRoster(roster: seq<Record>, fname: string, lname: string): (r: Option<nat>)
    ensures r.Some? ==> r.value < |roster| && RosterRowMatches(roster[r.value], fname, lname)
    ensures r.Some? ==> forall j :: 0 <= j < r.value ==> !RosterRowMatches(roster[j], fname, lname)
    ensures r.None? <==> forall j :: 0 <= j < |roster| ==> !RosterRowMatches(roster[j], fname, lname)
  {
    var p := (m: Record) => RosterRowMatches(m, fname, lname);
    assert forall j :: 0 <= j < |roster| ==> p(roster[j]) == RosterRowMatches(roster[j], fname, lname);
    FindFirst(roster, p, 0)
  }

  // ---------------------------------------------------------------------------
  // Schedule match for a roster person
  // ---------------------------------------------------------------------------

  /** The first name of a schedule row: the named column, else the first
      positional column, lower-cased and trimmed. */
  function ScheduleFirst(s: Record): string {
    Trim(ToLower(Pick(Field(s, "First Name"), Field(s, "_1"))))
  }

  /** The last name of a schedule row: the named column, else the second
      positional column, lower-cased and trimmed. */
  function ScheduleLast(s: Record): string {
    Trim(ToLower(Pick(Field(s, "Last Name"), Field(s, "_2"))))
  }

  /** A header row that the sheet parser kept as data. */
  predicate IsHeaderRow(s: Record) {
    ScheduleFirst(s) == "first name" || ScheduleFirst(s) == "firstname"
  }

  predicate ScheduleRowMatches(s: Record, person: Record) {
    && !IsHeaderRow(s)
    && ScheduleFirst(s) == Trim(ToLower(Field(person, "First Name")))
    && ScheduleLast(s) == Trim(ToLower(Field(person, "Last Name")))
  }

  /** The schedule row for a roster person: the first non-header row whose
      extracted names equal the person's; none when no row does. */
  function FindSchedule(rows: seq<Record>, person: Record): (r: Option<nat>)
    ensures r.Some? ==> r.value < |rows| && ScheduleRowMatches(rows[r.value], person)
    ensures r.Some? ==> forall j :: 0 <= j < r.value ==> !ScheduleRowMatches(rows[j], person)
    ensures r.None? <==> forall j :: 0 <= j < |rows| ==> !ScheduleRowMatches(rows[j], person)
  {
    var p := (s: Record) => ScheduleRowMatches(s, person);
    assert forall j :: 0 <= j < |rows| ==> p(rows[j]) == ScheduleRowMatches(rows[j], person);
    FindFirst(rows, p, 0)
  }

  /** A header row is never a person's schedule row, whatever the person's
      name, even a person whose first name is "First Name". */
  lemma HeaderRowNeverMatches(rows: seq<Record>, person: Record)
    requires forall j :: 0 <= j < |rows| ==> IsHeaderRow(rows[j])
    ensures FindSchedule(rows, person).None?
  {
  }

  /** The two matchers normalise a name the same way: the schedule matcher's
      lower-then-trim equals the roster matcher's trim-then-lower. */
  lemma MatchersNormaliseAlike(name: string)
    ensures Trim(ToLower(name)) == ToLower(Trim(name))
  {
    TrimToLowerCommute(name);
  }
}
