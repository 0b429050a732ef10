/** The daily attendance check (`analyzeAttendance`): who signed in late, how
    many on time, who is missing, over the sign-in log, the roster and the
    leave list. The specification functions come first, then the method that
    performs the check as the component does, then what is proved about it. */
module Attendance {
  import opened Wrappers
  import opened Text
  import opened Records
  import opened Shift
  import opened TimeOfDay
  import opened Matching
  import opened Sorting

  datatype LateRecord = LateRecord(
    name: string, signInTime: string, expectedTime: string,
    minutesLate: nat, department: string, title: string)

  datatype NoSignInRecord = NoSignInRecord(
    name: string, department: string, title: string, location: string)

  datatype Report = Report(
    late: seq<LateRecord>, noSignIn: seq<NoSignInRecord>,
    onTime: nat, totalSignedIn: nat, ptoCount: nat)

  /** The check is refused when the sign-in log or the roster is not loaded. */
  datatype AttendanceError = MissingInputs

  // ---------------------------------------------------------------------------
  // Leave list
  // ---------------------------------------------------------------------------

  /** `ptoData.map(p => name key of p)`: every entry, whatever its status or date. */
  function PtoNameKeys(pto: seq<Record>): (ks: seq<string>)
    ensures |ks| == |pto|
  {
    seq(|pto|, i requires 0 <= i < |pto| => NameKey(Field(pto[i], "First Name"), Field(pto[i], "Last Name")))
  }

  /** `.filter(n => n)`: drops empty strings. */
  function DropEmpty(ks: seq<string>): (r: seq<string>)
    ensures |r| <= |ks|
  {
    if ks == [] then []
    else (if ks[0] != "" then [ks[0]] else []) + DropEmpty(ks[1..])
  }

  /** The leave keys the check consults; none when no leave list is loaded. */
  function PtoKeys(pto: Option<seq<Record>>): seq<string> {
    if pto.Some? then DropEmpty(PtoNameKeys(pto.value)) else []
  }

  // ---------------------------------------------------------------------------
  // One sign-in row
  // ---------------------------------------------------------------------------

  function SignFirst(row: Record): string { Trim(Field(row, "First Name")) }

  function SignLast(row: Record): string { Trim(Field(row, "Last Name")) }

  /** The displayed name of a sign-in, built from the trimmed names. */
  function SignName(row: Record): string { SignFirst(row) + " " + SignLast(row) }

  function SignKey(row: Record): string {
    NameKey(Field(row, "First Name"), Field(row, "Last Name"))
  }

  /** A row takes part in the check: both names non-blank, `Date In` and `In`
      non-empty, and the trimmed date equal to the check date. */
  predicate Qualifies(row: Record, checkDate: string) {
    && SignFirst(row) != "" && SignLast(row) != ""
    && Field(row, "Date In") != "" && Field(row, "In") != ""
    && Trim(Field(row, "Date In")) == checkDate
  }

  /** What one row contributes to the late list and the on-time count. */
  datatype Outcome = Skipped | Unclassified | OnTime | Late(record: LateRecord)

  function RowOutcome(row: Record, roster: seq<Record>, checkDate: string): Outcome {
    if !Qualifies(row, checkDate) then Skipped
    else match ParseTime(Field(row, "In"))
      case None => Unclassified
      case Some(t) =>
        match FindRoster(roster, SignFirst(row), SignLast(row))
        case None => Unclassified
        case Some(k) =>
          var m := roster[k];
          var shift := Classify(Field(m, "Department"));
          if t.InMinutes() > shift.ExpectedMinutes() then
            Late(LateRecord(SignName(row), FormatClock(t), shift.ExpectedLabel(),
                            t.InMinutes() - shift.ExpectedMinutes(),
                            Field(m, "Department"), Field(m, "Job Title Description")))
          else OnTime
  }

  // ---------------------------------------------------------------------------
  // The whole log, row by row
  // ---------------------------------------------------------------------------

  /** The keys of everyone who signed in on the check date. */
  function SignedIn(rows: seq<Record>, checkDate: string): set<string> {
    if rows == [] then {}
    else
      var last := rows[|rows| - 1];
      SignedIn(rows[..|rows| - 1], checkDate) + (if Qualifies(last, checkDate) then {SignKey(last)} else {})
  }

  /** The outcome of every row of the log, in order. */
  function Outcomes(rows: seq<Record>, roster: seq<Record>, checkDate: string): (os: seq<Outcome>)
    ensures |os| == |rows|
  {
    seq(|rows|, i requires 0 <= i < |rows| => RowOutcome(rows[i], roster, checkDate))
  }

  /** The late records among some outcomes, in order. */
  function LateOf(os: seq<Outcome>): seq<LateRecord> {
    if os == [] then []
    else LateOf(os[..|os| - 1]) + (if os[|os| - 1].Late? then [os[|os| - 1].record] else [])
  }

  /** How many of some outcomes equal `o`. */
  function CountOf(os: seq<Outcome>, o: Outcome): nat {
    if os == [] then 0
    else CountOf(os[..|os| - 1], o) + (if os[|os| - 1] == o then 1 else 0)
  }

  /** The late records in row order, before sorting. */
  function LateRecords(rows: seq<Record>, roster: seq<Record>, checkDate: string): seq<LateRecord> {
    LateOf(Outcomes(rows, roster, checkDate))
  }

  function OnTimeCount(rows: seq<Record>, roster: seq<Record>, checkDate: string): nat {
    CountOf(Outcomes(rows, roster, checkDate), OnTime)
  }

  function QualifyingCount(rows: seq<Record>, checkDate: string): nat {
    if rows == [] then 0
    else QualifyingCount(rows[..|rows| - 1], checkDate) + (if Qualifies(rows[|rows| - 1], checkDate) then 1 else 0)
  }

  // ---------------------------------------------------------------------------
  // Absentees
  // ---------------------------------------------------------------------------

  /** An employee counts as active when the lower-cased status mentions
      "existing" or "new hire". */
  predicate IsActive(p: Record) {
    var status := ToLower(Field(p, "Status"));
    Contains(status, "existing") || Contains(status, "new hire")
  }

  /** A roster person is reported missing: both names non-blank, active, and
      the name key neither signed in nor on the leave list. */
  predicate IsAbsent(p: Record, signed: set<string>, ptoKeys: seq<string>) {
    var key := NameKey(Field(p, "First Name"), Field(p, "Last Name"));
    && Trim(Field(p, "First Name")) != "" && Trim(Field(p, "Last Name")) != ""
    && IsActive(p) && key !in signed && key !in ptoKeys
  }

  function AbsenceOf(p: Record): NoSignInRecord {
    NoSignInRecord(
      Trim(Field(p, "First Name")) + " " + Trim(Field(p, "Last Name")),
      Field(p, "Department"), Field(p, "Job Title Description"), Field(p, "School Location"))
  }

  /** The missing list in roster order, before sorting. */
  function Absentees(roster: seq<Record>, signed: set<string>, ptoKeys: seq<string>): seq<NoSignInRecord> {
    if roster == [] then []
    else
      var p := roster[|roster| - 1];
      Absentees(roster[..|roster| - 1], signed, ptoKeys) + (if IsAbsent(p, signed, ptoKeys) then [AbsenceOf(p)] else [])
  }

  /** The roster positions of the absent people, in increasing order. */
  function AbsentIndices(roster: seq<Record>, signed: set<string>, ptoKeys: seq<string>): seq<nat> {
    if roster == [] then []
    else
      var n := |roster| - 1;
      AbsentIndices(roster[..n], signed, ptoKeys) + (if IsAbsent(roster[n], signed, ptoKeys) then [n] else [])
  }

  // ---------------------------------------------------------------------------
  // Sorting and the report
  // ---------------------------------------------------------------------------

  function MinutesLate(r: LateRecord): int { r.minutesLate }

  function AbsentName(r: NoSignInRecord): string { r.name }

  /** `late.sort((a, b) => b.minutesLate - a.minutesLate)`. */
  function SortLate(s: seq<LateRecord>): (r: seq<LateRecord>)
    ensures SortedBy(r, MinutesLate, AtLeast)
    ensures forall m :: WithKey(r, MinutesLate, m) == WithKey(s, MinutesLate, m)
    ensures multiset(r) == multiset(s)
  {
    AtLeastIsTotalOrder();
    StableSort(s, MinutesLate, AtLeast)
  }

  /** `noSignIn.sort((a, b) => a.name.localeCompare(b.name))`. */
  function SortNoSignIn(s: seq<NoSignInRecord>): (r: seq<NoSignInRecord>)
    ensures SortedBy(r, AbsentName, StringLe)
    ensures forall n :: WithKey(r, AbsentName, n) == WithKey(s, AbsentName, n)
    ensures multiset(r) == multiset(s)
  {
    StringLeIsTotalOrder();
    StableSort(s, AbsentName, StringLe)
  }

  /** The report the check produces from loaded data. */
  function ReportOf(rows: seq<Record>, roster: seq<Record>, pto: Option<seq<Record>>, checkDate: string): Report {
    var signed := SignedIn(rows, checkDate);
    Report(
      SortLate(LateRecords(rows, roster, checkDate)),
      SortNoSignIn(Absentees(roster, signed, PtoKeys(pto))),
      OnTimeCount(rows, roster, checkDate),
      |signed|,
      |PtoKeys(pto)|)
  }

  // ---------------------------------------------------------------------------
  // The check as the component performs it
  // ---------------------------------------------------------------------------

  /** `analyzeAttendance`: refuses to run without the sign-in log and the
      roster; otherwise one pass over the log, one over the roster, then the
      two sorts. */
  method AnalyzeAttendance(swipedOn: Option<seq<Record>>, master: Option<seq<Record>>,
                           pto: Option<seq<Record>>, checkDate: string)
    returns (result: Result<Report, AttendanceError>)
    ensures result.Failure? <==> swipedOn.None? || master.None?
    ensures result.Success? ==> result.value == ReportOf(swipedOn.value, master.value, pto, checkDate)
  {
    if swipedOn.None? || master.None? {
      return Failure(MissingInputs);
    }
    var ptoList := PtoKeys(pto);
    var signedInToday, lateList, onTimeList := ScanSignIns(swipedOn.value, master.value, checkDate);
    var noSignInList := CollectAbsentees(master.value, signedInToday, ptoList);
    result := Success(Report(SortLate(lateList), SortNoSignIn(noSignInList), |onTimeList|,
                             |signedInToday|, |ptoList|));
  }

  /** The loop over the sign-in log: fills the signed-in set with every
      qualifying row, and the late and on-time lists with the rows whose time
      parses and whose name is on the roster. */
  method ScanSignIns(rows: seq<Record>, roster: seq<Record>, checkDate: string)
    returns (signedInToday: set<string>, lateList: seq<LateRecord>, onTimeList: seq<string>)
    ensures signedInToday == SignedIn(rows, checkDate)
    ensures lateList == LateRecords(rows, roster, checkDate)
    ensures |onTimeList| == OnTimeCount(rows, roster, checkDate)
  {
    signedInToday, lateList, onTimeList := {}, [], [];
    ghost var os := Outcomes(rows, roster, checkDate);
    var i := 0;
    while i < |rows|
      invariant 0 <= i <= |rows|
      invariant signedInToday == SignedIn(rows[..i], checkDate)
      invariant lateList == LateOf(os[..i])
      invariant |onTimeList| == CountOf(os[..i], OnTime)
    {
      ScanStep(rows, i, checkDate);
      OutcomeStep(os, i);
      var row := rows[i];
      ghost var o := os[i];
      var fname := Trim(Field(row, "First Name"));
      var lname := Trim(Field(row, "Last Name"));
      var dateIn := Field(row, "Date In");
      var timeIn := Field(row, "In");
      if fname != "" && lname != "" && dateIn != "" && timeIn != "" && Trim(dateIn) == checkDate {
        var fullName := fname + " " + lname;
        assert Qualifies(row, checkDate) && ToLower(fullName) == SignKey(row);
        signedInToday := signedInToday + {ToLower(fullName)};
        var timeParts := ParseTime(timeIn);
        if timeParts.None? {
          assert o == Unclassified;
        } else {
          var t := timeParts.value;
          var masterRecord := FindRoster(roster, fname, lname);
          if masterRecord.None? {
            assert o == Unclassified;
          } else {
            var m := roster[masterRecord.value];
            var shift := Classify(Field(m, "Department"));
            var expectedMinutes := shift.ExpectedMinutes();
            if t.InMinutes() > expectedMinutes {
              assert o.Late? && o.record.name == fullName;
              lateList := lateList + [LateRecord(fullName, FormatClock(t), shift.ExpectedLabel(),
                                                 t.InMinutes() - expectedMinutes,
                                                 Field(m, "Department"), Field(m, "Job Title Description"))];
            } else {
              assert o == OnTime;
              onTimeList := onTimeList + [fullName];
            }
          }
        }
      } else {
        assert !Qualifies(row, checkDate) && o == Skipped;
      }
      i := i + 1;
    }
    assert rows[..|rows|] == rows && os[..|rows|] == os;
  }

  /** How the signed-in set grows by one row. */
  lemma ScanStep(rows: seq<Record>, i: nat, checkDate: string)
    requires i < |rows|
    ensures SignedIn(rows[..i + 1], checkDate)
              == SignedIn(rows[..i], checkDate) + (if Qualifies(rows[i], checkDate) then {SignKey(rows[i])} else {})
  {
    assert rows[..i + 1][..i] == rows[..i];
  }

  /** How the late list and the counts grow by one outcome. */
  lemma OutcomeStep(os: seq<Outcome>, i: nat)
    requires i < |os|
    ensures LateOf(os[..i + 1]) == LateOf(os[..i]) + (if os[i].Late? then [os[i].record] else [])
    ensures forall o :: CountOf(os[..i + 1], o) == CountOf(os[..i], o) + (if os[i] == o then 1 else 0)
  {
    assert os[..i + 1][..i] == os[..i];
  }

  /** The loop over the roster: every active person with both names who is
      neither signed in nor on leave. */
  method CollectAbsentees(roster: seq<Record>, signedInToday: set<string>, ptoList: seq<string>)
    returns (noSignInList: seq<NoSignInRecord>)
    ensures noSignInList == Absentees(roster, signedInToday, ptoList)
  {
    noSignInList := [];
    var j := 0;
    while j < |roster|
      invariant 0 <= j <= |roster|
      invariant noSignInList == Absentees(roster[..j], signedInToday, ptoList)
    {
      assert roster[..j + 1][..j] == roster[..j];
      var person := roster[j];
      var fname := Trim(Field(person, "First Name"));
      var lname := Trim(Field(person, "Last Name"));
      if fname != "" && lname != "" {
        var fullName := fname + " " + lname;
        var status := ToLower(Field(person, "Status"));
        var isActive := Contains(status, "existing") || Contains(status, "new hire");
        if isActive {
          var nameLower := ToLower(fullName);
          var signedIn := nameLower in signedInToday;
          var onPto := nameLower in ptoList;
          if !signedIn && !onPto {
            noSignInList := noSignInList + [NoSignInRecord(fullName, Field(person, "Department"),
                                                           Field(person, "Job Title Description"),
                                                           Field(person, "School Location"))];
          }
        }
      }
      j := j + 1;
    }
    assert roster[..|roster|] == roster;
  }
}
