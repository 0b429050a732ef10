/** What the attendance check promises, proved about its specification
    functions (and so, through `AnalyzeAttendance`'s postcondition, about the
    method). */
module AttendanceFacts {
  import opened Wrappers
  import opened Text
  import opened Records
  import opened Shift
  import opened TimeOfDay
  import opened Matching
  import opened Sorting
  import opened Attendance

  // ---------------------------------------------------------------------------
  // Counts
  // ---------------------------------------------------------------------------

  /** The signed-in set holds exactly the keys of the qualifying rows, whether
      or not their time parses or their name is on the roster. */
  lemma SignedInExactly(rows: seq<Record>, checkDate: string)
    ensures forall k :: k in SignedIn(rows, checkDate) <==>
              exists i :: 0 <= i < |rows| && Qualifies(rows[i], checkDate) && SignKey(rows[i]) == k
  {
    forall k ensures k in SignedIn(rows, checkDate) <==>
                       exists i :: 0 <= i < |rows| && Qualifies(rows[i], checkDate) && SignKey(rows[i]) == k
    {
      if k in SignedIn(rows, checkDate) {
        SignedInHasWitness(rows, checkDate, k);
      }
    }
    forall i | 0 <= i < |rows| && Qualifies(rows[i], checkDate) ensures SignKey(rows[i]) in SignedIn(rows, checkDate) {
      QualifyingRowSignedIn(rows, checkDate, i);
    }
  }

  lemma {:induction false} SignedInHasWitness(rows: seq<Record>, checkDate: string, k: string)
    requires k in SignedIn(rows, checkDate)
    ensures exists i :: 0 <= i < |rows| && Qualifies(rows[i], checkDate) && SignKey(rows[i]) == k
  {
    var n := |rows| - 1;
    if k in SignedIn(rows[..n], checkDate) {
      SignedInHasWitness(rows[..n], checkDate, k);
      var i :| 0 <= i < n && Qualifies(rows[..n][i], checkDate) && SignKey(rows[..n][i]) == k;
      assert rows[..n][i] == rows[i];
    }
  }

  lemma {:induction false} QualifyingRowSignedIn(rows: seq<Record>, checkDate: string, i: nat)
    requires i < |rows| && Qualifies(rows[i], checkDate)
    ensures SignKey(rows[i]) in SignedIn(rows, checkDate)
  {
    var n := |rows| - 1;
    if i < n {
      assert rows[..n][i] == rows[i];
      QualifyingRowSignedIn(rows[..n], checkDate, i);
    }
  }

  /** `totalSignedIn` is the number of distinct name keys among the qualifying
      rows: duplicates of one person count once. */
  lemma TotalSignedInIsDistinctKeys(rows: seq<Record>, roster: seq<Record>, pto: Option<seq<Record>>, checkDate: string)
    ensures ReportOf(rows, roster, pto, checkDate).totalSignedIn
              == |set i | 0 <= i < |rows| && Qualifies(rows[i], checkDate) :: SignKey(rows[i])|
  {
    SignedInExactly(rows, checkDate);
    assert SignedIn(rows, checkDate) == set i | 0 <= i < |rows| && Qualifies(rows[i], checkDate) :: SignKey(rows[i]);
  }

  lemma {:induction false} DropEmptyKeepsNonEmpty(ks: seq<string>)
    requires forall i :: 0 <= i < |ks| ==> ks[i] != ""
    ensures DropEmpty(ks) == ks
  {
    if ks != [] {
      DropEmptyKeepsNonEmpty(ks[1..]);
      assert ks == [ks[0]] + ks[1..];
    }
  }

  /** Every leave entry has a key (it always contains the separating space),
      so `.filter(n => n)` removes nothing and `ptoCount` is the number of
      entries in the leave list, approved or not and on any date. */
  lemma PtoCountIsEntryCount(rows: seq<Record>, roster: seq<Record>, pto: seq<Record>, checkDate: string)
    ensures PtoKeys(Some(pto)) == PtoNameKeys(pto)
    ensures ReportOf(rows, roster, Some(pto), checkDate).ptoCount == |pto|
  {
    DropEmptyKeepsNonEmpty(PtoNameKeys(pto));
  }

  /** Late rows, on-time rows and unclassified rows together are the
      qualifying rows, so late plus on-time never exceeds them. */
  lemma OutcomeTally(rows: seq<Record>, roster: seq<Record>, checkDate: string)
    ensures |LateRecords(rows, roster, checkDate)| + OnTimeCount(rows, roster, checkDate)
              + CountOf(Outcomes(rows, roster, checkDate), Unclassified) == QualifyingCount(rows, checkDate)
    ensures |LateRecords(rows, roster, checkDate)| + OnTimeCount(rows, roster, checkDate) <= QualifyingCount(rows, checkDate)
  {
    var os := Outcomes(rows, roster, checkDate);
    OutcomesPartition(os);
    SkippedAreNonQualifying(rows, roster, checkDate);
  }

  /** Every outcome is skipped, unclassified, on time or late. */
  lemma {:induction false} OutcomesPartition(os: seq<Outcome>)
    ensures |LateOf(os)| + CountOf(os, OnTime) + CountOf(os, Unclassified) + CountOf(os, Skipped) == |os|
  {
    if os != [] {
      OutcomesPartition(os[..|os| - 1]);
    }
  }

  /** The outcomes of a prefix of the log are a prefix of its outcomes. */
  lemma OutcomesPrefix(rows: seq<Record>, roster: seq<Record>, checkDate: string, n: nat)
    requires n <= |rows|
    ensures Outcomes(rows[..n], roster, checkDate) == Outcomes(rows, roster, checkDate)[..n]
  {
    var os, ps := Outcomes(rows, roster, checkDate), Outcomes(rows[..n], roster, checkDate);
    forall j | 0 <= j < n ensures ps[j] == os[j] {
      assert rows[..n][j] == rows[j];
    }
  }

  /** A row is skipped exactly when it does not qualify, so the skipped and
      the qualifying rows together are the whole log. */
  lemma SkippedAreNonQualifying(rows: seq<Record>, roster: seq<Record>, checkDate: string)
    ensures forall i :: 0 <= i < |rows| ==>
              (Outcomes(rows, roster, checkDate)[i] == Skipped <==> !Qualifies(rows[i], checkDate))
    ensures CountOf(Outcomes(rows, roster, checkDate), Skipped) + QualifyingCount(rows, checkDate) == |rows|
  {
    forall i | 0 <= i < |rows|
      ensures Outcomes(rows, roster, checkDate)[i] == Skipped <==> !Qualifies(rows[i], checkDate)
    {
      RowSkippedIff(rows[i], roster, checkDate);
    }
    SkippedCount(rows, roster, checkDate);
  }

  lemma RowSkippedIff(row: Record, roster: seq<Record>, checkDate: string)
    ensures RowOutcome(row, roster, checkDate) == Skipped <==> !Qualifies(row, checkDate)
  {
  }

  lemma {:induction false} SkippedCount(rows: seq<Record>, roster: seq<Record>, checkDate: string)
    ensures CountOf(Outcomes(rows, roster, checkDate), Skipped) + QualifyingCount(rows, checkDate) == |rows|
  {
    if rows != [] {
      var n := |rows| - 1;
      var os := Outcomes(rows, roster, checkDate);
      SkippedCount(rows[..n], roster, checkDate);
      OutcomesPrefix(rows, roster, checkDate, n);
      OutcomeStep(os, n);
      assert os[..n + 1] == os;
      var o := RowOutcome(rows[n], roster, checkDate);
      assert os[n] == o;
      RowSkippedIff(rows[n], roster, checkDate);
    }
  }

  /** A qualifying row whose time does not parse, or whose name is not on the
      roster, is counted as signed in but classified neither late nor on time. */
  lemma UnclassifiedRowStillSignedIn(rows: seq<Record>, i: nat, roster: seq<Record>, checkDate: string)
    requires i < |rows| && Qualifies(rows[i], checkDate)
    requires ParseTime(Field(rows[i], "In")).None? || FindRoster(roster, SignFirst(rows[i]), SignLast(rows[i])).None?
    ensures SignKey(rows[i]) in SignedIn(rows, checkDate)
    ensures RowOutcome(rows[i], roster, checkDate) == Unclassified
  {
    SignedInExactly(rows, checkDate);
  }

  /** Two identical sign-ins of one on-time person count twice as on time but
      once as signed in: rows are not deduplicated before classification. */
  lemma DuplicateSignInsEachCount(row: Record, roster: seq<Record>, checkDate: string)
    requires RowOutcome(row, roster, checkDate) == OnTime
    ensures OnTimeCount([row, row], roster, checkDate) == 2
    ensures |SignedIn([row, row], checkDate)| == 1
  {
    var os := Outcomes([row, row], roster, checkDate);
    assert os[0] == OnTime && os[1] == OnTime;
    CountOfPair(os, OnTime);
    SignedInPair(row, checkDate);
  }

  lemma CountOfPair(os: seq<Outcome>, o: Outcome)
    requires |os| == 2 && os[0] == o && os[1] == o
    ensures CountOf(os, o) == 2
  {
    var head := os[..1];
    assert head[..0] == [] && head[0] == o;
    assert CountOf(head, o) == 1;
  }

  lemma SignedInPair(row: Record, checkDate: string)
    requires Qualifies(row, checkDate)
    ensures SignedIn([row, row], checkDate) == {SignKey(row)}
  {
    var s := [row, row];
    var head := s[..1];
    assert head[..0] == [] && head[0] == row && s[1] == row;
    assert SignedIn(head, checkDate) == {SignKey(row)};
  }

  // ---------------------------------------------------------------------------
  // Lateness
  // ---------------------------------------------------------------------------

  /** A matched row with a readable time is late exactly when its minutes
      after midnight exceed the shift's threshold (equality is on time); its
      late record carries the excess, the shown time and the shift's label. */
  lemma LatenessRule(row: Record, roster: seq<Record>, checkDate: string)
    requires Qualifies(row, checkDate)
    requires ParseTime(Field(row, "In")).Some?
    requires FindRoster(roster, SignFirst(row), SignLast(row)).Some?
    ensures var t := ParseTime(Field(row, "In")).value;
      var m := roster[FindRoster(roster, SignFirst(row), SignLast(row)).value];
      var shift := Classify(Field(m, "Department"));
      var o := RowOutcome(row, roster, checkDate);
      && (o.Late? <==> t.InMinutes() > shift.ExpectedMinutes())
      && (o == OnTime <==> t.InMinutes() <= shift.ExpectedMinutes())
      && (o.Late? ==>
            && o.record.minutesLate == t.InMinutes() - shift.ExpectedMinutes() >= 1
            && o.record.signInTime == FormatClock(t)
            && o.record.expectedTime == shift.ExpectedLabel()
            && o.record.name == SignName(row)
            && o.record.department == Field(m, "Department")
            && o.record.title == Field(m, "Job Title Description"))
  {
  }

  /** Every record in the late list comes from one row's late outcome, and
      every late outcome is in the list. */
  lemma LateRecordsTrace(rows: seq<Record>, roster: seq<Record>, checkDate: string)
    ensures forall rec :: rec in LateRecords(rows, roster, checkDate) <==>
              exists i :: 0 <= i < |rows| && Outcomes(rows, roster, checkDate)[i] == Late(rec)
  {
    var os := Outcomes(rows, roster, checkDate);
    forall rec ensures rec in LateOf(os) <==> exists i :: 0 <= i < |os| && os[i] == Late(rec)
    {
      if rec in LateOf(os) {
        LateRecordHasOutcome(os, rec);
      }
      if exists i :: 0 <= i < |os| && os[i] == Late(rec) {
        var i :| 0 <= i < |os| && os[i] == Late(rec);
        LateOutcomeListed(os, i);
      }
    }
  }

  lemma {:induction false} LateRecordHasOutcome(os: seq<Outcome>, rec: LateRecord)
    requires rec in LateOf(os)
    ensures exists i :: 0 <= i < |os| && os[i] == Late(rec)
  {
    var n := |os| - 1;
    if rec in LateOf(os[..n]) {
      LateRecordHasOutcome(os[..n], rec);
      var i :| 0 <= i < n && os[..n][i] == Late(rec);
      assert os[i] == Late(rec);
    }
  }

  lemma {:induction false} LateOutcomeListed(os: seq<Outcome>, i: nat)
    requires i < |os| && os[i].Late?
    ensures os[i].record in LateOf(os)
  {
    var n := |os| - 1;
    if i < n {
      assert os[..n][i] == os[i];
      LateOutcomeListed(os[..n], i);
    }
  }

  /** The positions of the late outcomes, in increasing order. */
  function LateIndices(os: seq<Outcome>): seq<nat> {
    if os == [] then []
    else
      var n := |os| - 1;
      LateIndices(os[..n]) + (if os[n].Late? then [n] else [])
  }

  /** The late list has one record per late row, in log order: the k-th
      record is the record of the k-th late row, and a row is counted here
      exactly when its outcome is late. */
  lemma LateListAligned(rows: seq<Record>, roster: seq<Record>, checkDate: string)
    ensures var os := Outcomes(rows, roster, checkDate);
      var ix, late := LateIndices(os), LateRecords(rows, roster, checkDate);
      && |late| == |ix|
      && (forall k :: 0 <= k < |ix| ==> ix[k] < |rows| && os[ix[k]] == Late(late[k]))
      && (forall k1, k2 :: 0 <= k1 < k2 < |ix| ==> ix[k1] < ix[k2])
      && (forall i :: i in ix <==> 0 <= i < |rows| && os[i].Late?)
  {
    var os := Outcomes(rows, roster, checkDate);
    LateIndicesInOrder(os);
    LateOfAlign(os);
    var ix := LateIndices(os);
    forall i ensures i in ix <==> 0 <= i < |os| && os[i].Late? {
      if 0 <= i < |os| && os[i].Late? {
        LateOutcomeIndexed(os, i);
      }
      if i in ix {
        LateIndexIsLate(os, i);
      }
    }
  }

  lemma {:induction false} LateIndicesInOrder(os: seq<Outcome>)
    ensures forall k1, k2 :: 0 <= k1 < k2 < |LateIndices(os)| ==> LateIndices(os)[k1] < LateIndices(os)[k2]
  {
    if os != [] {
      var n := |os| - 1;
      LateIndicesInOrder(os[..n]);
      LateOfAlign(os[..n]);
      var ix0, ix := LateIndices(os[..n]), LateIndices(os);
      assert |os[..n]| == n;
      assert ix == ix0 + (if os[n].Late? then [n] else []);
      forall k1, k2 | 0 <= k1 < k2 < |ix| ensures ix[k1] < ix[k2] {
        if k2 < |ix0| {
          assert ix[k1] == ix0[k1] && ix[k2] == ix0[k2];
        } else {
          assert ix[k1] == ix0[k1] < n && ix[k2] == n;
        }
      }
    }
  }

  lemma {:induction false} LateIndexIsLate(os: seq<Outcome>, i: nat)
    requires i in LateIndices(os)
    ensures i < |os| && os[i].Late?
  {
    var n := |os| - 1;
    if i in LateIndices(os[..n]) {
      LateIndexIsLate(os[..n], i);
      assert os[..n][i] == os[i];
    }
  }

  lemma {:induction false} LateOutcomeIndexed(os: seq<Outcome>, i: nat)
    requires i < |os| && os[i].Late?
    ensures i in LateIndices(os)
  {
    var n := |os| - 1;
    if i < n {
      assert os[..n][i] == os[i];
      LateOutcomeIndexed(os[..n], i);
    }
  }

  lemma {:induction false} LateOfAlign(os: seq<Outcome>)
    ensures var ix, late := LateIndices(os), LateOf(os);
      && |late| == |ix|
      && (forall k :: 0 <= k < |ix| ==> ix[k] < |os| && os[ix[k]] == Late(late[k]))
  {
    if os != [] {
      var n := |os| - 1;
      LateOfAlign(os[..n]);
      var ix0 := LateIndices(os[..n]);
      assert forall k :: 0 <= k < |ix0| ==> os[ix0[k]] == os[..n][ix0[k]];
    }
  }

  /** Every late record is at least one minute late and names one of the two
      expected start times. */
  lemma LateRecordsAreLate(rows: seq<Record>, roster: seq<Record>, checkDate: string)
    ensures forall rec :: rec in LateRecords(rows, roster, checkDate) ==>
              rec.minutesLate >= 1 && (rec.expectedTime == "7:50 AM" || rec.expectedTime == "8:30 AM")
  {
    LateRecordsTrace(rows, roster, checkDate);
    var os := Outcomes(rows, roster, checkDate);
    forall i | 0 <= i < |rows| && os[i].Late?
      ensures os[i].record.minutesLate >= 1 && (os[i].record.expectedTime == "7:50 AM" || os[i].record.expectedTime == "8:30 AM")
    {
      LateOutcomeShape(rows[i], roster, checkDate);
    }
  }

  lemma LateOutcomeShape(row: Record, roster: seq<Record>, checkDate: string)
    requires RowOutcome(row, roster, checkDate).Late?
    ensures var rec := RowOutcome(row, roster, checkDate).record;
      rec.minutesLate >= 1 && (rec.expectedTime == "7:50 AM" || rec.expectedTime == "8:30 AM")
  {
  }

  /** The report's late list: most minutes late first, rows with equal minutes
      in the order of the log, and nothing gained or lost by sorting. */
  lemma ReportLateOrder(rows: seq<Record>, roster: seq<Record>, pto: Option<seq<Record>>, checkDate: string)
    ensures var late, before := ReportOf(rows, roster, pto, checkDate).late, LateRecords(rows, roster, checkDate);
      && (forall i, j :: 0 <= i < j < |late| ==> late[i].minutesLate >= late[j].minutesLate)
      && (forall m :: WithKey(late, MinutesLate, m) == WithKey(before, MinutesLate, m))
      && multiset(late) == multiset(before)
      && (forall rec :: rec in late ==> rec.minutesLate >= 1)
  {
    var late, before := ReportOf(rows, roster, pto, checkDate).late, LateRecords(rows, roster, checkDate);
    LateRecordsAreLate(rows, roster, checkDate);
    forall rec | rec in late ensures rec.minutesLate >= 1 {
      assert rec in multiset(late);
    }
    forall i, j | 0 <= i < j < |late| ensures late[i].minutesLate >= late[j].minutesLate {
      assert AtLeast(MinutesLate(late[i]), MinutesLate(late[j]));
    }
  }

  // ---------------------------------------------------------------------------
  // Absentees
  // ---------------------------------------------------------------------------

  /** The missing list has exactly one entry per absent roster row, in roster
      order: the k-th entry describes the k-th absent row. */
  lemma AbsenteesExactly(roster: seq<Record>, signed: set<string>, ptoKeys: seq<string>)
    ensures var ix, recs := AbsentIndices(roster, signed, ptoKeys), Absentees(roster, signed, ptoKeys);
      && |recs| == |ix|
      && (forall k :: 0 <= k < |ix| ==> ix[k] < |roster| && recs[k] == AbsenceOf(roster[ix[k]]))
      && (forall k1, k2 :: 0 <= k1 < k2 < |ix| ==> ix[k1] < ix[k2])
      && (forall i :: i in ix <==> 0 <= i < |roster| && IsAbsent(roster[i], signed, ptoKeys))
  {
    AbsentIndicesInOrder(roster, signed, ptoKeys);
    AbsenteesAlign(roster, signed, ptoKeys);
    var ix := AbsentIndices(roster, signed, ptoKeys);
    forall i ensures i in ix <==> 0 <= i < |roster| && IsAbsent(roster[i], signed, ptoKeys) {
      if 0 <= i < |roster| && IsAbsent(roster[i], signed, ptoKeys) {
        AbsentRowListed(roster, signed, ptoKeys, i);
      }
      if i in ix {
        AbsentIndexIsAbsent(roster, signed, ptoKeys, i);
      }
    }
  }

  lemma {:induction false} AbsentIndicesInOrder(roster: seq<Record>, signed: set<string>, ptoKeys: seq<string>)
    ensures forall k :: 0 <= k < |AbsentIndices(roster, signed, ptoKeys)| ==> AbsentIndices(roster, signed, ptoKeys)[k] < |roster|
    ensures forall k1, k2 :: 0 <= k1 < k2 < |AbsentIndices(roster, signed, ptoKeys)| ==>
              AbsentIndices(roster, signed, ptoKeys)[k1] < AbsentIndices(roster, signed, ptoKeys)[k2]
  {
    if roster != [] {
      var n := |roster| - 1;
      AbsentIndicesInOrder(roster[..n], signed, ptoKeys);
      var ix0 := AbsentIndices(roster[..n], signed, ptoKeys);
      var ix := AbsentIndices(roster, signed, ptoKeys);
      assert |roster[..n]| == n;
      assert ix == ix0 + (if IsAbsent(roster[n], signed, ptoKeys) then [n] else []);
      forall k1, k2 | 0 <= k1 < k2 < |ix| ensures ix[k1] < ix[k2] {
        if k2 < |ix0| {
          assert ix[k1] == ix0[k1] && ix[k2] == ix0[k2];
        } else {
          assert ix[k1] == ix0[k1] < n && ix[k2] == n;
        }
      }
    }
  }

  lemma {:induction false} AbsentIndexIsAbsent(roster: seq<Record>, signed: set<string>, ptoKeys: seq<string>, i: nat)
    requires i in AbsentIndices(roster, signed, ptoKeys)
    ensures i < |roster| && IsAbsent(roster[i], signed, ptoKeys)
  {
    var n := |roster| - 1;
    if i in AbsentIndices(roster[..n], signed, ptoKeys) {
      AbsentIndexIsAbsent(roster[..n], signed, ptoKeys, i);
      assert roster[..n][i] == roster[i];
    }
  }

  lemma {:induction false} AbsentRowListed(roster: seq<Record>, signed: set<string>, ptoKeys: seq<string>, i: nat)
    requires i < |roster| && IsAbsent(roster[i], signed, ptoKeys)
    ensures i in AbsentIndices(roster, signed, ptoKeys)
  {
    var n := |roster| - 1;
    if i < n {
      assert roster[..n][i] == roster[i];
      AbsentRowListed(roster[..n], signed, ptoKeys, i);
    }
  }

  lemma {:induction false} AbsenteesAlign(roster: seq<Record>, signed: set<string>, ptoKeys: seq<string>)
    ensures var ix, recs := AbsentIndices(roster, signed, ptoKeys), Absentees(roster, signed, ptoKeys);
      && |recs| == |ix|
      && (forall k :: 0 <= k < |ix| ==> ix[k] < |roster| && recs[k] == AbsenceOf(roster[ix[k]]))
  {
    if roster != [] {
      var n := |roster| - 1;
      AbsenteesAlign(roster[..n], signed, ptoKeys);
      var ix0 := AbsentIndices(roster[..n], signed, ptoKeys);
      assert forall k :: 0 <= k < |ix0| ==> roster[ix0[k]] == roster[..n][ix0[k]];
    }
  }

  /** The report's missing list is the absent rows, sorted by name. */
  lemma ReportNoSignIn(rows: seq<Record>, roster: seq<Record>, pto: Option<seq<Record>>, checkDate: string)
    ensures var r := ReportOf(rows, roster, pto, checkDate);
      var before := Absentees(roster, SignedIn(rows, checkDate), PtoKeys(pto));
      && multiset(r.noSignIn) == multiset(before)
      && (forall i, j :: 0 <= i < j < |r.noSignIn| ==> StringLe(r.noSignIn[i].name, r.noSignIn[j].name))
  {
    var r := ReportOf(rows, roster, pto, checkDate);
    forall i, j | 0 <= i < j < |r.noSignIn| ensures StringLe(r.noSignIn[i].name, r.noSignIn[j].name) {
      assert StringLe(AbsentName(r.noSignIn[i]), AbsentName(r.noSignIn[j]));
    }
  }

  /** Someone who signed in on the check date is never reported missing. */
  lemma SignedInNeverAbsent(rows: seq<Record>, i: nat, person: Record, ptoKeys: seq<string>, checkDate: string)
    requires i < |rows| && Qualifies(rows[i], checkDate)
    requires SignKey(rows[i]) == NameKey(Field(person, "First Name"), Field(person, "Last Name"))
    ensures !IsAbsent(person, SignedIn(rows, checkDate), ptoKeys)
  {
    SignedInExactly(rows, checkDate);
  }

  /** A leave entry with the person's name keeps them off the missing list,
      whatever the entry's status and date. */
  lemma LeaveEntrySuppresses(person: Record, signed: set<string>, pto: seq<Record>, j: nat)
    requires j < |pto|
    requires NameKey(Field(pto[j], "First Name"), Field(pto[j], "Last Name"))
               == NameKey(Field(person, "First Name"), Field(person, "Last Name"))
    ensures !IsAbsent(person, signed, PtoKeys(Some(pto)))
  {
    DropEmptyKeepsNonEmpty(PtoNameKeys(pto));
    assert PtoNameKeys(pto)[j] == NameKey(Field(pto[j], "First Name"), Field(pto[j], "Last Name"));
  }
}
