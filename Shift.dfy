/** The department classifier. Both the attendance check and the schedule
    lookup decide a person's start time from the free-text department. */
module Shift {
  import opened Text

  datatype Shift = Instructional | NonInstructional {

    /** Expected sign-in time, in minutes after midnight. */
    function ExpectedMinutes(): nat {
      if Instructional? then 470 else 510
    }

    /** The expected time as shown in the late list. */
    function ExpectedLabel(): string {
      if Instructional? then "7:50 AM" else "8:30 AM"
    }

    /** The schedule text shown when the schedule sheet has nothing usable. */
    function DefaultSchedule(): string {
      if Instructional? then "7:50 AM - 3:50 PM (Instructional)"
      else "8:30 AM - 4:30 PM (Non-Instructional)"
    }
  }

  /** The keyword test, on an already lower-cased department string. */
  predicate HasInstructionalKeyword(lowerDept: string) {
    || Contains(lowerDept, "instructional")
    || Contains(lowerDept, "support services")
    || Contains(lowerDept, "curriculum")
    || Contains(lowerDept, "counseling")
  }

  /** Classifies a department string (the caller passes `Department || ''`). */
  function Classify(dept: string): Shift {
    if HasInstructionalKeyword(ToLower(dept)) then Instructional else NonInstructional
  }

  /** A department is instructional exactly when one of the four keywords
      starts at some position of its lower-cased text; otherwise, the empty
      department included, it is non-instructional. */
  lemma ClassifyByOccurrence(dept: string)
    ensures Classify(dept) == Instructional <==>
              exists i :: || OccursAt(ToLower(dept), "instructional", i)
                          || OccursAt(ToLower(dept), "support services", i)
                          || OccursAt(ToLower(dept), "curriculum", i)
                          || OccursAt(ToLower(dept), "counseling", i)
    ensures Classify("") == NonInstructional
  {
    var d := ToLower(dept);
    ContainsIff(d, "instructional");
    ContainsIff(d, "support services");
    ContainsIff(d, "curriculum");
    ContainsIff(d, "counseling");
  }

  /** Letter case does not matter to the classifier. */
  lemma ClassifyIgnoresCase(dept: string)
    ensures Classify(ToLower(dept)) == Classify(dept)
  {
    ToLowerIdempotent(dept);
  }

  /** Surrounding text never turns an instructional department into a
      non-instructional one. */
  lemma ClassifyKeepsKeywordInContext(p: string, dept: string, q: string)
    requires Classify(dept) == Instructional
    ensures Classify(p + dept + q) == Instructional
  {
    ToLowerConcat(p + dept, q);
    ToLowerConcat(p, dept);
    var d := ToLower(dept);
    assert ToLower(p + dept + q) == ToLower(p) + d + ToLower(q);
    forall kw | kw in ["instructional", "support services", "curriculum", "counseling"] && Contains(d, kw)
      ensures Contains(ToLower(p) + d + ToLower(q), kw)
    {
      ContainsInContext(ToLower(p), d, ToLower(q), kw);
    }
  }

  /** The label and the minute threshold name the same time of day, and the
      default schedule text begins with that label. */
  lemma ExpectedLabelMatchesMinutes(s: Shift)
    ensures AllDigits(s.ExpectedLabel()[..1]) && AllDigits(s.ExpectedLabel()[2..4])
    ensures s.ExpectedLabel()[1] == ':' && s.ExpectedLabel()[4..] == " AM"
    ensures ParseNat(s.ExpectedLabel()[..1]) * 60 + ParseNat(s.ExpectedLabel()[2..4]) == s.ExpectedMinutes()
    ensures s.ExpectedLabel() <= s.DefaultSchedule()
  {
    var l := s.ExpectedLabel();
    assert l[2..4][..1] == l[2..3];
  }
}
