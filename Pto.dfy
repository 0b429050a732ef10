/** The leave-request filter of the leave-list import: from the requests
    extracted from the leave system's page, keep the approved ones that name
    a person and a date, as leave list entries. */
module Pto {
  import opened Wrappers
  import opened Text
  import opened Records
  import opened Attendance
  import opened AttendanceFacts

  /** One extracted request: the `Status` attribute and the text of the first
      `TimeOffDate`, `Firstname` and `Lastname` elements, each absent when the
      page does not have it. */
  datatype Request = Request(
    status: Option<string>, timeOffDate: Option<string>,
    firstname: Option<string>, lastname: Option<string>)

  /** The import is refused when no request survives the filter. */
  datatype PtoError = NoRecords

  /** A JavaScript-truthy text: present and non-empty (blank text passes). */
  predicate Present(x: Option<string>) {
    x.Some? && x.value != ""
  }

  /** The request is approved and has all three fields. */
  predicate Eligible(r: Request) {
    r.status == Some("Approved") && Present(r.firstname) && Present(r.lastname) && Present(r.timeOffDate)
  }

  /** The leave list entry for an eligible request, its fields trimmed. */
  function Entry(r: Request): Record
    requires Eligible(r)
  {
    map["First Name" := Trim(r.firstname.value), "Last Name" := Trim(r.lastname.value),
        "Date" := Trim(r.timeOffDate.value), "Status" := r.status.value]
  }

  /** The entries of the eligible requests, in request order. */
  function Entries(reqs: seq<Request>): seq<Record> {
    if reqs == [] then []
    else
      var n := |reqs| - 1;
      Entries(reqs[..n]) + (if Eligible(reqs[n]) then [Entry(reqs[n])] else [])
  }

  /** The request positions of the eligible requests, in increasing order. */
  function EligibleIndices(reqs: seq<Request>): seq<nat> {
    if reqs == [] then []
    else
      var n := |reqs| - 1;
      EligibleIndices(reqs[..n]) + (if Eligible(reqs[n]) then [n] else [])
  }

  /** The filter loop: the leave list, or a refusal when it is empty. */
  method FilterRequests(reqs: seq<Request>) returns (result: Result<seq<Record>, PtoError>)
    ensures result.Failure? <==> Entries(reqs) == []
    ensures result.Success? ==> result.value == Entries(reqs)
  {
    var ptoList: seq<Record> := [];
    var i := 0;
    while i < |reqs|
      invariant 0 <= i <= |reqs|
      invariant ptoList == Entries(reqs[..i])
    {
      assert reqs[..i + 1][..i] == reqs[..i];
      var req := reqs[i];
      if req.status == Some("Approved") {
        var dateOff, firstName, lastName := req.timeOffDate, req.firstname, req.lastname;
        if Present(firstName) && Present(lastName) && Present(dateOff) {
          ptoList := ptoList + [map["First Name" := Trim(firstName.value), "Last Name" := Trim(lastName.value),
                                    "Date" := Trim(dateOff.value), "Status" := req.status.value]];
        }
      }
      i := i + 1;
    }
    assert reqs[..|reqs|] == reqs;
    if |ptoList| == 0 {
      return Failure(NoRecords);
    }
    result := Success(ptoList);
  }

  // ---------------------------------------------------------------------------
  // What the filter promises
  // ---------------------------------------------------------------------------

  /** The leave list has exactly one entry per eligible request, in request
      order: the k-th entry comes from the k-th eligible request. */
  lemma EntriesExactly(reqs: seq<Request>)
    ensures var ix, es := EligibleIndices(reqs), Entries(reqs);
      && |es| == |ix|
      && (forall k :: 0 <= k < |ix| ==> ix[k] < |reqs| && Eligible(reqs[ix[k]]) && es[k] == Entry(reqs[ix[k]]))
      && (forall k1, k2 :: 0 <= k1 < k2 < |ix| ==> ix[k1] < ix[k2])
      && (forall i :: i in ix <==> 0 <= i < |reqs| && Eligible(reqs[i]))
  {
    IndicesInOrder(reqs);
    EntriesAlign(reqs);
    var ix := EligibleIndices(reqs);
    forall i ensures i in ix <==> 0 <= i < |reqs| && Eligible(reqs[i]) {
      if 0 <= i < |reqs| && Eligible(reqs[i]) {
        EligibleRequestListed(reqs, i);
      }
      if i in ix {
        ListedRequestEligible(reqs, i);
      }
    }
  }

  lemma {:induction false} IndicesInOrder(reqs: seq<Request>)
    ensures forall k :: 0 <= k < |EligibleIndices(reqs)| ==> EligibleIndices(reqs)[k] < |reqs|
    ensures forall k1, k2 :: 0 <= k1 < k2 < |EligibleIndices(reqs)| ==> EligibleIndices(reqs)[k1] < EligibleIndices(reqs)[k2]
  {
    if reqs != [] {
      var n := |reqs| - 1;
      IndicesInOrder(reqs[..n]);
      var ix0, ix := EligibleIndices(reqs[..n]), EligibleIndices(reqs);
      assert |reqs[..n]| == n;
      assert ix == ix0 + (if Eligible(reqs[n]) then [n] else []);
      forall k1, k2 | 0 <= k1 < k2 < |ix| ensures ix[k1] < ix[k2] {
        if k2 < |ix0| {
          assert ix[k1] == ix0[k1] && ix[k2] == ix0[k2];
        } else {
          assert ix[k1] == ix0[k1] < n && ix[k2] == n;
        }
      }
    }
  }

  lemma {:induction false} ListedRequestEligible(reqs: seq<Request>, i: nat)
    requires i in EligibleIndices(reqs)
    ensures i < |reqs| && Eligible(reqs[i])
  {
    var n := |reqs| - 1;
    if i in EligibleIndices(reqs[..n]) {
      ListedRequestEligible(reqs[..n], i);
      assert reqs[..n][i] == reqs[i];
    }
  }

  lemma {:induction false} EligibleRequestListed(reqs: seq<Request>, i: nat)
    requires i < |reqs| && Eligible(reqs[i])
    ensures i in EligibleIndices(reqs)
  {
    var n := |reqs| - 1;
    if i < n {
      assert reqs[..n][i] == reqs[i];
      EligibleRequestListed(reqs[..n], i);
    }
  }

  lemma {:induction false} EntriesAlign(reqs: seq<Request>)
    ensures var ix, es := EligibleIndices(reqs), Entries(reqs);
      && |es| == |ix|
      && (forall k :: 0 <= k < |ix| ==> ix[k] < |reqs| && Eligible(reqs[ix[k]]) && es[k] == Entry(reqs[ix[k]]))
  {
    if reqs != [] {
      var n := |reqs| - 1;
      EntriesAlign(reqs[..n]);
      var ix0 := EligibleIndices(reqs[..n]);
      assert forall k :: 0 <= k < |ix0| ==> reqs[ix0[k]] == reqs[..n][ix0[k]];
    }
  }

  /** Every entry is approved and its fields carry no surrounding whitespace;
      its name key is the key of the request's untrimmed names. */
  lemma EntryShape(r: Request)
    requires Eligible(r)
    ensures var e := Entry(r);
      && Field(e, "Status") == "Approved"
      && Trim(Field(e, "First Name")) == Field(e, "First Name")
      && Trim(Field(e, "Last Name")) == Field(e, "Last Name")
      && Trim(Field(e, "Date")) == Field(e, "Date")
      && NameKey(Field(e, "First Name"), Field(e, "Last Name")) == NameKey(r.firstname.value, r.lastname.value)
  {
    TrimIdempotent(r.firstname.value);
    TrimIdempotent(r.lastname.value);
    TrimIdempotent(r.timeOffDate.value);
  }

  /** A name of blanks passes the truthiness test, and the entry is then
      left with an empty name. */
  lemma BlankNameKept(r: Request)
    requires r.status == Some("Approved") && Present(r.lastname) && Present(r.timeOffDate)
    requires r.firstname == Some(" ")
    ensures Eligible(r) && Field(Entry(r), "First Name") == ""
  {
    assert TrimStart(" ") == "";
  }

  /** Imported through this filter, the leave list holds only approved
      entries, so the attendance check's leave keys (which ignore the status)
      are exactly the keys of the eligible requests' names. */
  lemma ImportedLeaveKeys(reqs: seq<Request>)
    ensures var ix, keys := EligibleIndices(reqs), PtoKeys(Some(Entries(reqs)));
      && |keys| == |ix|
      && forall k :: 0 <= k < |ix| ==>
           ix[k] < |reqs| && Eligible(reqs[ix[k]]) && keys[k] == NameKey(reqs[ix[k]].firstname.value, reqs[ix[k]].lastname.value)
  {
    EntriesExactly(reqs);
    var ix, es := EligibleIndices(reqs), Entries(reqs);
    DropEmptyKeepsNonEmpty(PtoNameKeys(es));
    forall k | 0 <= k < |ix|
      ensures NameKey(Field(es[k], "First Name"), Field(es[k], "Last Name"))
                == NameKey(reqs[ix[k]].firstname.value, reqs[ix[k]].lastname.value)
    {
      EntryShape(reqs[ix[k]]);
    }
  }
}
