/** A parsed spreadsheet row: column label to cell text. Only text cells are
    modelled; a cell the parser types as a number is not. */
module Records {
  import opened Text

  type Record = map<string, string>

  /** `row[key] || ''`: the cell, or "" when the column is missing. */
  function Field(r: Record, key: string): string {
    if key in r then r[key] else ""
  }

  /** `a || b`: the first text unless it is empty. */
  function Pick(a: string, b: string): string {
    if a != "" then a else b
  }

  /** A cell interpolated into a template literal without `|| ''`: a missing
      column prints as "undefined". */
  function Display(r: Record, key: string): string {
    if key in r then r[key] else "undefined"
  }

  /** The lower-case `"first last"` key under which a person is looked up in
      the signed-in set and in the leave list. */
  function NameKey(first: string, last: string): (k: string)
    ensures |k| == |Trim(first)| + 1 + |Trim(last)|
    ensures k[|Trim(first)|] == ' '
  {
    ToLower(Trim(first) + " " + Trim(last))
  }

  /** Two people share a key exactly when their trimmed first and last names
      agree after lower-casing, provided no first name contains a space. */
  lemma NameKeyInjective(f1: string, l1: string, f2: string, l2: string)
    requires NoSpace(Trim(f1)) && NoSpace(Trim(f2))
    ensures NameKey(f1, l1) == NameKey(f2, l2) <==>
              ToLower(Trim(f1)) == ToLower(Trim(f2)) && ToLower(Trim(l1)) == ToLower(Trim(l2))
  {
    var a1, b1, a2, b2 := Trim(f1), Trim(l1), Trim(f2), Trim(l2);
    NameKeySplit(a1, b1);
    NameKeySplit(a2, b2);
    assert NameKey(f1, l1) == ToLower(a1) + " " + ToLower(b1);
    assert NameKey(f2, l2) == ToLower(a2) + " " + ToLower(b2);
    if NameKey(f1, l1) == NameKey(f2, l2) {
      NoSpaceToLower(a1);
      NoSpaceToLower(a2);
      SplitAtFirstSpace(ToLower(a1), ToLower(b1), ToLower(a2), ToLower(b2));
    }
  }

  /** Without that restriction keys collide: "Mary Ann" "Smith" and "Mary"
      "Ann Smith" are two people with one key, so either one's sign-in or
      leave entry counts for both. */
  lemma NameKeyCollides()
    ensures NameKey("Mary Ann", "Smith") == NameKey("Mary", "Ann Smith")
    ensures ToLower(Trim("Mary Ann")) != ToLower(Trim("Mary"))
  {
    assert Trim("Mary Ann") == "Mary Ann" && Trim("Smith") == "Smith" by {
      assert TrimStart("Mary Ann") == "Mary Ann" && TrimStart("Smith") == "Smith";
    }
    assert Trim("Mary") == "Mary" && Trim("Ann Smith") == "Ann Smith" by {
      assert TrimStart("Mary") == "Mary" && TrimStart("Ann Smith") == "Ann Smith";
    }
  }

  lemma NameKeySplit(a: string, b: string)
    ensures ToLower(a + " " + b) == ToLower(a) + " " + ToLower(b)
  {
    ToLowerConcat(a + " ", b);
    ToLowerConcat(a, " ");
  }

  predicate NoSpace(s: string) { forall i :: 0 <= i < |s| ==> s[i] != ' ' }

  lemma NoSpaceToLower(s: string)
    requires NoSpace(s)
    ensures NoSpace(ToLower(s))
  {
  }

  /** A string with no space before its first space splits one way only. */
  lemma {:induction false} SplitAtFirstSpace(x1: string, y1: string, x2: string, y2: string)
    requires NoSpace(x1) && NoSpace(x2)
    requires x1 + " " + y1 == x2 + " " + y2
    ensures x1 == x2 && y1 == y2
  {
    var w1, w2 := x1 + " " + y1, x2 + " " + y2;
    assert w1[|x1|] == ' ' && w2[|x2|] == ' ';
    assert |x1| == |x2|;
    assert x1 == w1[..|x1|] && x2 == w2[..|x2|];
    assert y1 == w1[|x1| + 1..] && y2 == w2[|x2| + 1..];
  }
}
