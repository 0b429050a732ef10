/** The sign-in time: the regular expression `(\d+):(\d+):(\d+)` applied to
    the `In` cell, hours and minutes taken with `parseInt`, and the
    `H:MM` text shown in the late list. */
module TimeOfDay {
  import opened Wrappers
  import opened Text

  datatype Clock = Clock(hours: nat, minutes: nat) {
    function InMinutes(): nat { hours * 60 + minutes }
  }

  /** Every character of `s[lo..hi]` is a decimal digit. */
  predicate DigitsIn(s: string, lo: int, hi: int)
    requires 0 <= lo <= hi <= |s|
  {
    forall j :: lo <= j < hi ==> IsDigit(s[j])
  }

  /** The reference reading of the pattern: starting at `i`, `a` digits, a
      colon, `b` digits, a colon and `c` digits, each group non-empty. */
  predicate PatternAt(s: string, i: int, a: int, b: int, c: int) {
    && 0 <= i && a >= 1 && b >= 1 && c >= 1
    && i + a + 1 + b + 1 + c <= |s|
    && DigitsIn(s, i, i + a)
    && s[i + a] == ':'
    && DigitsIn(s, i + a + 1, i + a + 1 + b)
    && s[i + a + 1 + b] == ':'
    && DigitsIn(s, i + a + b + 2, i + a + b + 2 + c)
  }

  /** Length of the longest run of digits starting at `i`. */
  function DigitRun(s: string, i: nat): (n: nat)
    requires i <= |s|
    ensures i + n <= |s|
    decreases |s| - i
  {
    if i < |s| && IsDigit(s[i]) then 1 + DigitRun(s, i + 1) else 0
  }

  /** The run is all digits and is followed by a non-digit or the end. */
  lemma {:induction false} DigitRunSpec(s: string, i: nat)
    requires i <= |s|
    ensures var n := DigitRun(s, i); DigitsIn(s, i, i + n) && (i + n == |s| || !IsDigit(s[i + n]))
    decreases |s| - i
  {
    if i < |s| && IsDigit(s[i]) {
      DigitRunSpec(s, i + 1);
    }
  }

  /** The match of the pattern at position `i`, if any, as the values of its
      first two groups. The groups are the maximal digit runs: `\d+` is
      greedy, and a shorter run would be followed by a digit, not a colon. */
  function MatchAt(s: string, i: nat): Option<Clock>
    requires i <= |s|
  {
    var a := DigitRun(s, i);
    var j := i + a;
    if a == 0 || j >= |s| || s[j] != ':' then None
    else
      var b := DigitRun(s, j + 1);
      var k := j + 1 + b;
      if b == 0 || k >= |s| || s[k] != ':' || DigitRun(s, k + 1) == 0 then None
      else Some(Clock(ParseNat(s[i..j]), ParseNat(s[j + 1..k])))
  }

  /** Whatever group lengths the pattern matches with at `i`, the first two
      groups are the maximal digit runs, so `MatchAt` yields their values;
      and when the pattern matches nowhere at `i`, `MatchAt` yields nothing. */
  lemma {:induction false} MatchAtIsThePattern(s: string, i: nat)
    requires i <= |s|
    ensures MatchAt(s, i).Some? <==> exists a, b, c :: PatternAt(s, i, a, b, c)
    ensures forall a, b, c :: PatternAt(s, i, a, b, c) ==>
              MatchAt(s, i) == Some(Clock(ParseNat(s[i..i + a]), ParseNat(s[i + a + 1..i + a + 1 + b])))
  {
    forall a, b, c | PatternAt(s, i, a, b, c)
      ensures MatchAt(s, i) == Some(Clock(ParseNat(s[i..i + a]), ParseNat(s[i + a + 1..i + a + 1 + b])))
    {
      GroupIsMaximalRun(s, i, a);
      GroupIsMaximalRun(s, i + a + 1, b);
      assert DigitRun(s, i + a + b + 2) >= 1;
    }
    if MatchAt(s, i).Some? {
      var a := DigitRun(s, i);
      var b := DigitRun(s, i + a + 1);
      DigitRunSpec(s, i);
      DigitRunSpec(s, i + a + 1);
      DigitRunSpec(s, i + a + b + 2);
      assert PatternAt(s, i, a, b, 1);
    }
  }

  /** A group of digits that is followed by a colon is the maximal run. */
  lemma GroupIsMaximalRun(s: string, i: nat, a: nat)
    requires i + a < |s| && DigitsIn(s, i, i + a) && s[i + a] == ':'
    ensures DigitRun(s, i) == a
  {
    DigitRunSpec(s, i);
  }

  /** The leftmost position at or after `from` where the pattern matches. */
  function FirstMatchFrom(s: string, from: nat): (r: Option<nat>)
    requires from <= |s|
    ensures r.Some? ==> from <= r.value < |s|
    decreases |s| - from
  {
    if from == |s| then None
    else if MatchAt(s, from).Some? then Some(from)
    else FirstMatchFrom(s, from + 1)
  }

  /** The search finds the leftmost match, or reports that there is none. */
  lemma {:induction false} FirstMatchFromSpec(s: string, from: nat)
    requires from <= |s|
    ensures var r := FirstMatchFrom(s, from);
      && (r.Some? ==> MatchAt(s, r.value).Some? && forall j :: from <= j < r.value ==> MatchAt(s, j).None?)
      && (r.None? ==> forall j :: from <= j <= |s| ==> MatchAt(s, j).None?)
    decreases |s| - from
  {
    if from < |s| && MatchAt(s, from).None? {
      FirstMatchFromSpec(s, from + 1);
    }
  }

  /** `timeIn.toString().match(/(\d+):(\d+):(\d+)/)`, with `parseInt` applied to
      the hour and minute groups. */
  function ParseTime(s: string): Option<Clock> {
    match FirstMatchFrom(s, 0)
    case None => None
    case Some(i) => MatchAt(s, i)
  }

  /** The parse fails exactly when the pattern matches nowhere in the text. */
  lemma ParseTimeFails(s: string)
    ensures ParseTime(s).None? <==> forall i, a, b, c :: !PatternAt(s, i, a, b, c)
  {
    FirstMatchFromSpec(s, 0);
    if ParseTime(s).None? {
      forall i, a, b, c | PatternAt(s, i, a, b, c) ensures false {
        MatchAtIsThePattern(s, i);
      }
    } else {
      var i := FirstMatchFrom(s, 0).value;
      MatchAtIsThePattern(s, i);
    }
  }

  /** The parse reads the leftmost occurrence of the pattern: at the first
      position where it matches, the hours and minutes are the values of its
      first two groups. */
  lemma ParseTimeIsLeftmostMatch(s: string, i: nat, a: nat, b: nat, c: nat)
    requires PatternAt(s, i, a, b, c)
    requires forall j, a', b', c' :: 0 <= j < i ==> !PatternAt(s, j, a', b', c')
    ensures ParseTime(s) == Some(Clock(ParseNat(s[i..i + a]), ParseNat(s[i + a + 1..i + a + 1 + b])))
  {
    MatchAtIsThePattern(s, i);
    FirstMatchFromSpec(s, 0);
    var r := FirstMatchFrom(s, 0);
    assert r.Some?;
    if r.value < i {
      MatchAtIsThePattern(s, r.value);
      assert false;
    }
  }

  /** The sign-in time as shown: `${hours}:${minutes.toString().padStart(2,'0')}`. */
  function FormatClock(t: Clock): string {
    NatToString(t.hours) + ":" + PadStart2(NatToString(t.minutes))
  }

  /** The shown time splits at its first colon into the unpadded hour and a
      minute field of exactly two digits when the minute is below 10 and of
      no leading zero otherwise, and both read back as the values they came
      from. */
  lemma FormatClockReadsBack(t: Clock)
    ensures var s, p := FormatClock(t), |NatToString(t.hours)|;
      && p < |s| && s[p] == ':' && AllDigits(s[..p]) && AllDigits(s[p + 1..])
      && |s| - (p + 1) >= 2 && (p > 1 ==> s[0] != '0')
      && (|s| - (p + 1) > 2 ==> s[p + 1] != '0')
      && ParseNat(s[..p]) == t.hours && ParseNat(s[p + 1..]) == t.minutes
  {
    var h, m := NatToString(t.hours), NatToString(t.minutes);
    var s := FormatClock(t);
    assert s[..|h|] == h;
    assert s[|h| + 1..] == PadStart2(m);
    ParseNatToString(t.hours);
    ParseNatToString(t.minutes);
    if |m| == 1 {
      ParseNatLeadingZero(m);
    }
  }
}
