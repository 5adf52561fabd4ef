/**
 * `sanitize_branch_name`: every character that is neither alphanumeric nor
 * one of `._/-` becomes `-`, runs of `--` are collapsed by repeated
 * `replace("--", "-")`, leading and trailing `-` and `/` are stripped, and
 * an empty result falls back to "update-urls".
 */
module Branch {
  import opened Text

  /** Characters kept besides alphanumerics. */
  const Punctuation: string := "._/-"
  /** Characters `strip` removes from both ends. */
  const StripChars: string := "-/"
  const Fallback: string := "update-urls"

  /**
   * Python's `str.isalnum()` on one character.  For ASCII it is letters and
   * digits; beyond ASCII it is whatever the Unicode database says, which the
   * caller supplies as `unicodeAlnum`.
   */
  predicate IsAlnum(c: char, unicodeAlnum: char -> bool) {
    if c as int < 0x80 then IsAsciiLetter(c) || IsAsciiDigit(c) else unicodeAlnum(c)
  }

  predicate Allowed(c: char, unicodeAlnum: char -> bool) {
    IsAlnum(c, unicodeAlnum) || c in Punctuation
  }

  predicate AllAllowed(s: string, unicodeAlnum: char -> bool) {
    forall i | 0 <= i < |s| :: Allowed(s[i], unicodeAlnum)
  }

  /** The generator expression: a disallowed character becomes `-`. */
  function MapChars(s: string, unicodeAlnum: char -> bool): (r: string)
    ensures |r| == |s| && AllAllowed(r, unicodeAlnum)
    ensures forall i | 0 <= i < |s| :: r[i] == s[i] || r[i] == '-'
  {
    seq(|s|, i requires 0 <= i < |s| => if Allowed(s[i], unicodeAlnum) then s[i] else '-')
  }

  /** Replacing `--` by `-` strictly shortens any text that contains `--`. */
  lemma CollapseStepShrinks(s: string)
    requires Contains(s, "--")
    ensures |ReplaceAll(s, "--", "-")| < |s|
  {
    ReplaceAllLength(s, "--", "-");
    CountZeroIff(s, "--");
  }

  /**
   * What the `while "--" in safe` loop computes: replace `--` by `-` until
   * no `--` is left.  The result has no `--` and no character that was not
   * in the input, except `-`.
   */
  function CollapseDashes(s: string): (r: string)
    ensures !Contains(r, "--")
    ensures forall c | c in r :: c in s || c == '-'
    ensures !Contains(s, "--") ==> r == s
    decreases |s|
  {
    if Contains(s, "--") then
      CollapseStepShrinks(s);
      ReplaceAllElements(s, "--", "-");
      CollapseDashes(ReplaceAll(s, "--", "-"))
    else s
  }

  /** `s.lstrip(cs)`. */
  function StripLeft(s: string, cs: string): (r: string)
    ensures |r| <= |s| && r == s[|s| - |r|..]
    ensures forall i | 0 <= i < |s| - |r| :: s[i] in cs
    ensures |r| > 0 ==> r[0] !in cs
    decreases |s|
  {
    if |s| > 0 && s[0] in cs then StripLeft(s[1..], cs) else s
  }

  /** `s.rstrip(cs)`. */
  function StripRight(s: string, cs: string): (r: string)
    ensures |r| <= |s| && r == s[..|r|]
    ensures forall i | |r| <= i < |s| :: s[i] in cs
    ensures |r| > 0 ==> r[|r| - 1] !in cs
    decreases |s|
  {
    if |s| > 0 && s[|s| - 1] in cs then StripRight(s[..|s| - 1], cs) else s
  }

  /** `s.strip(cs)`: a slice of `s` that neither starts nor ends with a character of `cs`. */
  function Strip(s: string, cs: string): (r: string)
    ensures exists a: nat, b: nat | a <= b <= |s| :: r == s[a..b]
    ensures |r| > 0 ==> r[0] !in cs && r[|r| - 1] !in cs
  {
    var l := StripLeft(s, cs);
    var r := StripRight(l, cs);
    assert r == s[|s| - |l|..|s| - |l| + |r|];
    r
  }

  /** Where the slice `Strip` keeps begins and ends. */
  lemma StripBounds(s: string, cs: string) returns (a: nat, b: nat)
    ensures a <= b <= |s| && Strip(s, cs) == s[a..b]
  {
    var l := StripLeft(s, cs);
    a, b := |s| - |l|, |s| - |l| + |StripRight(l, cs)|;
  }

  /** `sanitize_branch_name` as a value. */
  function Sanitized(s: string, unicodeAlnum: char -> bool): string {
    var stripped := Strip(CollapseDashes(MapChars(s, unicodeAlnum)), StripChars);
    if |stripped| > 0 then stripped else Fallback
  }

  /**
   * The sanitiser's promise: never empty, only alphanumerics and `._/-`, no
   * `--`, and no `-` or `/` at either end.
   */
  lemma SanitizedWellFormed(s: string, unicodeAlnum: char -> bool)
    ensures var r := Sanitized(s, unicodeAlnum);
      && |r| > 0
      && AllAllowed(r, unicodeAlnum)
      && !Contains(r, "--")
      && r[0] !in StripChars && r[|r| - 1] !in StripChars
  {
    var m := MapChars(s, unicodeAlnum);
    var c := CollapseDashes(m);
    var st := Strip(c, StripChars);
    CollapsedAllowed(m, unicodeAlnum);
    if |st| > 0 {
      var a, b := StripBounds(c, StripChars);
      SliceWellFormed(c, a, b, unicodeAlnum);
    } else {
      FallbackWellFormed(unicodeAlnum);
    }
  }

  /** Collapsing dashes keeps every character allowed: it only removes `-`. */
  lemma CollapsedAllowed(m: string, unicodeAlnum: char -> bool)
    requires AllAllowed(m, unicodeAlnum)
    ensures AllAllowed(CollapseDashes(m), unicodeAlnum)
  {
    var c := CollapseDashes(m);
    forall i | 0 <= i < |c| ensures Allowed(c[i], unicodeAlnum) {
      assert c[i] in c;
      if c[i] != '-' {
        var j :| 0 <= j < |m| && m[j] == c[i];
      }
    }
  }

  /** A slice of a text with only allowed characters and no `--` has neither either. */
  lemma SliceWellFormed(c: string, a: nat, b: nat, unicodeAlnum: char -> bool)
    requires a <= b <= |c| && AllAllowed(c, unicodeAlnum) && !Contains(c, "--")
    ensures AllAllowed(c[a..b], unicodeAlnum) && !Contains(c[a..b], "--")
  {
    NoOccurrenceInSlice(c, "--", a, b);
    forall i | 0 <= i < b - a ensures Allowed(c[a..b][i], unicodeAlnum) {
      assert c[a..b][i] == c[a + i];
    }
  }

  /** The fallback name is itself well formed. */
  lemma FallbackWellFormed(unicodeAlnum: char -> bool)
    ensures |Fallback| > 0 && AllAllowed(Fallback, unicodeAlnum) && !Contains(Fallback, "--")
    ensures Fallback[0] !in StripChars && Fallback[|Fallback| - 1] !in StripChars
  {
    assert Fallback == "update-urls";
    forall i: nat | i <= |Fallback| ensures !OccursAt(Fallback, "--", i) {
      if i + 2 <= |Fallback| {
        var w := Fallback[i..i + 2];
        assert w[0] == Fallback[i] && w[1] == Fallback[i + 1];
        if i == 6 { assert w[1] != "--"[1]; }
        else { assert w[0] != "--"[0]; }
      }
    }
  }

  /** Every character of the result comes from the input, or is `-`, or the result is the fallback. */
  lemma SanitizedCharacters(s: string, unicodeAlnum: char -> bool)
    ensures var r := Sanitized(s, unicodeAlnum);
      r == Fallback || forall c | c in r :: c in s || c == '-'
  {
    var m := MapChars(s, unicodeAlnum);
    var c := CollapseDashes(m);
    var st := Strip(c, StripChars);
    if |st| > 0 {
      var a, b := StripBounds(c, StripChars);
      forall x | x in st ensures x in s || x == '-' {
        SliceMember(c, a, b, x);
        if x != '-' {
          MapCharsFrom(s, unicodeAlnum, x);
        }
      }
    }
  }

  lemma SliceMember(c: string, a: nat, b: nat, x: char)
    requires a <= b <= |c| && x in c[a..b]
    ensures x in c
  {
    var i :| 0 <= i < b - a && c[a..b][i] == x;
    assert c[a + i] == x;
  }

  /** A character of the mapped text other than `-` comes from the input. */
  lemma MapCharsFrom(s: string, unicodeAlnum: char -> bool, x: char)
    requires x in MapChars(s, unicodeAlnum) && x != '-'
    ensures x in s
  {
    var m := MapChars(s, unicodeAlnum);
    var j :| 0 <= j < |m| && m[j] == x;
    assert s[j] == x;
  }

  /** On ASCII input the result uses only `[A-Za-z0-9._/-]`. */
  lemma SanitizedAsciiInput(s: string, unicodeAlnum: char -> bool)
    requires forall i | 0 <= i < |s| :: s[i] as int < 0x80
    ensures var r := Sanitized(s, unicodeAlnum);
      forall i | 0 <= i < |r| :: IsAsciiLetter(r[i]) || IsAsciiDigit(r[i]) || r[i] in Punctuation
  {
    var r := Sanitized(s, unicodeAlnum);
    SanitizedWellFormed(s, unicodeAlnum);
    SanitizedCharacters(s, unicodeAlnum);
    forall i | 0 <= i < |r|
      ensures IsAsciiLetter(r[i]) || IsAsciiDigit(r[i]) || r[i] in Punctuation
    {
      assert r[i] in r;
      AllowedAscii(s, r[i], unicodeAlnum);
    }
  }

  /** An allowed character that is ASCII, `-`, or one of the fallback's, is in `[A-Za-z0-9._/-]`. */
  lemma AllowedAscii(s: string, x: char, unicodeAlnum: char -> bool)
    requires Allowed(x, unicodeAlnum)
    requires forall i | 0 <= i < |s| :: s[i] as int < 0x80
    requires x in s || x == '-' || x in Fallback
    ensures IsAsciiLetter(x) || IsAsciiDigit(x) || x in Punctuation
  {
    if x in s {
      var j :| 0 <= j < |s| && s[j] == x;
    }
  }

  /** A name that is already well formed is left alone. */
  lemma {:induction false} SanitizedIdentity(s: string, unicodeAlnum: char -> bool)
    requires |s| > 0 && AllAllowed(s, unicodeAlnum) && !Contains(s, "--")
    requires s[0] !in StripChars && s[|s| - 1] !in StripChars
    ensures Sanitized(s, unicodeAlnum) == s
  {
    assert MapChars(s, unicodeAlnum) == s;
    assert StripLeft(s, StripChars) == s;
    assert StripRight(s, StripChars) == s;
  }

  /** Sanitising twice is the same as sanitising once. */
  lemma SanitizedIdempotent(s: string, unicodeAlnum: char -> bool)
    ensures Sanitized(Sanitized(s, unicodeAlnum), unicodeAlnum) == Sanitized(s, unicodeAlnum)
  {
    SanitizedWellFormed(s, unicodeAlnum);
    SanitizedIdentity(Sanitized(s, unicodeAlnum), unicodeAlnum);
  }

  /**
   * `sanitize_branch_name` as the source runs it: one pass over the
   * characters, then a loop that collapses `--` until none is left.
   */
  method SanitizeBranchName(s: string, unicodeAlnum: char -> bool) returns (r: string)
    ensures r == Sanitized(s, unicodeAlnum)
    ensures |r| > 0 && AllAllowed(r, unicodeAlnum) && !Contains(r, "--")
    ensures r[0] !in StripChars && r[|r| - 1] !in StripChars
  {
    var safe := MapChars(s, unicodeAlnum);
    while Contains(safe, "--")
      invariant CollapseDashes(safe) == CollapseDashes(MapChars(s, unicodeAlnum))
      decreases |safe|
    {
      CollapseStepShrinks(safe);
      safe := ReplaceAll(safe, "--", "-");
    }
    var stripped := Strip(safe, StripChars);
    r := if |stripped| > 0 then stripped else Fallback;
    SanitizedWellFormed(s, unicodeAlnum);
  }
}
