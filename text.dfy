/**
 * Literal, case-sensitive substring search, counting and replacement with
 * Python's `str.count` / `str.replace` (and `bytes.count`) semantics:
 * occurrences are taken leftmost first and never overlap.  Generic over the
 * element type, so one definition serves both text and raw bytes.
 * Also ASCII case folding, used for the case-insensitive patterns.
 */
module Text {

  /** `p` occurs in `s` starting at index `i`. */
  predicate OccursAt<T(==)>(s: seq<T>, p: seq<T>, i: nat) {
    i + |p| <= |s| && s[i..i + |p|] == p
  }

  /** `a + b` occurs at `i` exactly when `a` does and `b` follows it. */
  lemma OccursConcat<T>(s: seq<T>, a: seq<T>, b: seq<T>, i: nat)
    ensures OccursAt(s, a + b, i) <==> OccursAt(s, a, i) && OccursAt(s, b, i + |a|)
  {
    if OccursAt(s, a, i) && OccursAt(s, b, i + |a|) {
      assert s[i..i + |a + b|] == s[i..i + |a|] + s[i + |a|..i + |a| + |b|];
    }
    if OccursAt(s, a + b, i) {
      assert s[i..i + |a|] == (a + b)[..|a|];
      assert s[i + |a|..i + |a| + |b|] == (a + b)[|a|..];
    }
  }

  lemma OccursJoin<T>(s: seq<T>, a: seq<T>, b: seq<T>, i: nat)
    requires OccursAt(s, a, i) && OccursAt(s, b, i + |a|)
    ensures OccursAt(s, a + b, i)
  {
    OccursConcat(s, a, b, i);
  }

  lemma OccursSplit<T>(s: seq<T>, a: seq<T>, b: seq<T>, i: nat)
    requires OccursAt(s, a + b, i)
    ensures OccursAt(s, a, i) && OccursAt(s, b, i + |a|)
  {
    OccursConcat(s, a, b, i);
  }

  /** The elements of an occurrence. */
  lemma OccursIndex<T>(s: seq<T>, p: seq<T>, i: nat, k: nat)
    requires OccursAt(s, p, i) && k < |p|
    ensures s[i + k] == p[k]
  {
    assert s[i..i + |p|][k] == s[i + k];
  }

  /** Adjacent slices glue back together. */
  lemma SliceJoin<T>(s: seq<T>, a: nat, b: nat, c: nat)
    requires a <= b <= c <= |s|
    ensures s[a..c] == s[a..b] + s[b..c]
  {
  }

  /** A slice of `s` occurs in `s` where it was taken. */
  lemma OccursSlice<T>(s: seq<T>, p: seq<T>, a: nat, b: nat)
    requires a <= b <= |s| && p == s[a..b]
    ensures OccursAt(s, p, a) && a + |p| == b
  {
  }

  /** An occurrence at `i` is a prefix of the suffix `s[i..]`. */
  lemma OccursPrefix<T>(s: seq<T>, p: seq<T>, i: nat)
    requires OccursAt(s, p, i)
    ensures s[i..] == p + s[i + |p|..]
  {
    assert s[i..] == s[i..i + |p|] + s[i + |p|..];
  }

  /** Python's `p in s`. */
  predicate Contains<T(==)>(s: seq<T>, p: seq<T>) {
    exists i: nat | i <= |s| :: OccursAt(s, p, i)
  }

  /** No occurrence of `p` in `s` starts before index `n`. */
  predicate NoOccurrenceBefore<T(==)>(s: seq<T>, p: seq<T>, n: nat) {
    forall i: nat | i < n :: !OccursAt(s, p, i)
  }

  /**
   * Number of leftmost, non-overlapping occurrences (`str.count`).  The
   * empty pattern occurs before every element and at the end.
   */
  function Count<T(==)>(s: seq<T>, p: seq<T>): nat
    decreases |s|
  {
    if |p| == 0 then |s| + 1
    else if |s| < |p| then 0
    else if s[..|p|] == p then 1 + Count(s[|p|..], p)
    else Count(s[1..], p)
  }

  /**
   * Every leftmost, non-overlapping occurrence of `p` replaced by `r`
   * (`str.replace`); the empty pattern puts `r` before every element and
   * at the end.
   */
  function ReplaceAll<T(==)>(s: seq<T>, p: seq<T>, r: seq<T>): seq<T>
    decreases |s|
  {
    if |p| == 0 then (if |s| == 0 then r else r + [s[0]] + ReplaceAll(s[1..], p, r))
    else if |s| < |p| then s
    else if s[..|p|] == p then r + ReplaceAll(s[|p|..], p, r)
    else [s[0]] + ReplaceAll(s[1..], p, r)
  }

  /** `ps[0] + sep + ps[1] + sep + ... + ps[|ps|-1]`. */
  function Join<T>(ps: seq<seq<T>>, sep: seq<T>): seq<T>
    requires |ps| > 0
    decreases |ps|
  {
    if |ps| == 1 then ps[0] else ps[0] + sep + Join(ps[1..], sep)
  }

  /** Gluing `x` onto the first piece glues it onto the joined text. */
  lemma JoinPrepend<T>(x: seq<T>, ps: seq<seq<T>>, sep: seq<T>)
    requires |ps| > 0
    ensures Join([x + ps[0]] + ps[1..], sep) == x + Join(ps, sep)
  {
    var qs := [x + ps[0]] + ps[1..];
    assert qs[1..] == ps[1..];
  }

  /**
   * The text between the leftmost non-overlapping occurrences of `p`:
   * `s` is these pieces joined by `p`, no occurrence of `p` starts inside a
   * piece (so each separator is the leftmost one available), and there is
   * one more piece than there are occurrences.  The empty pattern splits
   * `s` into its elements, with an empty piece at either end.  This is the
   * reference against which Count and ReplaceAll are characterised.
   */
  function Pieces<T(==)>(s: seq<T>, p: seq<T>): (ps: seq<seq<T>>)
    ensures |ps| > 0 && Join(ps, p) == s
    ensures |ps| == Count(s, p) + 1
    decreases |s|
  {
    if |p| == 0 then
      if |s| == 0 then [[], []]
      else
        var rest := Pieces(s[1..], p);
        JoinPrepend([s[0]], rest, p);
        assert s == [s[0]] + s[1..];
        [[]] + ([[s[0]] + rest[0]] + rest[1..])
    else if |s| < |p| then
      [s]
    else if s[..|p|] == p then
      var rest := Pieces(s[|p|..], p);
      assert s == s[..|p|] + s[|p|..];
      [[]] + rest
    else
      var rest := Pieces(s[1..], p);
      JoinPrepend([s[0]], rest, p);
      assert s == [s[0]] + s[1..];
      [[s[0]] + rest[0]] + rest[1..]
  }

  /**
   * The separators of `ps` are the leftmost ones: no occurrence of `p`
   * starts inside a piece, and there is none at all in the last piece.
   */
  ghost predicate Leftmost<T>(ps: seq<seq<T>>, p: seq<T>)
    requires |ps| > 0
  {
    && (forall k | 0 <= k < |ps| - 1 :: NoOccurrenceBefore(ps[k] + p, p, |ps[k]|))
    && !Contains(ps[|ps| - 1], p)
  }

  /** The separators Pieces picks are the leftmost ones. */
  lemma {:induction false} PiecesLeftmost<T>(s: seq<T>, p: seq<T>)
    requires |p| > 0
    ensures Leftmost(Pieces(s, p), p)
    decreases |s|
  {
    if |s| < |p| {
      NoOccurrenceShort(s, p);
    } else if s[..|p|] == p {
      PiecesLeftmost(s[|p|..], p);
      LeftmostEmptyFirst(Pieces(s[|p|..], p), p);
    } else {
      PiecesLeftmost(s[1..], p);
      LeftmostConsFirst(s, p, Pieces(s[1..], p));
    }
  }

  /** A first element that starts no separator joins the first piece. */
  lemma LeftmostConsFirst<T>(s: seq<T>, p: seq<T>, rest: seq<seq<T>>)
    requires |p| > 0 && |s| >= |p| && s[..|p|] != p
    requires |rest| > 0 && Join(rest, p) == s[1..] && Leftmost(rest, p)
    ensures Leftmost([[s[0]] + rest[0]] + rest[1..], p)
  {
    assert s == [s[0]] + s[1..];
    if |rest| == 1 {
      FirstPieceFree(s, p, rest[0]);
    } else {
      assert Join(rest, p) == rest[0] + p + Join(rest[1..], p);
      FirstPieceLeftmost(s, p, rest[0], Join(rest[1..], p));
      LeftmostExtendFirst(rest, p, s[0]);
    }
  }

  lemma NoOccurrenceShort<T>(s: seq<T>, p: seq<T>)
    requires |s| < |p|
    ensures !Contains(s, p)
  {
  }

  lemma LeftmostEmptyFirst<T>(rest: seq<seq<T>>, p: seq<T>)
    requires |rest| > 0 && Leftmost(rest, p)
    ensures Leftmost([[]] + rest, p)
  {
    var ps := [[]] + rest;
    forall k | 0 <= k < |ps| - 1 ensures NoOccurrenceBefore(ps[k] + p, p, |ps[k]|) {
      if k > 0 { assert ps[k] == rest[k - 1]; }
    }
    assert ps[|ps| - 1] == rest[|rest| - 1];
  }

  lemma LeftmostExtendFirst<T>(rest: seq<seq<T>>, p: seq<T>, x: T)
    requires |rest| > 1 && Leftmost(rest, p)
    requires NoOccurrenceBefore([x] + rest[0] + p, p, |rest[0]| + 1)
    ensures Leftmost([[x] + rest[0]] + rest[1..], p)
  {
    var ps := [[x] + rest[0]] + rest[1..];
    forall k | 0 <= k < |ps| - 1 ensures NoOccurrenceBefore(ps[k] + p, p, |ps[k]|) {
      if k > 0 { assert ps[k] == rest[k]; }
    }
    assert ps[|ps| - 1] == rest[|rest| - 1];
  }

  lemma FirstPieceFree<T>(s: seq<T>, p: seq<T>, r0: seq<T>)
    requires |p| > 0 && |s| >= |p| && s[..|p|] != p
    requires s == [s[0]] + r0 && !Contains(r0, p)
    ensures !Contains(s, p)
  {
    forall i: nat | i <= |s| ensures !OccursAt(s, p, i) {
      if i > 0 && i + |p| <= |s| {
        assert s[i..i + |p|] == r0[i - 1..i - 1 + |p|];
        assert !OccursAt(r0, p, i - 1);
      }
    }
  }

  lemma FirstPieceLeftmost<T>(s: seq<T>, p: seq<T>, r0: seq<T>, tail: seq<T>)
    requires |p| > 0 && |s| >= |p| && s[..|p|] != p
    requires s == [s[0]] + r0 + p + tail
    requires NoOccurrenceBefore(r0 + p, p, |r0|)
    ensures NoOccurrenceBefore([s[0]] + r0 + p, p, |r0| + 1)
  {
    var f := [s[0]] + r0 + p;
    forall i: nat | i < |r0| + 1 ensures !OccursAt(f, p, i) {
      if i == 0 {
        assert f[..|p|] == s[..|p|];
      } else {
        assert f[i..i + |p|] == (r0 + p)[i - 1..i - 1 + |p|];
        assert !OccursAt(r0 + p, p, i - 1);
      }
    }
  }

  /** ReplaceAll puts `r` exactly where Pieces put `p`. */
  lemma {:induction false} ReplaceAllIsJoin<T>(s: seq<T>, p: seq<T>, r: seq<T>)
    ensures ReplaceAll(s, p, r) == Join(Pieces(s, p), r)
    decreases |s|
  {
    if |p| == 0 {
      if |s| > 0 {
        var rest := Pieces(s[1..], p);
        ReplaceAllIsJoin(s[1..], p, r);
        JoinPrepend([s[0]], rest, r);
        var qs := [[s[0]] + rest[0]] + rest[1..];
        assert ([[]] + qs)[1..] == qs;
      }
    } else if |s| < |p| {
    } else if s[..|p|] == p {
      ReplaceAllIsJoin(s[|p|..], p, r);
    } else {
      ReplaceAllIsJoin(s[1..], p, r);
      JoinPrepend([s[0]], Pieces(s[1..], p), r);
    }
  }

  /** `count == 0` exactly when `p` does not occur at all. */
  lemma CountZeroIff<T>(s: seq<T>, p: seq<T>)
    ensures Count(s, p) == 0 <==> !Contains(s, p)
  {
    var ps := Pieces(s, p);
    if |p| == 0 {
      assert OccursAt(s, p, 0);
    } else if Count(s, p) > 0 {
      assert s == ps[0] + p + Join(ps[1..], p);
      assert s[|ps[0]|..|ps[0]| + |p|] == p;
      assert OccursAt(s, p, |ps[0]|);
    } else {
      PiecesLeftmost(s, p);
    }
  }

  /** Without an occurrence, replacement is the identity. */
  lemma ReplaceAllNoOccurrence<T>(s: seq<T>, p: seq<T>, r: seq<T>)
    requires |p| > 0 && !Contains(s, p)
    ensures ReplaceAll(s, p, r) == s
  {
    CountZeroIff(s, p);
    ReplaceAllIsJoin(s, p, r);
  }

  lemma Distribute(c: int, d: int)
    ensures (1 + c) * d == d + c * d
  {
  }

  /** Each replacement changes the length by `|r| - |p|`. */
  lemma {:induction false} ReplaceAllLength<T>(s: seq<T>, p: seq<T>, r: seq<T>)
    ensures |ReplaceAll(s, p, r)| == |s| + Count(s, p) * (|r| - |p|)
    decreases |s|
  {
    if |p| == 0 {
      if |s| > 0 {
        ReplaceAllLength(s[1..], p, r);
        assert |ReplaceAll(s, p, r)| == |r| + 1 + |ReplaceAll(s[1..], p, r)|;
        Distribute(|s|, |r|);
      }
    } else if |s| < |p| {
    } else if s[..|p|] == p {
      var rest, c, d := s[|p|..], Count(s[|p|..], p), |r| - |p|;
      ReplaceAllLength(rest, p, r);
      assert Count(s, p) == 1 + c;
      assert |ReplaceAll(s, p, r)| == |r| + |ReplaceAll(rest, p, r)|;
      Distribute(c, d);
    } else {
      ReplaceAllLength(s[1..], p, r);
      assert Count(s, p) == Count(s[1..], p);
    }
  }

  /** Every element of the result comes from the input or from the replacement. */
  lemma {:induction false} ReplaceAllElements<T>(s: seq<T>, p: seq<T>, r: seq<T>)
    requires |p| > 0
    ensures forall x | x in ReplaceAll(s, p, r) :: x in s || x in r
    decreases |s|
  {
    if |s| < |p| {
    } else if s[..|p|] == p {
      ReplaceAllElements(s[|p|..], p, r);
    } else {
      ReplaceAllElements(s[1..], p, r);
    }
  }

  /** An occurrence inside the slice `s[a..b]` is an occurrence in `s`, shifted by `a`. */
  lemma OccursInSlice<T>(s: seq<T>, p: seq<T>, a: nat, b: nat, i: nat)
    requires a <= b <= |s|
    ensures OccursAt(s[a..b], p, i) ==> OccursAt(s, p, a + i)
  {
    if OccursAt(s[a..b], p, i) {
      var u, v := s[a + i..a + i + |p|], s[a..b][i..i + |p|];
      forall j | 0 <= j < |p| ensures u[j] == v[j] {
      }
      assert u == v;
    }
  }

  /** A slice of a sequence free of `p` is itself free of `p`. */
  lemma NoOccurrenceInSlice<T>(s: seq<T>, p: seq<T>, a: nat, b: nat)
    requires a <= b <= |s| && !Contains(s, p)
    ensures !Contains(s[a..b], p)
  {
    forall i: nat | i <= b - a ensures !OccursAt(s[a..b], p, i) {
      OccursInSlice(s, p, a, b, i);
    }
  }

  /** Python `s.split(sep)[-1]`: the text after the last occurrence of `sep`. */
  function LastPiece<T(==)>(s: seq<T>, sep: seq<T>): (r: seq<T>)
    requires |sep| > 0
    ensures !Contains(r, sep)
  {
    var ps := Pieces(s, sep);
    PiecesLeftmost(s, sep);
    ps[|ps| - 1]
  }

  // ---------------------------------------------------------------------
  // Case folding: `str.lower()` and the case-insensitive patterns
  // ---------------------------------------------------------------------

  predicate IsAsciiUpper(c: char) { 'A' <= c <= 'Z' }
  predicate IsAsciiLower(c: char) { 'a' <= c <= 'z' }
  predicate IsAsciiDigit(c: char) { '0' <= c <= '9' }
  predicate IsAsciiLetter(c: char) { IsAsciiUpper(c) || IsAsciiLower(c) }

  /** The Kelvin sign, whose lower-case form is the ASCII `k`. */
  const Kelvin: char := '\U{212A}'
  /** Capital I with dot above, which the patterns fold to `i`. */
  const DottedCapitalI: char := '\U{130}'
  /** Dotless small i, which the patterns treat as `i`. */
  const DotlessI: char := '\U{131}'
  /** Long s, which the patterns treat as `s`. */
  const LongS: char := '\U{17F}'

  /**
   * `str.lower()` on one character, as far as comparisons with ASCII
   * literals can see it: ASCII capitals and the Kelvin sign become ASCII
   * small letters.  Every other character is kept; its real lower-case
   * form contains a non-ASCII character just as the kept one is non-ASCII.
   */
  function LowerChar(c: char): (r: char)
    ensures IsAsciiUpper(c) ==> IsAsciiLower(r) && r as int == c as int + 32
    ensures c == Kelvin ==> r == 'k'
    ensures !IsAsciiUpper(c) && c != Kelvin ==> r == c
  {
    if IsAsciiUpper(c) then (c as int + 32) as char
    else if c == Kelvin then 'k'
    else c
  }

  function Lower(s: string): (r: string)
    ensures |r| == |s|
    ensures forall i | 0 <= i < |s| :: r[i] == LowerChar(s[i])
  {
    seq(|s|, i requires 0 <= i < |s| => LowerChar(s[i]))
  }

  /**
   * The comparison `re.IGNORECASE` makes for a str pattern: the simple
   * lower-case mapping, under which ASCII capitals, `İ` and the Kelvin sign
   * become ASCII letters, together with the two equivalences Python adds,
   * `ı` with `i` and `ſ` with `s`.  Two characters match when they fold to
   * the same character.  For the other non-ASCII letters only identical
   * characters match.
   */
  function FoldChar(c: char): (r: char)
    ensures IsAsciiUpper(c) ==> r as int == c as int + 32
    ensures c == DottedCapitalI || c == DotlessI ==> r == 'i'
    ensures c == LongS ==> r == 's'
    ensures c == Kelvin ==> r == 'k'
    ensures !IsAsciiUpper(c) && c != DottedCapitalI && c != DotlessI && c != LongS && c != Kelvin ==> r == c
  {
    if IsAsciiUpper(c) then (c as int + 32) as char
    else if c == DottedCapitalI || c == DotlessI then 'i'
    else if c == LongS then 's'
    else if c == Kelvin then 'k'
    else c
  }

  /** `t[i + k]` and `lit[k]` exist and fold to the same character. */
  predicate SameFold(t: string, i: int, lit: string, k: int) {
    0 <= i + k < |t| && 0 <= k < |lit| && FoldChar(t[i + k]) == FoldChar(lit[k])
  }

  /** Case-insensitive equality of two texts. */
  predicate CiEq(a: string, b: string) {
    |a| == |b| && forall k | 0 <= k < |a| :: SameFold(a, 0, b, k)
  }

  /** `lit` occurs case-insensitively in `t` at index `i`. */
  predicate CiAt(t: string, i: nat, lit: string) {
    i + |lit| <= |t| && forall k | 0 <= k < |lit| :: SameFold(t, i, lit, k)
  }

  /** `CiAt` is case-insensitive equality of the slice that starts at `i`. */
  lemma CiAtSlice(t: string, i: nat, lit: string)
    ensures CiAt(t, i, lit) <==> i + |lit| <= |t| && CiEq(t[i..i + |lit|], lit)
  {
    if i + |lit| <= |t| {
      var w := t[i..i + |lit|];
      forall k | 0 <= k < |lit| ensures SameFold(w, 0, lit, k) == SameFold(t, i, lit, k) {
        assert w[k] == t[i + k];
      }
    }
  }

  /** A first character that differs after folding rules the literal out. */
  lemma CiAtFirst(t: string, i: nat, lit: string)
    requires 0 < |lit| && i < |t| && FoldChar(t[i]) != FoldChar(lit[0])
    ensures !CiAt(t, i, lit)
  {
    assert !SameFold(t, i, lit, 0);
  }
}
