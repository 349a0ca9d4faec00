/**
  The showtime scanner of check_availability: `re.findall` applied to the
  page text with the pattern `\b(?:[01]\d|2[0-3]):[0-5]\d\b`.

  A match is a five-character token `HH:MM` (hours 00-23, minutes 00-59)
  with a word boundary on each side. `re.findall` scans left to right and,
  after a match, resumes right after it, so matches never overlap.
*/
module Showtimes {

  /** `\d`, restricted to the ASCII digits. */
  predicate IsDigit(c: char) {
    '0' <= c <= '9'
  }

  /**
    `\w`: ASCII letters, digits and underscore, plus the Latin-1 characters
    Python counts as alphanumeric: the letters, ª º µ, the superscripts ¹ ² ³
    and the fractions ¼ ½ ¾.
  */
  predicate IsWordChar(c: char) {
    || IsDigit(c)
    || ('a' <= c <= 'z')
    || ('A' <= c <= 'Z')
    || c == '_'
    || ('\U{C0}' <= c <= '\U{FF}' && c != '\U{D7}' && c != '\U{F7}')
    || c in {'\U{AA}', '\U{B2}', '\U{B3}', '\U{B5}', '\U{B9}', '\U{BA}', '\U{BC}', '\U{BD}', '\U{BE}'}
  }

  /** `\b` at position `p`: a word character on exactly one side of it. */
  predicate WordBoundary(s: string, p: nat)
    requires p <= |s|
  {
    (p > 0 && IsWordChar(s[p - 1])) != (p < |s| && IsWordChar(s[p]))
  }

  /** `[01]\d|2[0-3]` */
  predicate IsHour(h1: char, h2: char) {
    ((h1 == '0' || h1 == '1') && IsDigit(h2)) || (h1 == '2' && '0' <= h2 <= '3')
  }

  /** `[0-5]\d` */
  predicate IsMinute(m1: char, m2: char) {
    '0' <= m1 <= '5' && IsDigit(m2)
  }

  /** The text the pattern matches between its two `\b`. */
  predicate IsTimeToken(t: string) {
    |t| == 5 && IsHour(t[0], t[1]) && t[2] == ':' && IsMinute(t[3], t[4])
  }

  /** The pattern matches `s` at position `p`. */
  predicate MatchAt(s: string, p: nat) {
    p + 5 <= |s| && WordBoundary(s, p) && IsTimeToken(s[p..p + 5]) && WordBoundary(s, p + 5)
  }

  function DigitValue(c: char): int {
    c as int - '0' as int
  }

  /** The number written by two decimal digits. */
  function TwoDigits(d1: char, d2: char): int {
    10 * DigitValue(d1) + DigitValue(d2)
  }

  /** A time token is `dd:dd` whose hours are at most 23 and whose minutes are at most 59. */
  lemma TimeTokenIsClockTime(t: string)
    ensures IsTimeToken(t) <==>
      && |t| == 5
      && IsDigit(t[0]) && IsDigit(t[1]) && t[2] == ':' && IsDigit(t[3]) && IsDigit(t[4])
      && 0 <= TwoDigits(t[0], t[1]) <= 23
      && 0 <= TwoDigits(t[3], t[4]) <= 59
  {
  }

  /**
    The pattern matches at `p` exactly when a time token starts there that
    is neither preceded nor followed by a word character.
  */
  lemma MatchAtIsIsolatedToken(s: string, p: nat)
    ensures MatchAt(s, p) <==>
      && p + 5 <= |s|
      && IsTimeToken(s[p..p + 5])
      && (p == 0 || !IsWordChar(s[p - 1]))
      && (p + 5 == |s| || !IsWordChar(s[p + 5]))
  {
    if p + 5 <= |s| && IsTimeToken(s[p..p + 5]) {
      assert s[p] == s[p..p + 5][0] && s[p + 4] == s[p..p + 5][4];
    }
  }

  /** The positions `re.findall` reports, scanning from position `i`. */
  function MatchesFrom(s: string, i: nat): (r: seq<nat>)
    requires i <= |s|
    ensures forall k :: 0 <= k < |r| ==> i <= r[k] && MatchAt(s, r[k])
    ensures forall j, k :: 0 <= j < k < |r| ==> r[j] + 5 <= r[k]
    decreases |s| - i
  {
    if |s| - i < 5 then []
    else if MatchAt(s, i) then [i] + MatchesFrom(s, i + 5)
    else MatchesFrom(s, i + 1)
  }

  /** The start positions of the matches in `s`. */
  function Matches(s: string): seq<nat> {
    MatchesFrom(s, 0)
  }

  /** Position `p` lies inside one of the matches starting at the positions `r`. */
  ghost predicate Covered(r: seq<nat>, p: nat) {
    exists k :: 0 <= k < |r| && r[k] <= p < r[k] + 5
  }

  /**
    What a left-to-right, non-overlapping scan from `i` must report: matches
    only, at least five characters apart, in increasing order, and leaving no
    match from `i` on outside of the reported ones.
  */
  ghost predicate IsScanFrom(s: string, i: nat, r: seq<nat>) {
    && (forall k :: 0 <= k < |r| ==> i <= r[k] && MatchAt(s, r[k]))
    && (forall j, k :: 0 <= j < k < |r| ==> r[j] + 5 <= r[k])
    && (forall p :: i <= p && MatchAt(s, p) ==> Covered(r, p))
  }

  /** The scan misses no match: every candidate lies inside a reported match. */
  lemma {:induction false} MatchesFromComplete(s: string, i: nat, p: nat)
    requires i <= p && i <= |s| && MatchAt(s, p)
    ensures Covered(MatchesFrom(s, i), p)
    decreases |s| - i
  {
    var r := MatchesFrom(s, i);
    if MatchAt(s, i) {
      if p < i + 5 {
        assert r[0] <= p < r[0] + 5;
      } else {
        MatchesFromComplete(s, i + 5, p);
        var rest := MatchesFrom(s, i + 5);
        var k :| 0 <= k < |rest| && rest[k] <= p < rest[k] + 5;
        assert r[k + 1] == rest[k];
      }
    } else {
      MatchesFromComplete(s, i + 1, p);
    }
  }

  lemma MatchesFromIsScan(s: string, i: nat)
    requires i <= |s|
    ensures IsScanFrom(s, i, MatchesFrom(s, i))
  {
    forall p | i <= p && MatchAt(s, p)
      ensures Covered(MatchesFrom(s, i), p)
    {
      MatchesFromComplete(s, i, p);
    }
  }

  /** Dropping the first of a set of increasing, spaced positions keeps them increasing and spaced. */
  lemma SpacedTail(r: seq<nat>)
    requires |r| > 0
    requires forall j, k :: 0 <= j < k < |r| ==> r[j] + 5 <= r[k]
    ensures forall k :: 0 <= k < |r[1..]| ==> r[0] + 5 <= r[1..][k]
    ensures forall j, k :: 0 <= j < k < |r[1..]| ==> r[1..][j] + 5 <= r[1..][k]
  {
    forall k | 0 <= k < |r[1..]|
      ensures r[0] + 5 <= r[1..][k]
    {
      assert r[1..][k] == r[k + 1];
    }
  }

  /** Positions past the first match are covered by the later matches. */
  lemma CoveredByTail(r: seq<nat>, p: nat)
    requires |r| > 0 && r[0] + 5 <= p && Covered(r, p)
    ensures Covered(r[1..], p)
  {
    var j :| 0 <= j < |r| && r[j] <= p < r[j] + 5;
    assert r[1..][j - 1] == r[j];
  }

  /** A scan from a position where the pattern matches reports that position first. */
  lemma ScanStartsWithMatch(s: string, i: nat, r: seq<nat>)
    requires IsScanFrom(s, i, r) && MatchAt(s, i)
    ensures |r| > 0 && r[0] == i && IsScanFrom(s, i + 5, r[1..])
  {
    assert Covered(r, i);
    var k :| 0 <= k < |r| && r[k] <= i < r[k] + 5;
    assert r[k] == i;
    assert r[0] == i;
    SpacedTail(r);
    forall p | i + 5 <= p && MatchAt(s, p)
      ensures Covered(r[1..], p)
    {
      CoveredByTail(r, p);
    }
    forall k | 0 <= k < |r[1..]|
      ensures MatchAt(s, r[1..][k])
    {
      assert r[1..][k] == r[k + 1];
    }
  }

  /** A scan from a position where the pattern does not match is a scan from the next one. */
  lemma ScanSkipsNonMatch(s: string, i: nat, r: seq<nat>)
    requires IsScanFrom(s, i, r) && !MatchAt(s, i)
    ensures IsScanFrom(s, i + 1, r)
  {
    forall k | 0 <= k < |r|
      ensures i + 1 <= r[k]
    {
      assert MatchAt(s, r[k]);
    }
  }

  /** Only one sequence of positions satisfies IsScanFrom: the one the scan computes. */
  lemma {:induction false} ScanIsUnique(s: string, i: nat, r: seq<nat>)
    requires i <= |s| && IsScanFrom(s, i, r)
    ensures r == MatchesFrom(s, i)
    decreases |s| - i
  {
    if |s| - i < 5 {
      assert |r| > 0 ==> MatchAt(s, r[0]);
    } else if MatchAt(s, i) {
      ScanStartsWithMatch(s, i, r);
      ScanIsUnique(s, i + 5, r[1..]);
      assert r == [i] + r[1..];
    } else {
      ScanSkipsNonMatch(s, i, r);
      ScanIsUnique(s, i + 1, r);
    }
  }

  /**
    The reported positions are exactly the increasing, non-overlapping
    sequence of matches that leaves no match outside it.
  */
  lemma MatchesCharacterised(s: string, r: seq<nat>)
    ensures IsScanFrom(s, 0, r) <==> r == Matches(s)
  {
    MatchesFromIsScan(s, 0);
    if IsScanFrom(s, 0, r) {
      ScanIsUnique(s, 0, r);
    }
  }

  /** The tokens `re.findall` returns, in order. */
  function TimeTokens(s: string): (r: seq<string>)
    ensures |r| == |Matches(s)|
    ensures forall k :: 0 <= k < |r| ==> IsTimeToken(r[k])
    ensures forall k :: 0 <= k < |r| ==> r[k] == s[Matches(s)[k]..Matches(s)[k] + 5]
  {
    var m := Matches(s);
    seq(|m|, k requires 0 <= k < |m| => s[m[k]..m[k] + 5])
  }

  /** Some match exists exactly when the scan reports at least one. */
  lemma MatchesNonEmpty(s: string)
    ensures |Matches(s)| > 0 <==> exists p :: MatchAt(s, p)
  {
    if p :| MatchAt(s, p) {
      MatchesFromComplete(s, 0, p);
    }
    if |Matches(s)| > 0 {
      assert MatchAt(s, Matches(s)[0]);
    }
  }

  /** `len(re.findall(...))`: at least one showtime exactly when the pattern matches somewhere. */
  function CountTimes(s: string): (n: nat)
    ensures n == |Matches(s)|
    ensures n > 0 <==> exists p :: MatchAt(s, p)
  {
    MatchesNonEmpty(s);
    |TimeTokens(s)|
  }

  /** A lone showtime counts once. */
  lemma LoneTimeCounts()
    ensures Matches("20:30") == [0]
  {
  }

  /** A candidate glued to a further digit on either side is not a showtime. */
  lemma GluedDigitsDoNotCount()
    ensures Matches("123:45") == []
    ensures Matches("12:345") == []
  {
  }

  /** Hours past 23 and minutes past 59 are not showtimes. */
  lemma OutOfRangeDoesNotCount()
    ensures Matches("24:00") == []
    ensures Matches("12:60") == []
  {
  }

  /** Overlapping candidates count once: the scan resumes after the first match. */
  lemma OverlapCountsOnce()
    ensures Matches("12:34:56") == [0]
    ensures Matches("12:23:45") == [0]
  {
  }

  /** An accented letter is a word character, so it blocks the boundary. */
  lemma AccentedLetterIsWordChar()
    ensures Matches("à 20:30") == [2]
    ensures Matches("à20:30") == []
    ensures Matches("²20:30") == []
  {
    var s := "à 20:30";
    assert s[2..7] == "20:30";
    assert !MatchAt(s, 0) && !MatchAt(s, 1) && MatchAt(s, 2);
    assert MatchesFrom(s, 0) == MatchesFrom(s, 2) == [2];
  }
}
