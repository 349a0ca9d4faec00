/**
  The reservation-keyword test of check_availability: is one of four
  keywords a substring of the lower-cased page text?
*/
module Keywords {

  /** `str.lower()` on one character: ASCII and Latin-1 capitals map to their small letters. */
  function LowerChar(c: char): (r: char)
    ensures ('A' <= c <= 'Z' || ('\U{C0}' <= c <= '\U{DE}' && c != '\U{D7}')) ==> r as int == c as int + 32
    ensures !('A' <= c <= 'Z' || ('\U{C0}' <= c <= '\U{DE}' && c != '\U{D7}')) ==> r == c
  {
    if 'A' <= c <= 'Z' || ('\U{C0}' <= c <= '\U{DE}' && c != '\U{D7}') then
      (c as int + 32) as char
    else
      c
  }

  /** `str.lower()`, character by character. */
  function Lower(s: string): (r: string)
    ensures |r| == |s|
    ensures forall i :: 0 <= i < |s| ==> r[i] == LowerChar(s[i])
  {
    seq(|s|, i requires 0 <= i < |s| => LowerChar(s[i]))
  }

  /** `needle` occurs in `hay` starting at index `j`. */
  predicate OccursAt(hay: string, needle: string, j: nat) {
    j + |needle| <= |hay| && hay[j..j + |needle|] == needle
  }

  /** Python's `needle in hay`, searching from index `i` on. */
  function ContainsFrom(hay: string, needle: string, i: nat): (r: bool)
    requires i <= |hay|
    ensures r <==> exists j :: i <= j && OccursAt(hay, needle, j)
    decreases |hay| - i
  {
    if |hay| - i < |needle| then
      false
    else if OccursAt(hay, needle, i) then
      true
    else
      ContainsFrom(hay, needle, i + 1)
  }

  /** Python's `needle in hay`. */
  function Contains(hay: string, needle: string): (r: bool)
    ensures r <==> exists j :: OccursAt(hay, needle, j)
  {
    ContainsFrom(hay, needle, 0)
  }

  const ReservationKeywords: seq<string> := ["réserver", "reserver", "e-billet", "billetterie"]

  /** `any(k in body_text.lower() for k in reservation_keywords)` */
  function ReservationSignal(text: string): (r: bool)
    ensures r <==> exists k, j :: k in ReservationKeywords && OccursAt(Lower(text), k, j)
  {
    var lowered := Lower(text);
    exists k | k in ReservationKeywords :: Contains(lowered, k)
  }

  /** The capital of an ASCII or Latin-1 small letter (ß and ÿ, whose capitals lie elsewhere, excepted). */
  function UpperChar(c: char): (r: char)
    ensures ('a' <= c <= 'z' || ('\U{E0}' <= c <= '\U{FE}' && c != '\U{F7}')) ==> r as int == c as int - 32
    ensures !('a' <= c <= 'z' || ('\U{E0}' <= c <= '\U{FE}' && c != '\U{F7}')) ==> r == c
  {
    if 'a' <= c <= 'z' || ('\U{E0}' <= c <= '\U{FE}' && c != '\U{F7}') then
      (c as int - 32) as char
    else
      c
  }

  /** A capital and its small letter lower-case alike. */
  lemma LowerOfUpper(c: char)
    ensures LowerChar(UpperChar(c)) == LowerChar(c)
  {
  }

  /** `b` is `a` with any of its letters, small or capital, written in the other case. */
  ghost predicate SameIgnoringCase(a: string, b: string) {
    |a| == |b| && forall i :: 0 <= i < |a| ==> b[i] == a[i] || b[i] == UpperChar(a[i]) || a[i] == UpperChar(b[i])
  }

  /** The signal does not depend on the case of the text. */
  lemma SignalIgnoresCase(a: string, b: string)
    requires SameIgnoringCase(a, b)
    ensures ReservationSignal(a) == ReservationSignal(b)
  {
    forall i | 0 <= i < |a|
      ensures Lower(a)[i] == Lower(b)[i]
    {
      LowerOfUpper(a[i]);
      LowerOfUpper(b[i]);
    }
    assert Lower(a) == Lower(b);
  }

  /** Lower-casing twice is lower-casing once. */
  lemma LowerIsIdempotent(s: string)
    ensures Lower(Lower(s)) == Lower(s)
  {
  }

  /** A capitalised, accented keyword still gives the signal. */
  lemma CapitalisedKeywordSignals()
    ensures ReservationSignal("RÉSERVER")
  {
    assert OccursAt(Lower("RÉSERVER"), "réserver", 0);
  }
}
