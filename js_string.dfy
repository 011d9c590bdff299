/** The two JavaScript string operations the breed search relies on:
    `String.prototype.toLowerCase` (restricted to ASCII letters) and
    `String.prototype.includes`. */
module JsString {

  predicate IsUpper(c: char) {
    'A' <= c <= 'Z'
  }

  /** `toLowerCase` on one character: A-Z become a-z, every other character is kept. */
  function LowerChar(c: char): (r: char)
    ensures !IsUpper(r)
    ensures IsUpper(c) ==> 'a' <= r <= 'z' && r as int - 'a' as int == c as int - 'A' as int
    ensures !IsUpper(c) ==> r == c
  {
    if IsUpper(c) then (c as int - 'A' as int + 'a' as int) as char else c
  }

  /** `s.toLowerCase()`: lower-cases character by character and keeps the length. */
  function Lower(s: string): (r: string)
    ensures |r| == |s|
    ensures forall i :: 0 <= i < |s| ==> r[i] == LowerChar(s[i])
    ensures forall i :: 0 <= i < |r| ==> !IsUpper(r[i])
  {
    seq(|s|, i requires 0 <= i < |s| => LowerChar(s[i]))
  }

  /** Lower-casing twice is lower-casing once. */
  lemma LowerIdempotent(s: string)
    ensures Lower(Lower(s)) == Lower(s)
  {
  }

  /** Only the empty string lower-cases to the empty string. */
  lemma LowerEmpty(s: string)
    ensures Lower(s) == "" <==> s == ""
  {
  }

  /** `needle` sits in `hay` at position `i`. */
  predicate OccursAt(hay: string, needle: string, i: int) {
    0 <= i && i + |needle| <= |hay| && hay[i..i + |needle|] == needle
  }

  predicate StartsWith(hay: string, needle: string) {
    |needle| <= |hay| && hay[..|needle|] == needle
  }

  /** An occurrence in the tail of `hay` is an occurrence in `hay` one place further on,
      and an occurrence in `hay` past position 0 is one in the tail. */
  lemma OccursAtTail(hay: string, needle: string)
    requires |hay| > 0
    ensures forall i :: OccursAt(hay[1..], needle, i) ==> OccursAt(hay, needle, i + 1)
    ensures forall i :: OccursAt(hay, needle, i) && i > 0 ==> OccursAt(hay[1..], needle, i - 1)
  {
    forall i | OccursAt(hay[1..], needle, i)
      ensures OccursAt(hay, needle, i + 1)
    {
      assert hay[i + 1..i + 1 + |needle|] == hay[1..][i..i + |needle|];
    }
    forall i | OccursAt(hay, needle, i) && i > 0
      ensures OccursAt(hay[1..], needle, i - 1)
    {
      assert hay[1..][i - 1..i - 1 + |needle|] == hay[i..i + |needle|];
    }
  }

  /** `hay.includes(needle)`: a scan from the left for a position where `needle` starts.
      The result is true exactly when `needle` occurs somewhere in `hay`; the empty
      needle occurs everywhere. */
  function Includes(hay: string, needle: string): (r: bool)
    ensures r <==> exists i :: OccursAt(hay, needle, i)
    decreases |hay|
  {
    if StartsWith(hay, needle) then
      assert OccursAt(hay, needle, 0);
      true
    else if |hay| == 0 then
      false
    else
      OccursAtTail(hay, needle);
      Includes(hay[1..], needle)
  }

  /** Every string includes the empty string, and a non-empty needle is never found
      in a shorter haystack. */
  lemma IncludesBounds(hay: string, needle: string)
    ensures Includes(hay, "")
    ensures Includes(hay, needle) ==> |needle| <= |hay|
  {
    assert OccursAt(hay, "", 0);
  }
}
