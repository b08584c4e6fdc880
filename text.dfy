/**
 * Case-insensitive substring matching, the meaning of
 * `column.ilike(f"%{pattern}%")` for a pattern without LIKE wildcards,
 * with case folding taken as ASCII lower-casing.
 */
module Text {

  function LowerChar(c: char): (r: char)
    ensures 'A' <= c <= 'Z' ==> 'a' <= r <= 'z'
    ensures !('A' <= c <= 'Z') ==> r == c
  {
    if 'A' <= c <= 'Z' then (c as int - 'A' as int + 'a' as int) as char else c
  }

  function Lower(s: string): (r: string)
    ensures |r| == |s|
    ensures forall i :: 0 <= i < |s| ==> r[i] == LowerChar(s[i])
  {
    if s == [] then [] else [LowerChar(s[0])] + Lower(s[1..])
  }

  /** Lower-casing twice is lower-casing once. */
  lemma LowerIdempotent(s: string)
    ensures Lower(Lower(s)) == Lower(s)
  {
  }

  /** `needle` occurs in `hay` starting at position `i`. */
  ghost predicate OccursAt(needle: string, hay: string, i: int) {
    0 <= i && i + |needle| <= |hay| && hay[i..i + |needle|] == needle
  }

  /** `needle` is a substring of `hay`: some position of `hay` starts it. */
  function Contains(hay: string, needle: string): (b: bool)
    ensures b <==> exists i :: OccursAt(needle, hay, i)
    decreases |hay|
  {
    if |needle| <= |hay| && hay[..|needle|] == needle then
      assert OccursAt(needle, hay, 0);
      true
    else if hay == [] then
      false
    else
      ShiftOccurrence(needle, hay);
      Contains(hay[1..], needle)
  }

  /** Occurrences in `hay` past its first position are the occurrences in `hay[1..]`, shifted by one. */
  lemma ShiftOccurrence(needle: string, hay: string)
    requires hay != [] && !(|needle| <= |hay| && hay[..|needle|] == needle)
    ensures (exists i :: OccursAt(needle, hay, i)) <==> (exists j :: OccursAt(needle, hay[1..], j))
  {
    if exists i :: OccursAt(needle, hay, i) {
      var i :| OccursAt(needle, hay, i);
      assert i != 0;
      assert hay[1..][i - 1..i - 1 + |needle|] == hay[i..i + |needle|];
      assert OccursAt(needle, hay[1..], i - 1);
    }
    if exists j :: OccursAt(needle, hay[1..], j) {
      var j :| OccursAt(needle, hay[1..], j);
      assert hay[1..][j..j + |needle|] == hay[j + 1..j + 1 + |needle|];
      assert OccursAt(needle, hay, j + 1);
    }
  }

  /** `value ILIKE '%' || pattern || '%'` for a pattern free of `%`, `_` and `\`. */
  predicate ILike(value: string, pattern: string)
    ensures ILike(value, pattern) ==> exists i :: OccursAt(Lower(pattern), Lower(value), i)
    ensures (exists i :: OccursAt(Lower(pattern), Lower(value), i)) ==> ILike(value, pattern)
  {
    Contains(Lower(value), Lower(pattern))
  }

  /** The match ignores the case of the pattern and of the value. */
  lemma ILikeIgnoresCase(value: string, pattern: string)
    ensures ILike(value, pattern) == ILike(Lower(value), Lower(pattern))
  {
    LowerIdempotent(value);
    LowerIdempotent(pattern);
  }

  /** An empty pattern (`'%%'`) matches every value. */
  lemma EmptyPatternMatchesAll(value: string)
    ensures ILike(value, "")
  {
    assert OccursAt("", Lower(value), 0);
  }
}
