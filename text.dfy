/** Character-level text operations used by the search: lower-casing and
    substring containment. Lower-casing covers ASCII letters only. */
module Text {

  /** The lower-case form of one character: 'A'..'Z' map to 'a'..'z',
      every other character is left as it is. */
  function LowerChar(c: char): (r: char)
    ensures !IsUpper(r)
    ensures IsUpper(c) ==> r == Alphabet[c as int - 'A' as int]
    ensures !IsUpper(c) ==> r == c
  {
    if 'A' <= c <= 'Z' then (c as int + 32) as char else c
  }

  predicate IsUpper(c: char) {
    'A' <= c <= 'Z'
  }

  /** The lower-case ASCII letters in alphabetical order. */
  const Alphabet: string := "abcdefghijklmnopqrstuvwxyz"

  /** Lower-casing a character that is already lower-cased changes nothing. */
  lemma LowerCharIdempotent(c: char)
    ensures LowerChar(LowerChar(c)) == LowerChar(c)
  {
  }

  /** The lower-case form of a string, character by character. */
  function Lower(s: string): (r: string)
    ensures |r| == |s|
    ensures forall i :: 0 <= i < |s| ==> r[i] == LowerChar(s[i])
  {
    if s == [] then [] else [LowerChar(s[0])] + Lower(s[1..])
  }

  /** A lower-cased string holds no upper-case letter. */
  lemma LowerHasNoUpper(s: string)
    ensures forall i :: 0 <= i < |Lower(s)| ==> !IsUpper(Lower(s)[i])
  {
  }

  /** Lower-casing twice is lower-casing once. */
  lemma LowerIdempotent(s: string)
    ensures Lower(Lower(s)) == Lower(s)
  {
  }

  /** Reference meaning of "needle occurs in hay at position i". */
  ghost predicate OccursAt(needle: string, hay: string, i: int) {
    0 <= i && i + |needle| <= |hay| && hay[i..i + |needle|] == needle
  }

  /** Reference meaning of "needle is a substring of hay". */
  ghost predicate Occurs(needle: string, hay: string) {
    exists i :: OccursAt(needle, hay, i)
  }

  /** The substring test, scanning hay from the front: Python's `needle in hay`. */
  function Contains(needle: string, hay: string): bool
  {
    (|needle| <= |hay| && hay[..|needle|] == needle)
    || (hay != [] && Contains(needle, hay[1..]))
  }

  /** The scan finds the needle exactly when it occurs somewhere in hay. */
  lemma {:induction false} ContainsIff(needle: string, hay: string)
    ensures Contains(needle, hay) <==> Occurs(needle, hay)
  {
    if |needle| <= |hay| && hay[..|needle|] == needle {
      assert OccursAt(needle, hay, 0);
    } else if hay == [] {
      assert forall i :: !OccursAt(needle, hay, i);
    } else {
      ContainsIff(needle, hay[1..]);
      if Occurs(needle, hay[1..]) {
        var i :| OccursAt(needle, hay[1..], i);
        assert hay[1..][i..i + |needle|] == hay[i + 1..i + 1 + |needle|];
        assert OccursAt(needle, hay, i + 1);
      }
      if Occurs(needle, hay) {
        var i :| OccursAt(needle, hay, i);
        assert hay[0..|needle|] == hay[..|needle|];
        assert i != 0;
        assert hay[1..][i - 1..i - 1 + |needle|] == hay[i..i + |needle|];
        assert OccursAt(needle, hay[1..], i - 1);
      }
    }
  }

  /** A non-empty needle never occurs in the empty string. */
  lemma NothingInEmpty(needle: string)
    requires needle != []
    ensures !Contains(needle, [])
  {
  }

  /** The empty needle occurs in every string (Python: `"" in s` is true). */
  lemma EmptyInEverything(hay: string)
    ensures Contains([], hay)
  {
  }
}
