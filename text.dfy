/** Case-insensitive substring matching, the `icontains` lookup of the
    admin search, with case folding restricted to ASCII letters. */
module Text {

  function LowerChar(c: char): char {
    if 'A' <= c <= 'Z' then (c as int + 32) as char else c
  }

  function UpperChar(c: char): char {
    if 'a' <= c <= 'z' then (c as int - 32) as char else c
  }

  function Lower(s: string): string {
    seq(|s|, i requires 0 <= i < |s| => LowerChar(s[i]))
  }

  function Upper(s: string): string {
    seq(|s|, i requires 0 <= i < |s| => UpperChar(s[i]))
  }

  /** `needle` occurs in `s` starting at position `i`. */
  predicate OccursAt(s: string, needle: string, i: nat) {
    i + |needle| <= |s| && s[i..i + |needle|] == needle
  }

  /** `needle` is a substring of `s`: a prefix of `s` or of one of its tails. */
  predicate Contains(s: string, needle: string)
    decreases |s|
  {
    needle <= s || (|s| > 0 && Contains(s[1..], needle))
  }

  /** The `icontains` lookup: `needle` occurs in `s` ignoring letter case. */
  predicate IContains(s: string, needle: string)
    ensures IContains(s, needle) <==> exists i: nat :: OccursAt(Lower(s), Lower(needle), i)
  {
    ContainsIffOccurs(Lower(s), Lower(needle));
    Contains(Lower(s), Lower(needle))
  }

  /** Contains agrees with the positional definition of a substring, in both
      directions. */
  lemma {:induction false} ContainsIffOccurs(s: string, needle: string)
    ensures Contains(s, needle) <==> exists i: nat :: OccursAt(s, needle, i)
    decreases |s|
  {
    if needle <= s {
      assert OccursAt(s, needle, 0);
    } else if |s| == 0 {
      assert needle != [];
      forall i: nat ensures !OccursAt(s, needle, i) {
      }
    } else {
      ContainsIffOccurs(s[1..], needle);
      if Contains(s[1..], needle) {
        var i: nat :| OccursAt(s[1..], needle, i);
        assert s[i + 1..i + 1 + |needle|] == s[1..][i..i + |needle|];
        assert OccursAt(s, needle, i + 1);
      } else {
        forall i: nat ensures !OccursAt(s, needle, i) {
          if i == 0 {
            assert OccursAt(s, needle, 0) ==> needle <= s;
          } else if i + |needle| <= |s| {
            assert s[1..][i - 1..i - 1 + |needle|] == s[i..i + |needle|];
            assert !OccursAt(s[1..], needle, i - 1);
          }
        }
      }
    }
  }

  /** The empty search term occurs in every string. */
  lemma EmptyNeedleEverywhere(s: string)
    ensures IContains(s, "")
  {
  }

  /** Matching ignores the case of the searched text, and of the term. */
  lemma {:induction false} IContainsIgnoresCase(s: string, needle: string)
    ensures IContains(Upper(s), needle) == IContains(s, needle)
    ensures IContains(s, Upper(needle)) == IContains(s, needle)
    ensures IContains(Lower(s), needle) == IContains(s, needle)
    ensures IContains(s, Lower(needle)) == IContains(s, needle)
  {
    LowerUpper(s);
    LowerUpper(needle);
    LowerLower(s);
    LowerLower(needle);
  }

  lemma LowerUpper(s: string)
    ensures Lower(Upper(s)) == Lower(s)
  {
  }

  lemma LowerLower(s: string)
    ensures Lower(Lower(s)) == Lower(s)
  {
  }
}
