/** Strings as the room search compares them: ASCII lower-casing
    (`String.prototype.toLowerCase`) and substring search
    (`String.prototype.includes`). */
module Text {

  /** Lower-cases one ASCII letter and leaves every other character alone. */
  function LowerChar(c: char): char
  {
    if 'A' <= c <= 'Z' then (c as int + 32) as char else c
  }

  /** `s.toLowerCase()`, restricted to ASCII. */
  function Lower(s: string): string
  {
    seq(|s|, i requires 0 <= i < |s| => LowerChar(s[i]))
  }

  /** `c` is not an ASCII upper-case letter. */
  predicate NotUpperCase(c: char)
  {
    !('A' <= c <= 'Z')
  }

  /** Lowering yields a string of the same length with no upper-case letter:
      each upper-case letter becomes the lower-case letter 32 code points
      above it, and every other character stays as it is. */
  lemma LowerShape(s: string)
    ensures |Lower(s)| == |s|
    ensures forall i :: 0 <= i < |s| ==> NotUpperCase(Lower(s)[i])
    ensures forall i :: 0 <= i < |s| && NotUpperCase(s[i]) ==> Lower(s)[i] == s[i]
    ensures forall i :: 0 <= i < |s| && !NotUpperCase(s[i]) ==> 'a' <= Lower(s)[i] <= 'z' && Lower(s)[i] as int == s[i] as int + 32
  {
  }

  /** Lowering twice is lowering once, so comparing `Lower` forms is
      insensitive to an input that is already lower-case. */
  lemma LowerIdempotent(s: string)
    ensures Lower(Lower(s)) == Lower(s)
  {
    LowerShape(s);
    LowerShape(Lower(s));
  }

  /** `s` begins with `prefix`. */
  predicate StartsWith(s: string, prefix: string)
  {
    |prefix| <= |s| && s[..|prefix|] == prefix
  }

  /** `hay.includes(needle)`: tries every start position from the left. */
  predicate Contains(hay: string, needle: string)
    decreases |hay|
  {
    StartsWith(hay, needle) || (|hay| > 0 && Contains(hay[1..], needle))
  }

  /** `needle` occurs in `hay` starting at position `i`. */
  ghost predicate OccursAt(hay: string, needle: string, i: int)
  {
    0 <= i && i + |needle| <= |hay| && hay[i..i + |needle|] == needle
  }

  /** The search agrees with the definition of a substring: `Contains` holds
      exactly when the needle occurs at some position of the haystack. */
  lemma {:induction false} ContainsIffOccurs(hay: string, needle: string)
    ensures Contains(hay, needle) <==> exists i :: OccursAt(hay, needle, i)
    decreases |hay|
  {
    if StartsWith(hay, needle) {
      assert OccursAt(hay, needle, 0);
    } else if |hay| == 0 {
      // the needle is not empty, so it cannot fit anywhere
      assert |needle| > 0;
    } else {
      var tail := hay[1..];
      ContainsIffOccurs(tail, needle);
      if Contains(tail, needle) {
        var i :| OccursAt(tail, needle, i);
        assert hay[i + 1..i + 1 + |needle|] == tail[i..i + |needle|];
        assert OccursAt(hay, needle, i + 1);
      }
      if exists i :: OccursAt(hay, needle, i) {
        var i :| OccursAt(hay, needle, i);
        assert i != 0;
        assert hay[i..i + |needle|] == tail[i - 1..i - 1 + |needle|];
        assert OccursAt(tail, needle, i - 1);
      }
    }
  }

  /** A needle longer than the haystack is never found. */
  lemma {:induction false} ContainsNoLonger(hay: string, needle: string)
    ensures Contains(hay, needle) ==> |needle| <= |hay|
    decreases |hay|
  {
    if |hay| > 0 {
      ContainsNoLonger(hay[1..], needle);
    }
  }

  /** Every string contains itself, and every string contains the empty one. */
  lemma ContainsSelfAndEmpty(s: string)
    ensures Contains(s, s)
    ensures Contains(s, "")
  {
    assert s[..|s|] == s;
  }
}
