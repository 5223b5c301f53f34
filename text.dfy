/** String operations the scripts rely on: `str.lower()` and the substring test `a in b`. */
module Text {

  /** Lower-case one character (ASCII letters only; see README). */
  function LowerChar(c: char): char
  {
    if 'A' <= c <= 'Z' then (c as int + 32) as char else c
  }

  /** `s.lower()`, character by character. */
  function Lower(s: string): (r: string)
    ensures |r| == |s|
    ensures forall i :: 0 <= i < |s| ==> r[i] == LowerChar(s[i])
  {
    seq(|s|, i requires 0 <= i < |s| => LowerChar(s[i]))
  }

  /** `needle` occurs in `hay` starting at position `i`. */
  predicate OccursAt(hay: string, needle: string, i: int)
  {
    0 <= i && i + |needle| <= |hay| && hay[i..i + |needle|] == needle
  }

  /** Python's `needle in hay` on strings: substring containment. */
  predicate Contains(hay: string, needle: string)
  {
    exists i :: 0 <= i <= |hay| - |needle| && OccursAt(hay, needle, i)
  }

  /** A prefix is contained. */
  lemma PrefixContained(hay: string, needle: string)
    requires needle <= hay
    ensures Contains(hay, needle)
  {
    assert hay[0..|needle|] == needle;
    assert OccursAt(hay, needle, 0);
  }

  /** The middle of a concatenation is contained in it. */
  lemma InfixContained(a: string, b: string, c: string)
    ensures Contains(a + b + c, b)
  {
    var hay := a + b + c;
    assert hay[|a|..|a| + |b|] == b;
    assert OccursAt(hay, b, |a|);
  }

  /** Lower-casing leaves text without capitals unchanged. */
  lemma LowerUnchanged(s: string)
    requires forall i :: 0 <= i < |s| ==> !('A' <= s[i] <= 'Z')
    ensures Lower(s) == s
  {
  }

  /** A character the haystack lacks rules out every needle that has it. */
  lemma MissingCharRulesOut(hay: string, needle: string, k: int)
    requires 0 <= k < |needle| && needle[k] !in hay
    ensures !Contains(hay, needle)
  {
    forall i | 0 <= i <= |hay| - |needle|
      ensures !OccursAt(hay, needle, i)
    {
      assert hay[i..i + |needle|][k] == hay[i + k];
    }
  }
}
