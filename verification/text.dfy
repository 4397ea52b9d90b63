/**
  String primitives of the picker: `String.prototype.indexOf` as a substring
  search, the `indexOf(...) > -1` containment test built on it, and
  `toLowerCase` restricted to ASCII letters.
 */
module Text {

  /** `needle` appears in `hay` starting at index `i`. */
  predicate OccursAt(hay: string, needle: string, i: int) {
    0 <= i && i + |needle| <= |hay| && hay[i..i + |needle|] == needle
  }

  /** `needle` appears somewhere in `hay`. */
  ghost predicate Occurs(hay: string, needle: string) {
    exists i :: OccursAt(hay, needle, i)
  }

  /** Dropping the first character shifts every occurrence one place left. */
  lemma {:induction false} OccursAtShift(hay: string, needle: string, j: int)
    requires |hay| > 0 && 0 <= j
    ensures OccursAt(hay[1..], needle, j) <==> OccursAt(hay, needle, j + 1)
  {
    if j + |needle| <= |hay| - 1 {
      assert hay[1..][j..j + |needle|] == hay[j + 1..j + 1 + |needle|];
    }
  }

  /** `hay.indexOf(needle)`: where `needle` first occurs in `hay`, or -1.
      The empty needle occurs at 0, as in JavaScript. */
  function IndexOf(hay: string, needle: string): (r: int)
    ensures r == -1 || OccursAt(hay, needle, r)
    decreases |hay|
  {
    if |hay| < |needle| then -1
    else if hay[..|needle|] == needle then 0
    else
      var k := IndexOf(hay[1..], needle);
      if k == -1 then -1
      else
        OccursAtShift(hay, needle, k);
        k + 1
  }

  /** `IndexOf` finds the first occurrence, and answers -1 only when there is none. */
  lemma {:induction false} IndexOfIsFirst(hay: string, needle: string, j: int)
    requires 0 <= j
    requires IndexOf(hay, needle) == -1 || j < IndexOf(hay, needle)
    ensures !OccursAt(hay, needle, j)
    decreases |hay|
  {
    if |hay| >= |needle| && hay[..|needle|] != needle && j > 0 {
      OccursAtShift(hay, needle, j - 1);
      IndexOfIsFirst(hay[1..], needle, j - 1);
    }
  }

  /** The containment test `hay.indexOf(needle) > -1`. */
  predicate Contains(hay: string, needle: string) {
    IndexOf(hay, needle) > -1
  }

  /** The containment test holds exactly when `needle` is a substring of `hay`. */
  lemma {:induction false} ContainsIffOccurs(hay: string, needle: string)
    ensures Contains(hay, needle) <==> Occurs(hay, needle)
  {
    if Occurs(hay, needle) && !Contains(hay, needle) {
      var i :| OccursAt(hay, needle, i);
      IndexOfIsFirst(hay, needle, i);
    }
  }

  /** A needle whose first character never appears in `hay` is not found. */
  lemma {:induction false} AbsentFirstCharNotFound(hay: string, needle: string)
    requires |needle| > 0 && needle[0] !in hay
    ensures IndexOf(hay, needle) == -1
  {
    ContainsIffOccurs(hay, needle);
    forall i
      ensures !OccursAt(hay, needle, i)
    {
      if 0 <= i && i + |needle| <= |hay| {
        assert hay[i..i + |needle|][0] == hay[i];
      }
    }
  }

  /** A substring of a part is a substring of the whole. */
  lemma {:induction false} OccursInConcat(a: string, b: string, needle: string)
    requires Occurs(a, needle) || Occurs(b, needle)
    ensures Occurs(a + b, needle)
  {
    if Occurs(a, needle) {
      var i :| OccursAt(a, needle, i);
      assert (a + b)[i..i + |needle|] == a[i..i + |needle|];
      assert OccursAt(a + b, needle, i);
    } else {
      var i :| OccursAt(b, needle, i);
      assert (a + b)[|a| + i..|a| + i + |needle|] == b[i..i + |needle|];
      assert OccursAt(a + b, needle, |a| + i);
    }
  }

  /** `toLowerCase` on one character, for the ASCII range only. */
  function LowerChar(c: char): char {
    if 'A' <= c <= 'Z' then (c as int + 32) as char else c
  }

  function Lower(s: string): (r: string)
    ensures |r| == |s|
    ensures forall i :: 0 <= i < |r| ==> !('A' <= r[i] <= 'Z')
    ensures forall i :: 0 <= i < |s| && 'A' <= s[i] <= 'Z' ==> r[i] as int == s[i] as int + 32
    ensures forall i :: 0 <= i < |s| && !('A' <= s[i] <= 'Z') ==> r[i] == s[i]
  {
    seq(|s|, i requires 0 <= i < |s| => LowerChar(s[i]))
  }

  /** Lower-casing works character by character, so it distributes over concatenation. */
  lemma LowerAppend(a: string, b: string)
    ensures Lower(a + b) == Lower(a) + Lower(b)
  {
  }

  /** Lower-casing twice is lower-casing once. */
  lemma LowerIdempotent(s: string)
    ensures Lower(Lower(s)) == Lower(s)
  {
  }
}
