/**
  The `", "`-delimited representation of a list of identifiers:
  JavaScript's `s.split(', ')` and `xs.join(', ')`, and the round trips
  between them.
 */
module Delimited {
  import opened Text

  const Sep: string := ", "

  /** The delimiter starts at index `i` of `s`. This is `OccursAt(s, Sep, i)`
      (see `FreeOfSepIffNotOccurs`) spelled out character by character, the
      form the proofs about `Split` (`ConsFree`, `SplitCons`) reason with. */
  predicate SepAt(s: string, i: int) {
    0 <= i && i + 1 < |s| && s[i] == ',' && s[i + 1] == ' '
  }

  /** `s` contains no delimiter, so it survives a join/split round trip as one piece. */
  ghost predicate FreeOfSep(s: string) {
    forall i :: !SepAt(s, i)
  }

  ghost predicate AllFreeOfSep(xs: seq<string>) {
    forall x :: x in xs ==> FreeOfSep(x)
  }

  /** `FreeOfSep` is the negation of the substring test for the delimiter. */
  lemma FreeOfSepIffNotOccurs(s: string)
    ensures FreeOfSep(s) <==> !Occurs(s, Sep)
  {
    forall i
      ensures SepAt(s, i) <==> OccursAt(s, Sep, i)
    {
      if SepAt(s, i) {
        assert s[i..i + 2] == Sep;
      }
    }
  }

  /** `s.split(', ')`: the pieces between left-to-right, non-overlapping
      occurrences of the delimiter. Like JavaScript, the empty string splits
      into one empty piece, never into no pieces. */
  function Split(s: string): (parts: seq<string>)
    ensures |parts| >= 1
    ensures parts[0] <= s
    ensures AllFreeOfSep(parts)
    decreases |s|
  {
    if |s| < 2 then
      [s]
    else if s[0] == ',' && s[1] == ' ' then
      [""] + Split(s[2..])
    else
      var rest := Split(s[1..]);
      var first := [s[0]] + rest[0];
      assert |rest[0]| > 0 ==> rest[0][0] == s[1];
      ConsFree(s[0], rest[0]);
      assert forall x :: x in rest[1..] ==> x in rest;
      [first] + rest[1..]
  }

  /** Putting a character in front of a delimiter-free string creates a
      delimiter only when the character is the comma of one. */
  lemma {:induction false} ConsFree(c: char, t: string)
    requires FreeOfSep(t)
    requires |t| > 0 ==> !(c == ',' && t[0] == ' ')
    ensures FreeOfSep([c] + t)
  {
    forall i
      ensures !SepAt([c] + t, i)
    {
      if i >= 1 {
        assert !SepAt(t, i - 1);
      }
    }
  }

  /** `xs.join(', ')`; joining no pieces gives the empty string. */
  function Join(xs: seq<string>): (s: string)
    ensures xs == [] ==> s == ""
    ensures |xs| >= 1 ==> xs[0] <= s
    ensures |xs| >= 2 ==> OccursAt(s, Sep, |xs[0]|)
    decreases |xs|
  {
    if |xs| == 0 then ""
    else if |xs| == 1 then xs[0]
    else xs[0] + Sep + Join(xs[1..])
  }

  /** Joining the pieces of any string gives the string back. */
  lemma {:induction false} JoinSplit(s: string)
    ensures Join(Split(s)) == s
    decreases |s|
  {
    if |s| < 2 {
    } else if s[0] == ',' && s[1] == ' ' {
      JoinSplit(s[2..]);
      assert Split(s) == [""] + Split(s[2..]);
      assert s == Sep + s[2..];
    } else {
      var rest := Split(s[1..]);
      JoinSplit(s[1..]);
      assert Split(s) == [[s[0]] + rest[0]] + rest[1..];
      JoinExtendsHead(s[0], rest);
      assert s == [s[0]] + s[1..];
    }
  }

  /** Prefixing the first piece with a character prefixes the join with it. */
  lemma {:induction false} JoinExtendsHead(c: char, xs: seq<string>)
    requires |xs| >= 1
    ensures Join([[c] + xs[0]] + xs[1..]) == [c] + Join(xs)
  {
    var head := [c] + xs[0];
    var ys := [head] + xs[1..];
    assert ys[0] == head && ys[1..] == xs[1..];
    if |xs| > 1 {
      var tail := Join(xs[1..]);
      assert Join(xs) == xs[0] + Sep + tail;
      assert Join(ys) == head + Sep + tail;
      assert head + Sep + tail == [c] + (xs[0] + Sep + tail);
    }
  }

  /** A delimiter-free string splits into itself. */
  lemma {:induction false} SplitFree(a: string)
    requires FreeOfSep(a)
    ensures Split(a) == [a]
    decreases |a|
  {
    if |a| >= 2 {
      assert !SepAt(a, 0);
      assert forall i :: SepAt(a[1..], i) ==> SepAt(a, i + 1);
      SplitFree(a[1..]);
      assert [a[0]] + a[1..] == a;
    }
  }

  /** A delimiter-free first piece is split off exactly at the delimiter that follows it. */
  lemma {:induction false} SplitCons(a: string, rest: string)
    requires FreeOfSep(a)
    ensures Split(a + Sep + rest) == [a] + Split(rest)
    decreases |a|
  {
    var s := a + Sep + rest;
    if |a| == 0 {
      assert s[2..] == rest;
    } else {
      assert s[0] == a[0];
      assert |a| == 1 ==> s[1] == ',';
      assert |a| >= 2 ==> s[1] == a[1] && !SepAt(a, 0);
      assert forall i :: SepAt(a[1..], i) ==> SepAt(a, i + 1);
      assert s[1..] == a[1..] + Sep + rest;
      SplitCons(a[1..], rest);
      assert [a[0]] + a[1..] == a;
    }
  }

  /** Splitting the join of delimiter-free pieces recovers the pieces, as
      long as there is at least one piece (`[]` and `[""]` both join to `""`). */
  lemma {:induction false} SplitJoin(xs: seq<string>)
    requires |xs| >= 1
    requires AllFreeOfSep(xs)
    ensures Split(Join(xs)) == xs
    decreases |xs|
  {
    if |xs| == 1 {
      SplitFree(xs[0]);
    } else {
      assert forall x :: x in xs[1..] ==> x in xs;
      assert FreeOfSep(xs[0]);
      SplitJoin(xs[1..]);
      SplitCons(xs[0], Join(xs[1..]));
      assert [xs[0]] + xs[1..] == xs;
    }
  }

  /** `SplitJoin` as an implication, for use where its premises are not known. */
  lemma {:induction false} SplitJoinWhenFree(xs: seq<string>)
    ensures |xs| >= 1 && AllFreeOfSep(xs) ==> Split(Join(xs)) == xs
  {
    if |xs| >= 1 && AllFreeOfSep(xs) {
      SplitJoin(xs);
    }
  }
}
