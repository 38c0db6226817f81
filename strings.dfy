/**
 * The string operations the application relies on: Python's `s.split(c)[-1]`
 * and `s.rsplit(c, 1)[1]` (text after the last separator), `s.split(c)[0]`
 * (text before the first one), ASCII lower-casing, and substring search.
 */
module Strings {

  /**
   * The text after the last `c` in `s`, or all of `s` when `c` does not occur:
   * Python's `s.split(c)[-1]`, and `s.rsplit(c, 1)[1]` when `c in s`.
   */
  function AfterLast(s: string, c: char): (r: string)
    ensures c !in r
    ensures |r| <= |s| && r == s[|s| - |r|..]
    ensures c in s ==> |r| < |s| && s[|s| - |r| - 1] == c
    ensures c !in s ==> r == s
  {
    if |s| == 0 then []
    else if s[|s| - 1] == c then []
    else
      var init := s[..|s| - 1];
      var rest := AfterLast(init, c);
      assert s == init + [s[|s| - 1]];
      assert s[|s| - |rest| - 1..] == init[|init| - |rest|..] + [s[|s| - 1]];
      assert c in s ==> c in init;
      rest + [s[|s| - 1]]
  }

  /** The text before the first `c` in `s`, or all of `s`: Python's `s.split(c)[0]`. */
  function BeforeFirst(s: string, c: char): (r: string)
    ensures c !in r
    ensures |r| <= |s| && r == s[..|r|]
    ensures c in s ==> |r| < |s| && s[|r|] == c
    ensures c !in s ==> r == s
  {
    if |s| == 0 then []
    else if s[0] == c then []
    else
      assert s == [s[0]] + s[1..];
      [s[0]] + BeforeFirst(s[1..], c)
  }

  /** Splitting `a + [c] + b` at its last `c` gives back `b` when `b` holds no `c`. */
  lemma {:induction false} AfterLastOfSplit(a: string, c: char, b: string)
    requires c !in b
    ensures AfterLast(a + [c] + b, c) == b
  {
    var s := a + [c] + b;
    var r := AfterLast(s, c);
    assert s[|a|] == c;
    assert r == s[|s| - |b|..] == b;
  }

  /** Splitting `a + [c] + b` at its first `c` gives back `a` when `a` holds no `c`. */
  lemma {:induction false} BeforeFirstOfSplit(a: string, c: char, b: string)
    requires c !in a
    ensures BeforeFirst(a + [c] + b, c) == a
  {
    var s := a + [c] + b;
    var r := BeforeFirst(s, c);
    assert s[|a|] == c;
    assert r == s[..|a|] == a;
  }

  /** ASCII lower-casing of one character; every other character is kept. */
  function LowerChar(ch: char): char {
    if 'A' <= ch <= 'Z' then (ch as int - 'A' as int + 'a' as int) as char else ch
  }

  /**
   * ASCII lower-casing of a whole string: no capital is left, each capital
   * becomes the small letter at the same place in the alphabet, and every
   * other character stays where it was.
   */
  function Lower(s: string): (r: string)
    ensures |r| == |s|
    ensures forall i :: 0 <= i < |r| ==> !('A' <= r[i] <= 'Z')
    ensures forall i :: 0 <= i < |s| && !('A' <= s[i] <= 'Z') ==> r[i] == s[i]
    ensures forall i :: 0 <= i < |s| && 'A' <= s[i] <= 'Z' ==>
      'a' <= r[i] <= 'z' && r[i] as int - 'a' as int == s[i] as int - 'A' as int
  {
    seq(|s|, i requires 0 <= i < |s| => LowerChar(s[i]))
  }

  /** Lower-casing twice is lower-casing once. */
  lemma LowerIdempotent(s: string)
    ensures Lower(Lower(s)) == Lower(s)
  {
    var r := Lower(s);
    forall i | 0 <= i < |r| ensures Lower(r)[i] == r[i] {
      assert !('A' <= r[i] <= 'Z');
    }
  }

  /** Lower-casing works piece by piece. */
  lemma LowerConcat(a: string, b: string)
    ensures Lower(a + b) == Lower(a) + Lower(b)
  {
    forall i | 0 <= i < |a + b| ensures Lower(a + b)[i] == (Lower(a) + Lower(b))[i] {
      if i < |a| { assert (a + b)[i] == a[i]; } else { assert (a + b)[i] == b[i - |a|]; }
    }
  }

  /** Splitting at a non-letter and lower-casing can be done in either order. */
  lemma AfterLastOfLower(s: string, c: char)
    requires !('A' <= c <= 'Z') && !('a' <= c <= 'z')
    ensures AfterLast(Lower(s), c) == Lower(AfterLast(s, c))
  {
    var b := AfterLast(s, c);
    LowerKeepsAbsent(b, c);
    if c in s {
      var a := s[..|s| - |b| - 1];
      assert s == (a + [c]) + b;
      assert Lower(s) == Lower(a) + [c] + Lower(b) by {
        LowerConcat(a + [c], b);
        LowerConcat(a, [c]);
        assert Lower([c]) == [c];
      }
      AfterLastOfSplit(Lower(a), c, Lower(b));
    } else {
      LowerKeepsAbsent(s, c);
    }
  }

  /** Lower-casing neither creates nor removes a non-letter such as '.' or '/'. */
  lemma LowerKeepsAbsent(s: string, c: char)
    requires !('A' <= c <= 'Z') && !('a' <= c <= 'z')
    ensures c in Lower(s) <==> c in s
  {
    if c in Lower(s) {
      var i :| 0 <= i < |s| && Lower(s)[i] == c;
      assert s[i] == c;
    }
    if c in s {
      var i :| 0 <= i < |s| && s[i] == c;
      assert Lower(s)[i] == c;
    }
  }

  /** `p` occurs in `s` starting at index `i`. */
  predicate OccursAt(s: string, p: string, i: nat) {
    i + |p| <= |s| && s[i..i + |p|] == p
  }

  /** Substring search: `p` occurs somewhere in `s`. */
  function Contains(s: string, p: string): (r: bool)
    ensures r <==> exists i: nat :: OccursAt(s, p, i)
    decreases |s|
  {
    if |s| < |p| then false
    else if s[..|p|] == p then assert OccursAt(s, p, 0); true
    else
      OccursShift(s, p);
      Contains(s[1..], p)
  }

  /** An occurrence in `s` that is not at index 0 is an occurrence in `s[1..]`, and back. */
  lemma OccursShift(s: string, p: string)
    requires |s| >= |p| && s[..|p|] != p
    ensures (exists i: nat :: OccursAt(s, p, i)) <==> (exists j: nat :: OccursAt(s[1..], p, j))
  {
    if exists i: nat :: OccursAt(s, p, i) {
      var i: nat :| OccursAt(s, p, i);
      assert i != 0;
      assert s[1..][i - 1..i - 1 + |p|] == s[i..i + |p|];
      assert OccursAt(s[1..], p, i - 1);
    }
    if exists j: nat :: OccursAt(s[1..], p, j) {
      var j: nat :| OccursAt(s[1..], p, j);
      assert s[1..][j..j + |p|] == s[j + 1..j + 1 + |p|];
      assert OccursAt(s, p, j + 1);
    }
  }
}
