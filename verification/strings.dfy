/**
 * Character-wise string transformations: the building blocks of the
 * normalizer. Every step of the normalizer before whitespace collapsing is
 * either a per-character substitution (FlatMap) or a per-character deletion
 * (Filter), so it distributes over concatenation.
 */
module Strings {

  /** The concatenation of f(c) for the characters c of s, in order. */
  function FlatMap(f: char -> string, s: string): (r: string)
  {
    if s == [] then [] else f(s[0]) + FlatMap(f, s[1..])
  }

  /** The characters of s that satisfy p, in order. */
  function Filter(p: char -> bool, s: string): (r: string)
    ensures |r| <= |s|
    ensures forall c :: c in r ==> c in s && p(c)
  {
    if s == [] then [] else (if p(s[0]) then [s[0]] else []) + Filter(p, s[1..])
  }

  lemma {:induction false} FlatMapAppend(f: char -> string, a: string, b: string)
    ensures FlatMap(f, a + b) == FlatMap(f, a) + FlatMap(f, b)
  {
    if a == [] {
      assert a + b == b;
    } else {
      assert (a + b)[1..] == a[1..] + b;
      FlatMapAppend(f, a[1..], b);
    }
  }

  lemma {:induction false} FilterAppend(p: char -> bool, a: string, b: string)
    ensures Filter(p, a + b) == Filter(p, a) + Filter(p, b)
  {
    if a == [] {
      assert a + b == b;
    } else {
      assert (a + b)[1..] == a[1..] + b;
      FilterAppend(p, a[1..], b);
    }
  }

  lemma FlatMapSingle(f: char -> string, c: char)
    ensures FlatMap(f, [c]) == f(c)
  {
    assert [c][1..] == [];
  }

  lemma FilterSingle(p: char -> bool, c: char)
    ensures Filter(p, [c]) == if p(c) then [c] else []
  {
    assert [c][1..] == [];
  }

  /** Every character produced by FlatMap comes from the image of some input character. */
  lemma {:induction false} FlatMapOrigin(f: char -> string, s: string, d: char)
    requires d in FlatMap(f, s)
    ensures exists c :: c in s && d in f(c)
  {
    if d !in f(s[0]) {
      FlatMapOrigin(f, s[1..], d);
    }
  }

  /** A substitution that maps every character of s to itself leaves s unchanged. */
  lemma {:induction false} FlatMapIdentity(f: char -> string, s: string)
    requires forall c :: c in s ==> f(c) == [c]
    ensures FlatMap(f, s) == s
  {
    if s != [] {
      FlatMapIdentity(f, s[1..]);
    }
  }

  /** A deletion that keeps every character of s leaves s unchanged. */
  lemma {:induction false} FilterIdentity(p: char -> bool, s: string)
    requires forall c :: c in s ==> p(c)
    ensures Filter(p, s) == s
  {
    if s != [] {
      FilterIdentity(p, s[1..]);
    }
  }

  /** A deletion that keeps no character of s deletes all of s. */
  lemma {:induction false} FilterNone(p: char -> bool, s: string)
    requires forall c :: c in s ==> !p(c)
    ensures Filter(p, s) == []
  {
    if s != [] {
      assert s[0] in s;
      FilterNone(p, s[1..]);
    }
  }

  /** Python's `a in b` on strings: a occurs as a contiguous block of b. */
  predicate IsSubstring(a: string, b: string)
  {
    exists i | 0 <= i <= |b| - |a| :: OccursAt(a, b, i)
  }

  /** a occurs in b starting at index i. */
  predicate OccursAt(a: string, b: string, i: int)
  {
    0 <= i <= |b| - |a| && b[i..i + |a|] == a
  }

  lemma EmptyIsSubstring(b: string)
    ensures IsSubstring("", b)
  {
    assert OccursAt("", b, 0);
  }
}
