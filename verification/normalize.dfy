/**
 * The name normalizer of map-players.py (`normalize`, lines 7-16).
 *
 * The Unicode facts the normalizer consults (what `str.lower` does to one
 * character, its NFKD decomposition, `unicodedata.combining`, and the
 * regular-expression classes `\w` and `\s`) are not modelled as tables:
 * they are the fields of an `Alphabet`, and every property below holds for
 * every alphabet or names exactly what it needs of one. The module Latin1
 * gives a concrete alphabet.
 */
module Normalizer {
  import opened Strings

  /** One character's worth of Unicode behaviour, as the normalizer uses it. */
  datatype Alphabet = Alphabet(
    lower: char -> string,      // str.lower() of the one-character string
    decompose: char -> string,  // NFKD of the one-character string
    combining: char -> bool,    // unicodedata.combining(c) != 0
    word: char -> bool,         // matched by the regular-expression class \w
    space: char -> bool)        // matched by \s, and removed by str.strip()

  /** `replace('-', ' ')` on one character. */
  function Dehyphen(c: char): char { if c == '-' then ' ' else c }

  function HyphenToSpace(c: char): string { [Dehyphen(c)] }

  function NotCombining(A: Alphabet): char -> bool { c => !A.combining(c) }

  function WordOrSpace(A: Alphabet): char -> bool { c => A.word(c) || A.space(c) }

  // The character-wise steps, in the order the script applies them.

  /** `str(name).lower()` (line 11). */
  function Lowered(A: Alphabet, s: string): string { FlatMap(A.lower, s) }

  /** `.replace('-', ' ')` (line 11). */
  function Dehyphenated(s: string): string { FlatMap(HyphenToSpace, s) }

  /** `unicodedata.normalize('NFKD', name)` (line 12). */
  function Decomposed(A: Alphabet, s: string): string { FlatMap(A.decompose, s) }

  /** Dropping the characters with a non-zero combining class (line 13). */
  function Unmarked(A: Alphabet, s: string): string { Filter(NotCombining(A), s) }

  /** `re.sub(r'[^\w\s]', '', name)` (line 14). */
  function WordsAndSpaces(A: Alphabet, s: string): string { Filter(WordOrSpace(A), s) }

  /** Lines 11-14 together. */
  function Cleaned(A: Alphabet, s: string): string
  {
    WordsAndSpaces(A, Unmarked(A, Decomposed(A, Dehyphenated(Lowered(A, s)))))
  }

  /** s without its leading run of whitespace. */
  function SkipSpace(A: Alphabet, s: string): (r: string)
    ensures |r| <= |s| && r == s[|s| - |r|..]
    ensures r != [] ==> !A.space(r[0])
    ensures s != [] && A.space(s[0]) ==> |r| < |s|
  {
    if s != [] && A.space(s[0]) then SkipSpace(A, s[1..]) else s
  }

  /** s without its trailing run of whitespace. */
  function TrimEnd(A: Alphabet, s: string): (r: string)
    ensures |r| <= |s| && r == s[..|r|]
    ensures r != [] ==> !A.space(r[|r| - 1])
  {
    if s != [] && A.space(s[|s| - 1]) then TrimEnd(A, s[..|s| - 1]) else s
  }

  /** SkipSpace removes whitespace only. */
  lemma {:induction false} SkipSpaceDropsSpace(A: Alphabet, s: string)
    ensures forall k :: 0 <= k < |s| - |SkipSpace(A, s)| ==> A.space(s[k])
  {
    if s != [] && A.space(s[0]) {
      SkipSpaceDropsSpace(A, s[1..]);
      forall k | 1 <= k < |s| - |SkipSpace(A, s)| ensures A.space(s[k]) {
        assert s[k] == s[1..][k - 1];
      }
    }
  }

  /** TrimEnd removes whitespace only. */
  lemma {:induction false} TrimEndDropsSpace(A: Alphabet, s: string)
    ensures forall k :: |TrimEnd(A, s)| <= k < |s| ==> A.space(s[k])
  {
    if s != [] && A.space(s[|s| - 1]) {
      TrimEndDropsSpace(A, s[..|s| - 1]);
      forall k | |TrimEnd(A, s)| <= k < |s| - 1 ensures A.space(s[k]) {
        assert s[k] == s[..|s| - 1][k];
      }
    }
  }

  /** `re.sub(r'\s+', ' ', name)` (line 15): every maximal run of whitespace becomes one blank. */
  function CollapseWhitespace(A: Alphabet, s: string): (r: string)
    ensures s == [] <==> r == []
    ensures s != [] ==> r[0] == if A.space(s[0]) then ' ' else s[0]
    decreases |s|
  {
    if s == [] then []
    else if A.space(s[0]) then " " + CollapseWhitespace(A, SkipSpace(A, s))
    else [s[0]] + CollapseWhitespace(A, s[1..])
  }

  /** Not whitespace. */
  function NonSpace(A: Alphabet): char -> bool { c => !A.space(c) }

  /** `.strip()` (line 15). */
  function Strip(A: Alphabet, s: string): string
  {
    TrimEnd(A, SkipSpace(A, s))
  }

  /** `normalize(name)` (lines 7-16). */
  function Normalize(A: Alphabet, name: string): string
  {
    if name == "" then ""
    else Strip(A, CollapseWhitespace(A, Cleaned(A, name)))
  }

  /** An empty name normalizes to the empty name. */
  lemma NormalizeEmpty(A: Alphabet)
    ensures Normalize(A, "") == ""
  {
  }

  // ---------------------------------------------------------------------
  // The shape of a normalized name.

  /** Every whitespace character of s is a blank. */
  predicate SpacesAreBlank(A: Alphabet, s: string)
  {
    forall i :: 0 <= i < |s| && A.space(s[i]) ==> s[i] == ' '
  }

  /** No two whitespace characters of s are adjacent. */
  predicate NoDoubleSpace(A: Alphabet, s: string)
  {
    forall i :: 0 < i < |s| && A.space(s[i]) ==> !A.space(s[i - 1])
  }

  /** s neither starts nor ends with whitespace. */
  predicate NoOuterSpace(A: Alphabet, s: string)
  {
    s != [] ==> !A.space(s[0]) && !A.space(s[|s| - 1])
  }

  predicate Tidy(A: Alphabet, s: string)
  {
    SpacesAreBlank(A, s) && NoDoubleSpace(A, s) && NoOuterSpace(A, s)
  }

  lemma {:induction false} CollapseShape(A: Alphabet, s: string)
    ensures SpacesAreBlank(A, CollapseWhitespace(A, s))
    ensures NoDoubleSpace(A, CollapseWhitespace(A, s))
    ensures forall c :: c in CollapseWhitespace(A, s) ==> c == ' ' || (c in s && !A.space(c))
    decreases |s|
  {
    if s == [] {
    } else if A.space(s[0]) {
      var t := SkipSpace(A, s);
      CollapseShape(A, t);
      var rest := CollapseWhitespace(A, t);
      assert CollapseWhitespace(A, s) == " " + rest;
      assert rest != [] ==> !A.space(rest[0]);
      forall c | c in t ensures c in s {
        var k :| 0 <= k < |t| && t[k] == c;
        assert s[|s| - |t| + k] == c;
      }
    } else {
      CollapseShape(A, s[1..]);
      var rest := CollapseWhitespace(A, s[1..]);
      assert CollapseWhitespace(A, s) == [s[0]] + rest;
      forall c | c in s[1..] ensures c in s {
        var k :| 0 <= k < |s[1..]| && s[1..][k] == c;
        assert s[k + 1] == c;
      }
    }
  }

  /** Stripping keeps a contiguous block of its argument and leaves no outer whitespace. */
  lemma StripSlice(A: Alphabet, s: string) returns (i: nat, j: nat)
    ensures i <= j <= |s| && Strip(A, s) == s[i..j]
    ensures NoOuterSpace(A, Strip(A, s))
  {
    var t := SkipSpace(A, s);
    var r := TrimEnd(A, t);
    i := |s| - |t|;
    j := i + |r|;
    assert t == s[i..];
    assert r == t[..|r|];
    assert t[..|r|] == s[i..j];
  }

  /** A normalized name has no outer whitespace, no whitespace runs, and only blanks as whitespace. */
  lemma NormalizeIsTidy(A: Alphabet, name: string)
    ensures Tidy(A, Normalize(A, name))
  {
    if name != "" {
      var collapsed := CollapseWhitespace(A, Cleaned(A, name));
      CollapseShape(A, Cleaned(A, name));
      var i, j := StripSlice(A, collapsed);
      var r := Normalize(A, name);
      assert r == collapsed[i..j];
      forall k | 0 < k < |r| && A.space(r[k]) ensures !A.space(r[k - 1]) {
        assert r[k] == collapsed[i + k] && r[k - 1] == collapsed[i + k - 1];
      }
      forall k | 0 <= k < |r| && A.space(r[k]) ensures r[k] == ' ' {
        assert r[k] == collapsed[i + k];
      }
    }
  }

  /**
   * Every character of a normalized name other than the blank is a word
   * character, and came out of lower-casing, hyphen replacement and NFKD
   * of some character of the raw name.
   */
  lemma NormalizeOrigin(A: Alphabet, name: string, d: char)
    requires d in Normalize(A, name) && d != ' '
    ensures A.word(d) && !A.space(d) && !A.combining(d)
    ensures exists c, f :: c in name && f in A.lower(c) && d in A.decompose(Dehyphen(f))
  {
    assert name != "";
    var cleaned := Cleaned(A, name);
    var collapsed := CollapseWhitespace(A, cleaned);
    assert Normalize(A, name) == Strip(A, collapsed);
    StripKeeps(A, collapsed, d);
    CollapseShape(A, cleaned);
    CleanedOrigin(A, name, d);
  }

  /** Every character of a stripped text is a character of the text. */
  lemma StripKeeps(A: Alphabet, s: string, d: char)
    requires d in Strip(A, s)
    ensures d in s
  {
    var i, j := StripSlice(A, s);
    var k :| 0 <= k < |s[i..j]| && s[i..j][k] == d;
    assert s[i + k] == d;
  }

  /**
   * Collapsing whitespace keeps every non-whitespace character, in order,
   * and adds none (a whitespace run becomes a blank, itself whitespace).
   */
  lemma {:induction false} CollapseKeepsWords(A: Alphabet, s: string)
    requires A.space(' ')
    ensures Filter(NonSpace(A), CollapseWhitespace(A, s)) == Filter(NonSpace(A), s)
    decreases |s|
  {
    var p := NonSpace(A);
    if s == [] {
    } else if A.space(s[0]) {
      var t := SkipSpace(A, s);
      var n := |s| - |t|;
      assert s == s[..n] + t;
      SkipSpaceDropsSpace(A, s);
      FilterNone(p, s[..n]);
      FilterAppend(p, s[..n], t);
      CollapseKeepsWords(A, t);
      FilterAppend(p, " ", CollapseWhitespace(A, t));
      FilterSingle(p, ' ');
    } else {
      assert s == [s[0]] + s[1..];
      CollapseKeepsWords(A, s[1..]);
      FilterAppend(p, [s[0]], s[1..]);
      FilterAppend(p, [s[0]], CollapseWhitespace(A, s[1..]));
    }
  }

  /** Skipping leading whitespace keeps every non-whitespace character, in order. */
  lemma SkipSpaceKeepsWords(A: Alphabet, s: string)
    ensures Filter(NonSpace(A), SkipSpace(A, s)) == Filter(NonSpace(A), s)
  {
    var t := SkipSpace(A, s);
    var n := |s| - |t|;
    assert s == s[..n] + t;
    SkipSpaceDropsSpace(A, s);
    FilterNone(NonSpace(A), s[..n]);
    FilterAppend(NonSpace(A), s[..n], t);
  }

  /** Trimming trailing whitespace keeps every non-whitespace character, in order. */
  lemma TrimEndKeepsWords(A: Alphabet, s: string)
    ensures Filter(NonSpace(A), TrimEnd(A, s)) == Filter(NonSpace(A), s)
  {
    var r := TrimEnd(A, s);
    assert s == r + s[|r|..];
    TrimEndDropsSpace(A, s);
    FilterNone(NonSpace(A), s[|r|..]);
    FilterAppend(NonSpace(A), r, s[|r|..]);
  }

  /** Stripping removes whitespace only: every other character stays, in order. */
  lemma StripKeepsWords(A: Alphabet, s: string)
    ensures Filter(NonSpace(A), Strip(A, s)) == Filter(NonSpace(A), s)
  {
    SkipSpaceKeepsWords(A, s);
    TrimEndKeepsWords(A, SkipSpace(A, s));
  }

  /**
   * Line 15 keeps the non-whitespace characters of the cleaned name, in
   * order: together with NormalizeIsTidy, it only turns each whitespace run
   * into one blank and drops the outer ones.
   */
  lemma NormalizeKeepsWords(A: Alphabet, name: string)
    requires A.space(' ')
    ensures Filter(NonSpace(A), Normalize(A, name)) == Filter(NonSpace(A), Cleaned(A, name))
  {
    if name != "" {
      var cleaned := Cleaned(A, name);
      CollapseKeepsWords(A, cleaned);
      StripKeepsWords(A, CollapseWhitespace(A, cleaned));
    }
  }

  /** Every character of s is whitespace. */
  predicate AllSpace(A: Alphabet, s: string)
  {
    s == [] || (A.space(s[0]) && AllSpace(A, s[1..]))
  }

  /** No character of s is whitespace. */
  predicate Spaceless(A: Alphabet, s: string)
  {
    s == [] || (!A.space(s[0]) && Spaceless(A, s[1..]))
  }

  lemma {:induction false} AllSpaceAt(A: Alphabet, s: string)
    requires AllSpace(A, s)
    ensures forall i :: 0 <= i < |s| ==> A.space(s[i])
  {
    if s != [] {
      AllSpaceAt(A, s[1..]);
      forall i | 1 <= i < |s| ensures A.space(s[i]) {
        assert s[i] == s[1..][i - 1];
      }
    }
  }

  lemma {:induction false} SpacelessAt(A: Alphabet, s: string)
    requires Spaceless(A, s)
    ensures forall i :: 0 <= i < |s| ==> !A.space(s[i])
  {
    if s != [] {
      SpacelessAt(A, s[1..]);
      forall i | 1 <= i < |s| ensures !A.space(s[i]) {
        assert s[i] == s[1..][i - 1];
      }
    }
  }

  /** A leading whitespace run is skipped up to the first non-whitespace character. */
  lemma {:induction false} SkipSpaceRun(A: Alphabet, w: string, x: string)
    requires AllSpace(A, w) && (x == [] || !A.space(x[0]))
    ensures SkipSpace(A, w + x) == x
  {
    if w == [] {
      assert w + x == x;
    } else {
      assert (w + x)[0] == w[0];
      assert (w + x)[1..] == w[1..] + x;
      SkipSpaceRun(A, w[1..], x);
    }
  }

  /** A trailing whitespace run is trimmed back to the last non-whitespace character. */
  lemma {:induction false} TrimEndRun(A: Alphabet, x: string, w: string)
    requires AllSpace(A, w) && (x == [] || !A.space(x[|x| - 1]))
    ensures TrimEnd(A, x + w) == x
    decreases |w|
  {
    if w == [] {
      assert x + w == x;
    } else {
      var init := w[..|w| - 1];
      AllSpaceAt(A, w);
      assert AllSpace(A, init) by {
        AllSpaceOf(A, init);
      }
      assert (x + w)[|x + w| - 1] == w[|w| - 1];
      assert (x + w)[..|x + w| - 1] == x + init;
      TrimEndRun(A, x, init);
    }
  }

  /** A text all of whose characters are whitespace is a whitespace run. */
  lemma {:induction false} AllSpaceOf(A: Alphabet, s: string)
    requires forall i :: 0 <= i < |s| ==> A.space(s[i])
    ensures AllSpace(A, s)
  {
    if s != [] {
      assert A.space(s[0]);
      forall i | 0 <= i < |s[1..]| ensures A.space(s[1..][i]) {
        assert s[1..][i] == s[i + 1];
      }
      AllSpaceOf(A, s[1..]);
    }
  }

  /** A non-empty whitespace run before a word becomes one blank. */
  lemma {:induction false} CollapseRun(A: Alphabet, w: string, x: string)
    requires w != [] && AllSpace(A, w) && (x == [] || !A.space(x[0]))
    ensures CollapseWhitespace(A, w + x) == " " + CollapseWhitespace(A, x)
  {
    assert (w + x)[0] == w[0];
    SkipSpaceRun(A, w, x);
  }

  /** Text without whitespace passes the collapse unchanged. */
  lemma {:induction false} CollapseWord(A: Alphabet, a: string, x: string)
    requires Spaceless(A, a)
    ensures CollapseWhitespace(A, a + x) == a + CollapseWhitespace(A, x)
  {
    if a == [] {
      assert a + x == x;
    } else {
      calc {
        CollapseWhitespace(A, a + x);
        == { assert (a + x)[0] == a[0] && !A.space(a[0]); assert (a + x)[1..] == a[1..] + x; }
        [a[0]] + CollapseWhitespace(A, a[1..] + x);
        == { CollapseWord(A, a[1..], x); }
        [a[0]] + (a[1..] + CollapseWhitespace(A, x));
        == { assert a == [a[0]] + a[1..]; Regroup3([a[0]], a[1..], CollapseWhitespace(A, x)); }
        a + CollapseWhitespace(A, x);
      }
    }
  }

  /** A whitespace run collapses to nothing or to one blank. */
  lemma {:induction false} CollapseSpaces(A: Alphabet, w: string)
    requires AllSpace(A, w)
    ensures CollapseWhitespace(A, w) == if w == [] then [] else " "
  {
    if w != [] {
      assert w + [] == w;
      CollapseRun(A, w, []);
    }
  }

  /** Concatenation of three pieces, regrouped to the right. */
  lemma Regroup3(p: string, q: string, r: string)
    ensures p + q + r == p + (q + r)
  {
  }

  /** Concatenation of four pieces, regrouped to the right. */
  lemma Regroup4(p: string, q: string, r: string, t: string)
    ensures p + q + r + t == p + (q + (r + t))
  {
    assert p + q + r == p + (q + r);
  }

  /** Two words separated by a whitespace run collapse to the words joined by one blank. */
  lemma {:induction false} CollapseTwoWords(A: Alphabet, a: string, w: string, b: string, x: string)
    requires b != [] && w != [] && Spaceless(A, a) && Spaceless(A, b) && AllSpace(A, w)
    ensures CollapseWhitespace(A, a + w + b + x) == a + " " + b + CollapseWhitespace(A, x)
  {
    calc {
      CollapseWhitespace(A, a + w + b + x);
      == { Regroup4(a, w, b, x); }
      CollapseWhitespace(A, a + (w + (b + x)));
      == { CollapseWord(A, a, w + (b + x)); }
      a + CollapseWhitespace(A, w + (b + x));
      == { assert (b + x)[0] == b[0]; CollapseRun(A, w, b + x); }
      a + (" " + CollapseWhitespace(A, b + x));
      == { CollapseWord(A, b, x); }
      a + (" " + (b + CollapseWhitespace(A, x)));
      == { Regroup4(a, " ", b, CollapseWhitespace(A, x)); }
      a + " " + b + CollapseWhitespace(A, x);
    }
  }

  /** A leading whitespace run, if any, collapses to one blank. */
  lemma {:induction false} CollapseLead(A: Alphabet, w: string, y: string)
    requires AllSpace(A, w) && y != [] && !A.space(y[0])
    ensures CollapseWhitespace(A, w + y) == CollapseWhitespace(A, w) + CollapseWhitespace(A, y)
  {
    CollapseSpaces(A, w);
    if w == [] {
      assert w + y == y;
    } else {
      CollapseRun(A, w, y);
    }
  }

  /** Stripping removes exactly a leading and a trailing whitespace run. */
  lemma {:induction false} StripPadded(A: Alphabet, lead: string, mid: string, tail: string)
    requires AllSpace(A, lead) && AllSpace(A, tail)
    requires mid != [] && !A.space(mid[0]) && !A.space(mid[|mid| - 1])
    ensures Strip(A, lead + (mid + tail)) == mid
  {
    calc {
      Strip(A, lead + (mid + tail));
      == { assert (mid + tail)[0] == mid[0]; SkipSpaceRun(A, lead, mid + tail); }
      TrimEnd(A, mid + tail);
      == { TrimEndRun(A, mid, tail); }
      mid;
    }
  }

  /** The output of collapsing a whitespace run is itself a whitespace run. */
  lemma {:induction false} CollapsedRunIsSpace(A: Alphabet, w: string)
    requires A.space(' ') && AllSpace(A, w)
    ensures AllSpace(A, CollapseWhitespace(A, w))
  {
    CollapseSpaces(A, w);
    if w != [] {
      assert " "[1..] == [];
    }
  }

  /** Concatenation regrouped so that the first piece stands apart. */
  lemma Regroup(w1: string, a: string, w2: string, b: string, w3: string)
    ensures w1 + a + w2 + b + w3 == w1 + (a + w2 + b + w3)
  {
    assert w1 + a + w2 == w1 + (a + w2);
    assert w1 + a + w2 + b == w1 + (a + w2 + b);
  }

  /**
   * Line 15 on two words: whatever whitespace surrounds and separates them,
   * the result is the two words joined by one blank.
   */
  lemma {:induction false} TwoWordsCollapse(A: Alphabet, w1: string, a: string, w2: string, b: string, w3: string)
    requires A.space(' ')
    requires a != [] && b != [] && w2 != []
    requires Spaceless(A, a) && Spaceless(A, b)
    requires AllSpace(A, w1) && AllSpace(A, w2) && AllSpace(A, w3)
    ensures Strip(A, CollapseWhitespace(A, w1 + a + w2 + b + w3)) == a + " " + b
  {
    var y := a + w2 + b + w3;
    var mid := a + " " + b;
    var tail := CollapseWhitespace(A, w3);
    SpacelessAt(A, a);
    SpacelessAt(A, b);
    assert y[0] == a[0];
    assert mid[0] == a[0] && mid[|mid| - 1] == b[|b| - 1];
    CollapseLead(A, w1, y);
    CollapseTwoWords(A, a, w2, b, w3);
    CollapsedRunIsSpace(A, w1);
    CollapsedRunIsSpace(A, w3);
    Regroup(w1, a, w2, b, w3);
    StripPadded(A, CollapseWhitespace(A, w1), mid, tail);
  }

  /** Line 15 on one word: whatever whitespace surrounds it, the result is the word. */
  lemma {:induction false} OneWordCollapse(A: Alphabet, w1: string, a: string, w3: string)
    requires A.space(' ')
    requires a != [] && Spaceless(A, a)
    requires AllSpace(A, w1) && AllSpace(A, w3)
    ensures Strip(A, CollapseWhitespace(A, w1 + a + w3)) == a
  {
    SpacelessAt(A, a);
    assert (a + w3)[0] == a[0];
    CollapseLead(A, w1, a + w3);
    CollapseWord(A, a, w3);
    CollapsedRunIsSpace(A, w1);
    CollapsedRunIsSpace(A, w3);
    Regroup3(w1, a, w3);
    StripPadded(A, CollapseWhitespace(A, w1), a, CollapseWhitespace(A, w3));
  }

  /** A name whose cleaned text is one word padded with whitespace normalizes to that word. */
  lemma NormalizeOneWord(A: Alphabet, name: string, w1: string, a: string, w3: string)
    requires A.space(' ') && name != ""
    requires a != [] && Spaceless(A, a) && AllSpace(A, w1) && AllSpace(A, w3)
    requires Cleaned(A, name) == w1 + a + w3
    ensures Normalize(A, name) == a
  {
    OneWordCollapse(A, w1, a, w3);
  }

  /**
   * A name whose cleaned text is two words with whitespace around and between
   * them normalizes to the two words joined by one blank.
   */
  lemma NormalizeTwoWords(A: Alphabet, name: string, w1: string, a: string, w2: string, b: string, w3: string)
    requires A.space(' ') && name != ""
    requires a != [] && b != [] && w2 != []
    requires Spaceless(A, a) && Spaceless(A, b)
    requires AllSpace(A, w1) && AllSpace(A, w2) && AllSpace(A, w3)
    requires Cleaned(A, name) == w1 + a + w2 + b + w3
    ensures Normalize(A, name) == a + " " + b
  {
    TwoWordsCollapse(A, w1, a, w2, b, w3);
  }

  /** The length of the longest prefix of t without whitespace. */
  function WordLength(A: Alphabet, t: string): (n: nat)
    ensures n <= |t|
    ensures t != [] && !A.space(t[0]) ==> n > 0
  {
    if t == [] || A.space(t[0]) then 0 else 1 + WordLength(A, t[1..])
  }

  /** `s.split()`: the maximal runs of non-whitespace characters of s, in order. */
  function Words(A: Alphabet, s: string): seq<string>
    decreases |s|
  {
    var t := SkipSpace(A, s);
    if t == [] then []
    else
      var n := WordLength(A, t);
      [t[..n]] + Words(A, t[n..])
  }

  /** `" ".join(ws)`. */
  function Join(ws: seq<string>): string
  {
    if ws == [] then ""
    else if |ws| == 1 then ws[0]
    else ws[0] + " " + Join(ws[1..])
  }

  /** The longest whitespace-free prefix is a word, and whitespace or nothing follows it. */
  lemma {:induction false} WordSplit(A: Alphabet, t: string)
    ensures Spaceless(A, t[..WordLength(A, t)])
    ensures t[WordLength(A, t)..] == [] || A.space(t[WordLength(A, t)])
  {
    if t != [] && !A.space(t[0]) {
      var n := WordLength(A, t);
      WordSplit(A, t[1..]);
      assert t[..n][1..] == t[1..][..n - 1];
      assert t[n..] == t[1..][n - 1..];
    }
  }

  /** One step of `split()`: the first word, then the words of the rest. */
  lemma WordsStep(A: Alphabet, s: string)
    requires SkipSpace(A, s) != []
    ensures Words(A, s) == [SkipSpace(A, s)[..WordLength(A, SkipSpace(A, s))]]
                           + Words(A, SkipSpace(A, s)[WordLength(A, SkipSpace(A, s))..])
  {
  }

  /** Every word of s is non-empty and free of whitespace. */
  lemma {:induction false} WordsAreWords(A: Alphabet, s: string)
    ensures forall i :: 0 <= i < |Words(A, s)| ==> Words(A, s)[i] != [] && Spaceless(A, Words(A, s)[i])
    decreases |s|
  {
    var t := SkipSpace(A, s);
    if t != [] {
      var n := WordLength(A, t);
      var ws := Words(A, s);
      var rest := Words(A, t[n..]);
      WordsStep(A, s);
      WordSplit(A, t);
      WordsAreWords(A, t[n..]);
      forall i | 0 <= i < |ws|
        ensures ws[i] != [] && Spaceless(A, ws[i])
      {
        if i > 0 {
          assert ws[i] == rest[i - 1];
        }
      }
    }
  }

  /** Text that starts with a non-whitespace character is its own leading-whitespace skip. */
  lemma SkipNothing(A: Alphabet, t: string)
    requires t == [] || !A.space(t[0])
    ensures SkipSpace(A, t) == t
  {
  }

  /** Trailing whitespace lies to the right of a non-whitespace part. */
  lemma {:induction false} TrimEndAppend(A: Alphabet, p: string, x: string)
    requires TrimEnd(A, x) != []
    ensures TrimEnd(A, p + x) == p + TrimEnd(A, x)
    decreases |x|
  {
    var y := x[..|x| - 1];
    assert (p + x)[|p + x| - 1] == x[|x| - 1];
    if A.space(x[|x| - 1]) {
      assert (p + x)[..|p + x| - 1] == p + y;
      TrimEndAppend(A, p, y);
    }
  }

  /** Text starting with a non-whitespace character keeps something after trimming. */
  lemma TrimEndKeepsHead(A: Alphabet, x: string)
    requires x != [] && !A.space(x[0])
    ensures TrimEnd(A, x) != []
  {
    TrimEndDropsSpace(A, x);
  }

  /** A non-empty list of words joined after one more word. */
  lemma JoinCons(w: string, ws: seq<string>)
    requires ws != []
    ensures Join([w] + ws) == w + " " + Join(ws)
  {
    assert ([w] + ws)[1..] == ws;
  }

  /** Skipping leading whitespace does not change the words. */
  lemma WordsSkip(A: Alphabet, r: string)
    ensures Words(A, r) == Words(A, SkipSpace(A, r))
  {
    SkipNothing(A, SkipSpace(A, r));
  }

  /** Text that starts with a word splits into that word and the words of the rest. */
  lemma WordsOfWord(A: Alphabet, t: string)
    requires t != [] && !A.space(t[0])
    ensures Words(A, t) == [t[..WordLength(A, t)]] + Words(A, t[WordLength(A, t)..])
  {
    SkipNothing(A, t);
    WordsStep(A, t);
  }

  /** A trailing blank after a word is trimmed. */
  lemma TrimWordBlank(A: Alphabet, w: string)
    requires A.space(' ') && w != [] && Spaceless(A, w)
    ensures TrimEnd(A, w + " ") == w
  {
    SpacelessAt(A, w);
    assert (w + " ")[..|w|] == w;
  }

  /** A leading whitespace run collapses to one blank before the collapse of the rest. */
  lemma CollapseLeadingRun(A: Alphabet, r: string)
    requires r != [] && A.space(r[0])
    ensures CollapseWhitespace(A, r) == " " + CollapseWhitespace(A, SkipSpace(A, r))
  {
  }

  /** A word, one blank and a text that trims to joined words join into one more word. */
  lemma JoinOneMore(A: Alphabet, w: string, y: string, ws: seq<string>)
    requires y != [] && !A.space(y[0]) && ws != []
    requires TrimEnd(A, y) == Join(ws)
    ensures TrimEnd(A, w + (" " + y)) == Join([w] + ws)
  {
    TrimEndKeepsHead(A, y);
    calc {
      TrimEnd(A, w + (" " + y));
      == { Regroup3(w, " ", y); }
      TrimEnd(A, w + " " + y);
      == { TrimEndAppend(A, w + " ", y); }
      w + " " + TrimEnd(A, y);
      == { JoinCons(w, ws); }
      Join([w] + ws);
    }
  }

  /** A text made only of whitespace collapses to one blank. */
  lemma BlankRunCollapses(A: Alphabet, r: string)
    requires r != [] && A.space(r[0]) && SkipSpace(A, r) == []
    ensures CollapseWhitespace(A, r) == " "
  {
    CollapseLeadingRun(A, r);
  }

  /** A text made only of whitespace has no words. */
  lemma BlankRunHasNoWords(A: Alphabet, r: string)
    requires SkipSpace(A, r) == []
    ensures Words(A, r) == []
  {
  }

  /** One word joins to itself. */
  lemma JoinOne(w: string)
    ensures Join([w]) == w
  {
  }

  /** A word followed by whitespace only trims to the word. */
  lemma JoinLastWord(A: Alphabet, w: string, r: string)
    requires A.space(' ') && w != [] && Spaceless(A, w)
    requires r != [] && A.space(r[0]) && SkipSpace(A, r) == []
    ensures TrimEnd(A, w + CollapseWhitespace(A, r)) == Join([w] + Words(A, r))
  {
    BlankRunCollapses(A, r);
    BlankRunHasNoWords(A, r);
    TrimWordBlank(A, w);
    JoinOne(w);
    assert [w] + Words(A, r) == [w];
  }

  /**
   * What follows the first word: given the claim for the text after the
   * whitespace run, it holds for the word and that run together.
   */
  lemma JoinAfterWord(A: Alphabet, w: string, r: string)
    requires A.space(' ') && w != [] && Spaceless(A, w)
    requires r != [] && A.space(r[0])
    requires TrimEnd(A, CollapseWhitespace(A, SkipSpace(A, r))) == Join(Words(A, SkipSpace(A, r)))
    ensures TrimEnd(A, w + CollapseWhitespace(A, r)) == Join([w] + Words(A, r))
  {
    var r' := SkipSpace(A, r);
    if r' == [] {
      JoinLastWord(A, w, r);
    } else {
      WordsSkip(A, r);
      CollapseLeadingRun(A, r);
      SkipNothing(A, r');
      WordsStep(A, r');
      JoinOneMore(A, w, CollapseWhitespace(A, r'), Words(A, r'));
    }
  }

  /**
   * On text that starts with a word or is empty, collapsing then trimming the
   * end joins its words with single blanks.
   */
  lemma {:induction false} CollapseTrimIsJoin(A: Alphabet, t: string)
    requires A.space(' ')
    requires t == [] || !A.space(t[0])
    ensures TrimEnd(A, CollapseWhitespace(A, t)) == Join(Words(A, t))
    decreases |t|
  {
    if t != [] {
      var n := WordLength(A, t);
      var w := t[..n];
      var r := t[n..];
      WordSplit(A, t);
      WordsOfWord(A, t);
      assert t == w + r;
      CollapseWord(A, w, r);
      if r == [] {
        SpacelessAt(A, w);
        assert w + [] == w;
      } else {
        CollapseTrimIsJoin(A, SkipSpace(A, r));
        JoinAfterWord(A, w, r);
      }
    }
  }

  /** The collapse of text that starts with a word starts with that word. */
  lemma CollapseStartsWithWord(A: Alphabet, t: string)
    requires t == [] || !A.space(t[0])
    ensures SkipSpace(A, CollapseWhitespace(A, t)) == CollapseWhitespace(A, t)
  {
    var x := CollapseWhitespace(A, t);
    assert x == [] || !A.space(x[0]);
    SkipNothing(A, x);
  }

  /** Skipping the blank a leading whitespace run collapses to. */
  lemma SkipCollapsedRun(A: Alphabet, s: string)
    requires A.space(' ') && s != [] && A.space(s[0])
    ensures SkipSpace(A, CollapseWhitespace(A, s)) == CollapseWhitespace(A, SkipSpace(A, s))
  {
    var x := CollapseWhitespace(A, SkipSpace(A, s));
    CollapseLeadingRun(A, s);
    CollapseStartsWithWord(A, SkipSpace(A, s));
    BlankRun(A);
    SkipSpaceRun(A, " ", x);
  }

  /** Collapsing commutes with skipping leading whitespace. */
  lemma SkipCollapse(A: Alphabet, s: string)
    requires A.space(' ')
    ensures SkipSpace(A, CollapseWhitespace(A, s)) == CollapseWhitespace(A, SkipSpace(A, s))
  {
    if s != [] && A.space(s[0]) {
      SkipCollapsedRun(A, s);
    } else {
      CollapseStartsWithWord(A, s);
      SkipNothing(A, s);
    }
  }

  /** One blank is a whitespace run. */
  lemma BlankRun(A: Alphabet)
    requires A.space(' ')
    ensures AllSpace(A, " ")
  {
  }

  /** `re.sub(r'\s+', ' ', s).strip()` is `" ".join(s.split())`. */
  lemma StripCollapseIsJoin(A: Alphabet, s: string)
    requires A.space(' ')
    ensures Strip(A, CollapseWhitespace(A, s)) == Join(Words(A, s))
  {
    var t := SkipSpace(A, s);
    SkipNothing(A, t);
    SkipCollapse(A, s);
    WordsSkip(A, s);
    CollapseTrimIsJoin(A, t);
  }

  /**
   * Line 15 against an independent reference: a normalized name is the words
   * of its cleaned text joined by single blanks.
   */
  lemma NormalizeIsJoinedWords(A: Alphabet, name: string)
    requires A.space(' ')
    ensures Normalize(A, name) == Join(Words(A, Cleaned(A, name)))
  {
    if name != "" {
      StripCollapseIsJoin(A, Cleaned(A, name));
    } else {
      assert Cleaned(A, name) == [];
    }
  }

  lemma CleanedOrigin(A: Alphabet, name: string, d: char)
    requires d in Cleaned(A, name) && !A.space(d)
    ensures A.word(d) && !A.combining(d)
    ensures exists c, f :: c in name && f in A.lower(c) && d in A.decompose(Dehyphen(f))
  {
    var lowered := Lowered(A, name);
    var dehyphenated := Dehyphenated(lowered);
    var decomposed := Decomposed(A, dehyphenated);
    assert d in Unmarked(A, decomposed) && WordOrSpace(A)(d);
    assert d in decomposed && NotCombining(A)(d);
    FlatMapOrigin(A.decompose, dehyphenated, d);
    var e :| e in dehyphenated && d in A.decompose(e);
    FlatMapOrigin(HyphenToSpace, lowered, e);
    var f :| f in lowered && e in HyphenToSpace(f);
    FlatMapOrigin(A.lower, name, f);
    var c :| c in name && f in A.lower(c);
    assert e == Dehyphen(f);
  }

  /** A name is free of the hyphen-minus once normalized, provided it is neither \w nor \s. */
  lemma NormalizeDropsHyphens(A: Alphabet, name: string)
    requires !A.word('-') && !A.space('-')
    ensures '-' !in Normalize(A, name)
  {
    if '-' in Normalize(A, name) {
      NormalizeOrigin(A, name, '-');
    }
  }

  /** Once the characters are cleaned, whitespace handling leaves text that is already tidy alone. */
  lemma NormalizeOfTidyCleaned(A: Alphabet, s: string)
    requires s != "" && Tidy(A, Cleaned(A, s))
    ensures Normalize(A, s) == Cleaned(A, s)
  {
    var t := Cleaned(A, s);
    CollapseKeepsTidy(A, t);
    assert SkipSpace(A, t) == t;
    assert TrimEnd(A, t) == t;
  }

  lemma SpacelessIsTidy(A: Alphabet, s: string)
    requires forall c :: c in s ==> !A.space(c)
    ensures Tidy(A, s)
  {
  }

  lemma TwoWordsAreTidy(A: Alphabet, a: string, b: string)
    requires a != "" && b != "" && A.space(' ')
    requires forall c :: c in a ==> !A.space(c)
    requires forall c :: c in b ==> !A.space(c)
    ensures Tidy(A, a + " " + b)
  {
    var s := a + " " + b;
    assert s[0] == a[0] && s[|s| - 1] == b[|b| - 1];
    assert s[|a| - 1] == a[|a| - 1] && s[|a| + 1] == b[0];
  }

  // ---------------------------------------------------------------------
  // Hyphens separate words; other punctuation is deleted.

  lemma CleanedAppend(A: Alphabet, a: string, b: string)
    ensures Cleaned(A, a + b) == Cleaned(A, a) + Cleaned(A, b)
  {
    FlatMapAppend(A.lower, a, b);
    FlatMapAppend(HyphenToSpace, Lowered(A, a), Lowered(A, b));
    FlatMapAppend(A.decompose, Dehyphenated(Lowered(A, a)), Dehyphenated(Lowered(A, b)));
    var da, db := Decomposed(A, Dehyphenated(Lowered(A, a))), Decomposed(A, Dehyphenated(Lowered(A, b)));
    FilterAppend(NotCombining(A), da, db);
    FilterAppend(WordOrSpace(A), Unmarked(A, da), Unmarked(A, db));
  }

  /** Two characters that clean to the same text are interchangeable in a name. */
  lemma SameCleaningSameName(A: Alphabet, x: string, c: char, d: char, y: string)
    requires Cleaned(A, [c]) == Cleaned(A, [d])
    ensures Normalize(A, x + [c] + y) == Normalize(A, x + [d] + y)
  {
    CleanedAppend(A, x + [c], y);
    CleanedAppend(A, x, [c]);
    CleanedAppend(A, x + [d], y);
    CleanedAppend(A, x, [d]);
  }

  /** The text one character cleans to. */
  lemma CleanedSingle(A: Alphabet, c: char)
    ensures Cleaned(A, [c]) == WordsAndSpaces(A, Unmarked(A, Decomposed(A, Dehyphenated(A.lower(c)))))
  {
    FlatMapSingle(A.lower, c);
  }

  /** A hyphen-minus splits a name into words exactly as a blank does. */
  lemma HyphenIsSeparator(A: Alphabet, x: string, y: string)
    requires A.lower('-') == "-" && A.lower(' ') == " "
    ensures Normalize(A, x + "-" + y) == Normalize(A, x + " " + y)
  {
    CleanedSingle(A, '-');
    CleanedSingle(A, ' ');
    FlatMapSingle(HyphenToSpace, '-');
    FlatMapSingle(HyphenToSpace, ' ');
    SameCleaningSameName(A, x, '-', ' ', y);
  }

  /**
   * A punctuation character (one that lower-casing and NFKD leave alone and
   * that is neither \w nor \s) is deleted outright: the words on either
   * side of it join.
   */
  lemma PunctuationIsDeleted(A: Alphabet, x: string, p: char, y: string)
    requires p != '-' && A.lower(p) == [p] && A.decompose(p) == [p]
    requires !A.word(p) && !A.space(p)
    ensures Normalize(A, x + [p] + y) == Normalize(A, x + y)
  {
    CleanedAppend(A, x + [p], y);
    CleanedAppend(A, x, [p]);
    CleanedAppend(A, x, y);
    assert Cleaned(A, [p]) == "" by {
      FlatMapSingle(A.lower, p);
      FlatMapSingle(HyphenToSpace, p);
      FlatMapSingle(A.decompose, p);
      FilterSingle(NotCombining(A), p);
      FilterSingle(WordOrSpace(A), p);
    }
    assert Cleaned(A, x + [p] + y) == Cleaned(A, x + y);
    if x + y == "" {
      assert Cleaned(A, x + [p] + y) == "";
    }
  }

  // ---------------------------------------------------------------------
  // Idempotence, for alphabets where it holds.

  /** A character that every step of the normalizer leaves as it is. */
  predicate Settled(A: Alphabet, d: char)
  {
    A.word(d) && !A.space(d) && !A.combining(d) && A.lower(d) == [d] && A.decompose(d) == [d] && d != '-'
  }

  /**
   * An alphabet whose blank behaves as a blank and in which lower-casing
   * followed by NFKD only ever yields word characters that are already
   * settled. Full Unicode is not stable (NFKD after lower-casing can yield
   * upper-case letters); ASCII and the Latin-1 letters are.
   */
  ghost predicate Stable(A: Alphabet)
  {
    && A.space(' ') && A.lower(' ') == " " && A.decompose(' ') == " " && !A.combining(' ')
    && forall c, f, d ::
         f in A.lower(c) && d in A.decompose(Dehyphen(f)) && A.word(d) && !A.space(d) && !A.combining(d)
         ==> Settled(A, d)
  }

  /** The names normalization produces: tidy, and built of blanks and settled characters. */
  predicate Canonical(A: Alphabet, s: string)
  {
    Tidy(A, s) && forall c :: c in s ==> c == ' ' || Settled(A, c)
  }

  lemma NormalizeIsCanonical(A: Alphabet, name: string)
    requires Stable(A)
    ensures Canonical(A, Normalize(A, name))
  {
    NormalizeIsTidy(A, name);
    forall d | d in Normalize(A, name) && d != ' ' ensures Settled(A, d) {
      NormalizeOrigin(A, name, d);
    }
  }

  lemma {:induction false} CollapseKeepsTidy(A: Alphabet, s: string)
    requires SpacesAreBlank(A, s) && NoDoubleSpace(A, s)
    ensures CollapseWhitespace(A, s) == s
    decreases |s|
  {
    if s != [] {
      var t := s[1..];
      assert SpacesAreBlank(A, t) by {
        forall i | 0 <= i < |t| && A.space(t[i])
          ensures t[i] == ' '
        {
          assert t[i] == s[i + 1];
        }
      }
      assert NoDoubleSpace(A, t) by {
        forall i | 0 < i < |t| && A.space(t[i])
          ensures !A.space(t[i - 1])
        {
          assert t[i] == s[i + 1] && t[i - 1] == s[i];
        }
      }
      CollapseKeepsTidy(A, t);
      assert s == [s[0]] + t;
      if A.space(s[0]) {
        assert s[0] == ' ';
        assert SkipSpace(A, s) == t by {
          assert t != [] ==> t[0] == s[1];
          assert SkipSpace(A, s) == SkipSpace(A, t);
        }
      }
    }
  }

  /** Normalization leaves a canonical name as it is. */
  lemma NormalizeFixesCanonical(A: Alphabet, s: string)
    requires Stable(A) && Canonical(A, s)
    ensures Normalize(A, s) == s
  {
    if s != "" {
      FlatMapIdentity(A.lower, s);
      FlatMapIdentity(HyphenToSpace, s);
      FlatMapIdentity(A.decompose, s);
      FilterIdentity(NotCombining(A), s);
      FilterIdentity(WordOrSpace(A), s);
      assert Cleaned(A, s) == s;
      NormalizeOfTidyCleaned(A, s);
    }
  }

  /** Over a stable alphabet, normalizing twice is normalizing once. */
  lemma NormalizeIdempotent(A: Alphabet, name: string)
    requires Stable(A)
    ensures Normalize(A, Normalize(A, name)) == Normalize(A, name)
  {
    NormalizeIsCanonical(A, name);
    NormalizeFixesCanonical(A, Normalize(A, name));
  }
}
