/**
 * The three-tier match cascade for one normalised local name: an exact key,
 * else the first key (in insertion order) that contains or is contained in
 * the name, else the most similar key provided its similarity reaches the
 * threshold.
 */
module Resolver {
  import opened Options
  import opened Strings
  import opened OrderedDict
  import opened LookupIndex

  /** A similarity ratio, in [0, 1] like difflib's `SequenceMatcher.ratio()`. */
  type Score = r: real | 0.0 <= r <= 1.0

  /** The fuzzy tier's acceptance threshold, `min_score=0.86`. */
  const MinScore: real := 0.86

  /**
   * `similarity(a, b)`: the ratio of the two names, or 0 when either is
   * empty. ratio stands for difflib's `SequenceMatcher(None, a, b).ratio()`.
   */
  function Similarity(ratio: (string, string) -> Score, a: string, b: string): (r: Score)
    ensures a == "" || b == "" ==> r == 0.0
  {
    if a != "" && b != "" then ratio(a, b) else 0.0
  }

  /** `fpl_name and (fpl_name in local_name or local_name in fpl_name)`. */
  predicate Overlaps(localName: string, key: string)
  {
    key != "" && (IsSubstring(key, localName) || IsSubstring(localName, key))
  }

  // ---------------------------------------------------------------------
  // Containment tier

  /** The position of the first key overlapping localName, if any. */
  function FirstOverlap(localName: string, keys: seq<string>): (r: Option<nat>)
    ensures r.Some? ==> r.value < |keys|
  {
    if keys == [] then None
    else if Overlaps(localName, keys[0]) then Some(0)
    else
      match FirstOverlap(localName, keys[1..])
      case None => None
      case Some(i) => Some(i + 1)
  }

  /**
   * FirstOverlap finds an overlapping key with none before it, and finds
   * nothing only when no key overlaps.
   */
  lemma {:induction false} FirstOverlapIsFirst(localName: string, keys: seq<string>)
    ensures var r := FirstOverlap(localName, keys);
      && (r.Some? ==> r.value < |keys| && Overlaps(localName, keys[r.value]))
      && (r.Some? ==> forall j :: 0 <= j < r.value ==> !Overlaps(localName, keys[j]))
      && (r.None? <==> forall j :: 0 <= j < |keys| ==> !Overlaps(localName, keys[j]))
  {
    if keys != [] && !Overlaps(localName, keys[0]) {
      FirstOverlapIsFirst(localName, keys[1..]);
      assert forall j :: 1 <= j < |keys| ==> keys[j] == keys[1..][j - 1];
    }
  }

  /** The code the containment tier settles on. */
  function ContainmentHit(localName: string, lookup: Index): Option<Code>
    requires lookup.Valid()
  {
    match FirstOverlap(localName, lookup.order)
    case None => None
    case Some(i) => Some(Item(lookup, i).1)
  }

  /** The containment loop: the first overlapping key, in insertion order, gives the code. */
  method ContainmentMatch(localName: string, lookup: Index) returns (hit: Option<Code>)
    requires lookup.Valid()
    ensures hit == ContainmentHit(localName, lookup)
    ensures hit.None? <==> forall j :: 0 <= j < |lookup.order| ==> !Overlaps(localName, lookup.order[j])
    ensures hit.Some? ==>
      exists i :: 0 <= i < |lookup.order| && Overlaps(localName, lookup.order[i])
        && Get(lookup, lookup.order[i]) == hit
        && forall j :: 0 <= j < i ==> !Overlaps(localName, lookup.order[j])
  {
    hit := None;
    var i := 0;
    while i < |lookup.order|
      invariant i <= |lookup.order|
      invariant forall j :: 0 <= j < i ==> !Overlaps(localName, lookup.order[j])
    {
      var (name, code) := Item(lookup, i);
      if Overlaps(localName, name) {
        hit := Some(code);
        break;
      }
      i := i + 1;
    }
    FirstOverlapIsFirst(localName, lookup.order);
  }

  // ---------------------------------------------------------------------
  // Fuzzy tier

  /**
   * The running best `(best_code, best_score)` after the first n items:
   * a candidate replaces the best only when it scores strictly higher.
   */
  function Scan(ratio: (string, string) -> Score, localName: string, lookup: Index, n: nat): (Option<Code>, real)
    requires lookup.Valid() && n <= |lookup.order|
  {
    if n == 0 then (None, 0.0)
    else
      var prev := Scan(ratio, localName, lookup, n - 1);
      var (name, code) := Item(lookup, n - 1);
      var score := Similarity(ratio, localName, name);
      if score > prev.1 then (Some(code), score) else prev
  }

  /**
   * The scan keeps the earliest key of highest similarity: its score bounds
   * every score seen, every earlier key scores strictly less, and no code
   * is kept only while every score seen is 0.
   */
  lemma {:induction false} ScanIsEarliestMaximum(ratio: (string, string) -> Score, localName: string, lookup: Index, n: nat)
    requires lookup.Valid() && n <= |lookup.order|
    ensures var best := Scan(ratio, localName, lookup, n);
      && 0.0 <= best.1 <= 1.0
      && (forall j :: 0 <= j < n ==> Similarity(ratio, localName, lookup.order[j]) <= best.1)
      && (best.0.None? <==> best.1 == 0.0)
      && (best.0.Some? ==>
            exists i :: 0 <= i < n
              && Similarity(ratio, localName, lookup.order[i]) == best.1
              && Get(lookup, lookup.order[i]) == best.0
              && forall j :: 0 <= j < i ==> Similarity(ratio, localName, lookup.order[j]) < best.1)
  {
    if n > 0 {
      ScanIsEarliestMaximum(ratio, localName, lookup, n - 1);
    }
  }

  /** `best_fuzzy_match(local_name, candidates, min_score)`. */
  function BestFuzzy(ratio: (string, string) -> Score, localName: string, lookup: Index, minScore: real): (Option<Code>, real)
    requires lookup.Valid()
  {
    var best := Scan(ratio, localName, lookup, |lookup.order|);
    if best.1 >= minScore then best else (None, best.1)
  }

  /**
   * The fuzzy loop: the earliest key of highest similarity, returned only
   * when its score reaches minScore; the score is returned either way.
   */
  method BestFuzzyMatch(ratio: (string, string) -> Score, localName: string, candidates: Index, minScore: real)
    returns (code: Option<Code>, score: real)
    requires candidates.Valid()
    ensures (code, score) == BestFuzzy(ratio, localName, candidates, minScore)
    ensures 0.0 <= score <= 1.0
    ensures forall j :: 0 <= j < |candidates.order| ==> Similarity(ratio, localName, candidates.order[j]) <= score
    ensures code.Some? <==> score > 0.0 && score >= minScore
    ensures code.Some? ==>
      exists i :: 0 <= i < |candidates.order|
        && Similarity(ratio, localName, candidates.order[i]) == score
        && Get(candidates, candidates.order[i]) == code
        && forall j :: 0 <= j < i ==> Similarity(ratio, localName, candidates.order[j]) < score
  {
    code, score := None, 0.0;
    for i := 0 to |candidates.order|
      invariant (code, score) == Scan(ratio, localName, candidates, i)
    {
      var (name, c) := Item(candidates, i);
      var s := Similarity(ratio, localName, name);
      if s > score {
        code, score := Some(c), s;
      }
    }
    if score < minScore {
      code := None;
    }
    ScanIsEarliestMaximum(ratio, localName, candidates, |candidates.order|);
  }

  // ---------------------------------------------------------------------
  // The cascade

  /** Which tier produced a match. */
  datatype Tier = Exact | Containment | Fuzzy

  datatype Resolution = Matched(code: Code, tier: Tier) | Unmatched
  {
    /** A match made by the fuzzy tier: the ones `fuzzy_matches` counts. */
    predicate IsFuzzy()
    {
      Matched? && tier == Fuzzy
    }
  }

  /** The cascade of lines 63-85 for one normalised local name. */
  function Resolve(ratio: (string, string) -> Score, localName: string, lookup: Index): Resolution
    requires lookup.Valid()
  {
    if localName in lookup.table then Matched(lookup.table[localName], Exact)
    else match ContainmentHit(localName, lookup)
      case Some(c) => Matched(c, Containment)
      case None =>
        match BestFuzzy(ratio, localName, lookup, MinScore).0
        case Some(c) => Matched(c, Fuzzy)
        case None => Unmatched
  }

  /** The exact tier wins whenever the name is a key, whatever the other keys. */
  lemma ExactFirst(ratio: (string, string) -> Score, localName: string, lookup: Index)
    requires lookup.Valid()
    ensures Get(lookup, localName).Some? <==> Resolve(ratio, localName, lookup).Matched? && Resolve(ratio, localName, lookup).tier == Exact
    ensures Get(lookup, localName).Some? ==> Resolve(ratio, localName, lookup).code == Get(lookup, localName).value
  {
  }

  /**
   * When the name is not a key, the first overlapping key in insertion
   * order decides, however many later keys also overlap.
   */
  lemma ContainmentFirstWins(ratio: (string, string) -> Score, localName: string, lookup: Index, i: nat)
    requires lookup.Valid() && localName !in lookup.table
    requires i < |lookup.order| && Overlaps(localName, lookup.order[i])
    requires forall j :: 0 <= j < i ==> !Overlaps(localName, lookup.order[j])
    ensures Resolve(ratio, localName, lookup) == Matched(lookup.table[lookup.order[i]], Containment)
  {
    var r := FirstOverlap(localName, lookup.order);
    FirstOverlapIsFirst(localName, lookup.order);
    assert r.Some?;
    assert r.value == i by {
      if r.value < i {
      } else if r.value > i {
      }
    }
  }

  /** A containment match comes from a non-empty key that overlaps the name. */
  lemma ContainmentMeansOverlap(ratio: (string, string) -> Score, localName: string, lookup: Index)
    requires lookup.Valid()
    requires Resolve(ratio, localName, lookup).Matched? && Resolve(ratio, localName, lookup).tier == Containment
    ensures localName !in lookup.table
    ensures exists i ::
      && 0 <= i < |lookup.order| && lookup.order[i] != ""
      && (IsSubstring(lookup.order[i], localName) || IsSubstring(localName, lookup.order[i]))
      && Get(lookup, lookup.order[i]) == Some(Resolve(ratio, localName, lookup).code)
  {
    FirstOverlapIsFirst(localName, lookup.order);
    var i := FirstOverlap(localName, lookup.order).value;
    assert Get(lookup, lookup.order[i]) == Some(Item(lookup, i).1);
  }

  /**
   * An empty local name is contained in every key, so when "" is not a key
   * it resolves to the first key in the index.
   */
  lemma EmptyNameTakesFirstKey(ratio: (string, string) -> Score, lookup: Index)
    requires lookup.Valid() && "" !in lookup.table && |lookup.order| > 0
    ensures Resolve(ratio, "", lookup) == Matched(lookup.table[lookup.order[0]], Containment)
  {
    EmptyIsSubstring(lookup.order[0]);
    assert lookup.order[0] != "";
    ContainmentFirstWins(ratio, "", lookup, 0);
  }

  /**
   * The fuzzy tier answers only when no key equals or overlaps the name, and
   * then with the earliest most similar key, whose score reaches MinScore.
   */
  lemma FuzzyIsLastResort(ratio: (string, string) -> Score, localName: string, lookup: Index)
    requires lookup.Valid()
    requires Resolve(ratio, localName, lookup).Matched? && Resolve(ratio, localName, lookup).tier == Fuzzy
    ensures localName !in lookup.table
    ensures forall j :: 0 <= j < |lookup.order| ==> !Overlaps(localName, lookup.order[j])
    ensures exists i ::
      && 0 <= i < |lookup.order|
      && Similarity(ratio, localName, lookup.order[i]) >= MinScore
      && Get(lookup, lookup.order[i]) == Some(Resolve(ratio, localName, lookup).code)
      && (forall j :: 0 <= j < |lookup.order| ==> Similarity(ratio, localName, lookup.order[j]) <= Similarity(ratio, localName, lookup.order[i]))
      && (forall j :: 0 <= j < i ==> Similarity(ratio, localName, lookup.order[j]) < Similarity(ratio, localName, lookup.order[i]))
  {
    FirstOverlapIsFirst(localName, lookup.order);
    ScanIsEarliestMaximum(ratio, localName, lookup, |lookup.order|);
  }

  /**
   * A name goes unmatched exactly when it is not a key, overlaps no key, and
   * every key's similarity is below the threshold (a score of exactly
   * MinScore is accepted).
   */
  lemma UnmatchedIff(ratio: (string, string) -> Score, localName: string, lookup: Index)
    requires lookup.Valid()
    ensures Resolve(ratio, localName, lookup) == Unmatched <==>
      localName !in lookup.table
      && (forall j :: 0 <= j < |lookup.order| ==> !Overlaps(localName, lookup.order[j]))
      && (forall j :: 0 <= j < |lookup.order| ==> Similarity(ratio, localName, lookup.order[j]) < MinScore)
  {
    FirstOverlapIsFirst(localName, lookup.order);
    ScanIsEarliestMaximum(ratio, localName, lookup, |lookup.order|);
    var best := Scan(ratio, localName, lookup, |lookup.order|);
    if best.1 >= MinScore {
      var i :| 0 <= i < |lookup.order| && Similarity(ratio, localName, lookup.order[i]) == best.1;
    }
  }

  /** An empty name is never matched by the fuzzy tier. */
  lemma EmptyNameNeverFuzzy(ratio: (string, string) -> Score, lookup: Index)
    requires lookup.Valid()
    ensures Resolve(ratio, "", lookup) != Unmatched ==> Resolve(ratio, "", lookup).tier != Fuzzy
  {
    if Resolve(ratio, "", lookup).Matched? && Resolve(ratio, "", lookup).tier == Fuzzy {
      FuzzyIsLastResort(ratio, "", lookup);
    }
  }

  // ---------------------------------------------------------------------
  // Examples

  /**
   * Keys "son" then "sonny": for the name "sonnys", which both keys
   * overlap, the earlier-inserted key wins.
   */
  lemma ContainmentOrderExample(ratio: (string, string) -> Score)
    ensures Resolve(ratio, "sonnys", Dict(["son", "sonny"], map["son" := 1, "sonny" := 2])) == Matched(1, Containment)
  {
    var lookup := Dict(["son", "sonny"], map["son" := 1, "sonny" := 2]);
    assert "sonnys"[0..3] == "son";
    assert OccursAt("son", "sonnys", 0);
    ContainmentFirstWins(ratio, "sonnys", lookup, 0);
  }

  /** A fuzzy score of exactly 0.86 is accepted, and one of 0.8599 is not. */
  lemma ThresholdExample()
    ensures Resolve((a, b) => 0.86, "alpah", Dict(["alpha"], map["alpha" := 7])) == Matched(7, Fuzzy)
    ensures Resolve((a, b) => 0.8599, "alpah", Dict(["alpha"], map["alpha" := 7])) == Unmatched
  {
    var lookup := Dict(["alpha"], map["alpha" := 7]);
    assert "alpah"[3] != "alpha"[3];
    assert !Overlaps("alpah", "alpha") by {
      forall i | 0 <= i <= 0
        ensures !OccursAt("alpha", "alpah", i) && !OccursAt("alpah", "alpha", i)
      {
        assert "alpah"[i..i + 5][3] != "alpha"[3];
        assert "alpha"[i..i + 5][3] != "alpah"[3];
      }
    }
    FirstOverlapIsFirst("alpah", lookup.order);
    assert Item(lookup, 0) == ("alpha", 7);
  }
}
