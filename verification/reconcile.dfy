/**
 * The reconciliation driver: every local player's name is normalised and
 * resolved against the lookup index; a match overwrites the player's photo
 * code in place and is counted, and fuzzy matches are counted separately.
 * A player without a match is left exactly as it was.
 */
module Reconcile {
  import opened Options
  import opened OrderedDict
  import opened LookupIndex
  import opened Resolver

  /** A local player record: the fields the script reads and writes. */
  datatype LocalPlayer = LocalPlayer(id: string, name: string, photoCode: Option<Code>)

  /** How the cascade resolves a player, under the normaliser norm. */
  function Outcome(norm: string -> string, ratio: (string, string) -> Score, lookup: Index, p: LocalPlayer): Resolution
    requires lookup.Valid()
  {
    Resolve(ratio, norm(p.name), lookup)
  }

  /** The player after its turn in the loop. */
  function Reconciled(norm: string -> string, ratio: (string, string) -> Score, lookup: Index, p: LocalPlayer): LocalPlayer
    requires lookup.Valid()
  {
    match Outcome(norm, ratio, lookup, p)
    case Matched(c, _) => p.(photoCode := Some(c))
    case Unmatched => p
  }

  /** `matches` after the loop has visited ps. */
  function MatchCount(norm: string -> string, ratio: (string, string) -> Score, lookup: Index, ps: seq<LocalPlayer>): nat
    requires lookup.Valid()
  {
    if ps == [] then 0
    else
      var last := if Outcome(norm, ratio, lookup, ps[|ps| - 1]).Matched? then 1 else 0;
      MatchCount(norm, ratio, lookup, ps[..|ps| - 1]) + last
  }

  /** `fuzzy_matches` after the loop has visited ps. */
  function FuzzyCount(norm: string -> string, ratio: (string, string) -> Score, lookup: Index, ps: seq<LocalPlayer>): nat
    requires lookup.Valid()
  {
    if ps == [] then 0
    else
      var last := if Outcome(norm, ratio, lookup, ps[|ps| - 1]).IsFuzzy() then 1 else 0;
      FuzzyCount(norm, ratio, lookup, ps[..|ps| - 1]) + last
  }

  /**
   * One player's turn of the loop (lines 60-85 without the counters): the
   * normalised name goes through the exact, containment and fuzzy tiers in
   * turn. The script normalises with `normalize`; here the normaliser is
   * the parameter norm.
   */
  method MatchPlayer(norm: string -> string, ratio: (string, string) -> Score, lookup: Index, p: LocalPlayer)
    returns (res: Resolution)
    requires lookup.Valid()
    ensures res == Outcome(norm, ratio, lookup, p)
  {
    var localName := norm(p.name);
    if localName in lookup.table {
      return Matched(lookup.table[localName], Exact);
    }
    var hit := ContainmentMatch(localName, lookup);
    if hit.Some? {
      return Matched(hit.value, Containment);
    }
    var code, score := BestFuzzyMatch(ratio, localName, lookup, MinScore);
    if code.Some? {
      return Matched(code.value, Fuzzy);
    }
    return Unmatched;
  }

  /** The loop over the local players, updating them in place and counting. */
  method ReconcilePlayers(norm: string -> string, ratio: (string, string) -> Score, lookup: Index, players: array<LocalPlayer>)
    returns (matches: nat, fuzzyMatches: nat)
    requires lookup.Valid()
    modifies players
    ensures forall i :: 0 <= i < players.Length ==> players[i] == Reconciled(norm, ratio, lookup, old(players[i]))
    ensures matches == MatchCount(norm, ratio, lookup, old(players[..]))
    ensures fuzzyMatches == FuzzyCount(norm, ratio, lookup, old(players[..]))
  {
    ghost var original := players[..];
    matches, fuzzyMatches := 0, 0;
    for i := 0 to players.Length
      invariant forall j :: 0 <= j < i ==> players[j] == Reconciled(norm, ratio, lookup, original[j])
      invariant forall j :: i <= j < players.Length ==> players[j] == original[j]
      invariant matches == MatchCount(norm, ratio, lookup, original[..i])
      invariant fuzzyMatches == FuzzyCount(norm, ratio, lookup, original[..i])
    {
      CountStep(norm, ratio, lookup, original, i);
      ghost var before := players[..];
      var player := players[i];
      var res := MatchPlayer(norm, ratio, lookup, player);
      ReconciledBy(norm, ratio, lookup, player, res);
      if res.Matched? {
        players[i] := player.(photoCode := Some(res.code));
        matches := matches + 1;
        if res.tier == Fuzzy {
          fuzzyMatches := fuzzyMatches + 1;
        }
      }
      assert players[i] == Reconciled(norm, ratio, lookup, original[i]);
      assert forall j :: 0 <= j < players.Length && j != i ==> players[j] == before[j];
    }
    assert original[..players.Length] == original;
  }

  /** The player after its turn, given how the cascade resolved it. */
  lemma ReconciledBy(norm: string -> string, ratio: (string, string) -> Score, lookup: Index, p: LocalPlayer, res: Resolution)
    requires lookup.Valid() && res == Outcome(norm, ratio, lookup, p)
    ensures Reconciled(norm, ratio, lookup, p) == if res.Matched? then p.(photoCode := Some(res.code)) else p
  {
  }

  /** One more player adds its own outcome to the counters. */
  lemma CountStep(norm: string -> string, ratio: (string, string) -> Score, lookup: Index, ps: seq<LocalPlayer>, i: nat)
    requires lookup.Valid() && i < |ps|
    ensures MatchCount(norm, ratio, lookup, ps[..i + 1])
      == MatchCount(norm, ratio, lookup, ps[..i]) + if Outcome(norm, ratio, lookup, ps[i]).Matched? then 1 else 0
    ensures FuzzyCount(norm, ratio, lookup, ps[..i + 1])
      == FuzzyCount(norm, ratio, lookup, ps[..i]) + if Outcome(norm, ratio, lookup, ps[i]).IsFuzzy() then 1 else 0
  {
    assert ps[..i + 1][..i] == ps[..i];
  }

  /** Fuzzy matches are matches, and no more players match than there are. */
  lemma {:induction false} CountsBounded(norm: string -> string, ratio: (string, string) -> Score, lookup: Index, ps: seq<LocalPlayer>)
    requires lookup.Valid()
    ensures FuzzyCount(norm, ratio, lookup, ps) <= MatchCount(norm, ratio, lookup, ps) <= |ps|
  {
    if ps != [] {
      CountsBounded(norm, ratio, lookup, ps[..|ps| - 1]);
    }
  }

  /**
   * A player's turn changes nothing but its photo code, and a code it
   * receives is one the index holds; without a match it is untouched.
   */
  lemma ReconciledCodeFromIndex(norm: string -> string, ratio: (string, string) -> Score, lookup: Index, p: LocalPlayer)
    requires lookup.Valid()
    ensures Reconciled(norm, ratio, lookup, p).id == p.id && Reconciled(norm, ratio, lookup, p).name == p.name
    ensures Outcome(norm, ratio, lookup, p) == Unmatched ==> Reconciled(norm, ratio, lookup, p) == p
    ensures Outcome(norm, ratio, lookup, p).Matched? ==>
      exists k :: k in lookup.table && Reconciled(norm, ratio, lookup, p).photoCode == Some(lookup.table[k])
  {
    var name := norm(p.name);
    match Resolve(ratio, name, lookup)
    case Unmatched =>
    case Matched(c, tier) =>
      if tier == Containment {
        ContainmentMeansOverlap(ratio, name, lookup);
      } else if tier == Fuzzy {
        FuzzyIsLastResort(ratio, name, lookup);
      }
  }

  /** Reconciling a second time with the same index changes nothing more. */
  lemma ReconcileTwice(norm: string -> string, ratio: (string, string) -> Score, lookup: Index, p: LocalPlayer)
    requires lookup.Valid()
    ensures Reconciled(norm, ratio, lookup, Reconciled(norm, ratio, lookup, p)) == Reconciled(norm, ratio, lookup, p)
  {
  }
}
