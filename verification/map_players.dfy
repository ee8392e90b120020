/**
 * The script's run once its inputs are loaded: build the lookup index from
 * the external feed, reconcile the local players against it, then copy the
 * resulting photo codes onto the UI season-card records.
 */
module MapPlayers {
  import opened Options
  import opened OrderedDict
  import opened Strings
  import opened Normalizer
  import opened LookupIndex
  import opened Resolver
  import opened Reconcile
  import opened Propagate
  import Latin1

  /**
   * Lines 46-104 without the file and network I/O: every name is
   * normalised over the alphabet A, and the UI step reads the players as
   * the reconciliation left them.
   */
  method Run(A: Alphabet, ratio: (string, string) -> Score, elements: seq<ExternalRecord>,
             players: array<LocalPlayer>, uiPlayers: array<UiPlayer>)
    returns (matches: nat, fuzzyMatches: nat, synced: nat)
    modifies players, uiPlayers
    ensures forall i :: 0 <= i < players.Length ==>
      players[i] == Reconciled(Norm(A), ratio, IndexOf(Norm(A), elements), old(players[i]))
    ensures matches == MatchCount(Norm(A), ratio, IndexOf(Norm(A), elements), old(players[..]))
    ensures fuzzyMatches == FuzzyCount(Norm(A), ratio, IndexOf(Norm(A), elements), old(players[..]))
    ensures forall i :: 0 <= i < uiPlayers.Length ==> uiPlayers[i] == Synced(CoreMap(players[..]), old(uiPlayers[i]))
    ensures synced == SyncCount(CoreMap(players[..]), old(uiPlayers[..]))
  {
    var lookup := BuildIndex(Norm(A), elements);
    matches, fuzzyMatches := ReconcilePlayers(Norm(A), ratio, lookup, players);
    synced := PropagatePhotoCodes(players[..], uiPlayers);
  }

  /** The feed record Mohamed Salah (code 101) gives the keys "mohamed salah" and "salah", in that order. */
  lemma SalahIndex(norm: string -> string)
    requires norm("Mohamed Salah") == "mohamed salah" && norm("Salah") == "salah"
    ensures IndexOf(norm, [ExternalRecord(101, "Mohamed", "Salah", "Salah")])
      == Dict(["mohamed salah", "salah"], map["mohamed salah" := 101, "salah" := 101])
  {
    var rec := ExternalRecord(101, "Mohamed", "Salah", "Salah");
    assert "Mohamed" + " " + "Salah" == "Mohamed Salah";
    assert |"mohamed salah"| != |"salah"|;
    TwoKeyIndex(norm, rec, "mohamed salah", "salah");
  }

  /**
   * "mo salah" is not a key of that index and does not overlap the first key
   * "mohamed salah", but contains the second key "salah": it resolves to
   * code 101 in the containment tier.
   */
  lemma SalahResolves(ratio: (string, string) -> Score)
    ensures Resolve(ratio, "mo salah", Dict(["mohamed salah", "salah"], map["mohamed salah" := 101, "salah" := 101]))
      == Matched(101, Containment)
  {
    var lookup := Dict(["mohamed salah", "salah"], map["mohamed salah" := 101, "salah" := 101]);
    assert lookup.Valid();
    assert "mo salah"[3..8] == "salah";
    assert OccursAt("salah", "mo salah", 3);
    assert !Overlaps("mo salah", "mohamed salah") by {
      forall i | 0 <= i <= |"mohamed salah"| - |"mo salah"|
        ensures !OccursAt("mo salah", "mohamed salah", i)
      {
        assert "mohamed salah"[i..i + 8][0] != "mo salah"[0] || "mohamed salah"[i..i + 8][2] != "mo salah"[2];
      }
    }
    ContainmentFirstWins(ratio, "mo salah", lookup, 1);
  }

  /**
   * With that feed record, the local player "Mo Salah" gets code 101 from
   * the containment tier, and the run counts one match and no fuzzy match.
   */
  lemma SalahExample(norm: string -> string, ratio: (string, string) -> Score)
    requires norm("Mohamed Salah") == "mohamed salah" && norm("Salah") == "salah" && norm("Mo Salah") == "mo salah"
    ensures Outcome(norm, ratio, IndexOf(norm, [ExternalRecord(101, "Mohamed", "Salah", "Salah")]), LocalPlayer("1", "Mo Salah", None))
      == Matched(101, Containment)
    ensures MatchCount(norm, ratio, IndexOf(norm, [ExternalRecord(101, "Mohamed", "Salah", "Salah")]), [LocalPlayer("1", "Mo Salah", None)]) == 1
    ensures FuzzyCount(norm, ratio, IndexOf(norm, [ExternalRecord(101, "Mohamed", "Salah", "Salah")]), [LocalPlayer("1", "Mo Salah", None)]) == 0
  {
    SalahIndex(norm);
    SalahResolves(ratio);
    assert [LocalPlayer("1", "Mo Salah", None)][..0] == [];
  }

  /** The same run with the Latin-1 normaliser. */
  lemma SalahExampleLatin1(ratio: (string, string) -> Score)
    ensures Outcome(Norm(Latin1.Table), ratio,
                       IndexOf(Norm(Latin1.Table), [ExternalRecord(101, "Mohamed", "Salah", "Salah")]),
                       LocalPlayer("1", "Mo Salah", None))
      == Matched(101, Containment)
  {
    Latin1.MohamedSalahName();
    Latin1.SalahName();
    Latin1.MoSalahName();
    SalahExample(Norm(Latin1.Table), ratio);
  }
}
