/**
 * The propagation step: photo codes of the local players are copied onto the
 * UI season-card records that refer to them. A UI record joins on its base
 * player id (or its own id), cut at the first '-', so that a composite id
 * such as "42-variantA" joins with local player "42".
 */
module Propagate {
  import opened Options
  import opened LookupIndex
  import opened Reconcile

  /** A UI season-card record: the fields the step reads and writes. */
  datatype UiPlayer = UiPlayer(id: Option<string>, basePlayerId: Option<string>, photoCode: Option<Code>)

  /** Python truthiness of `p.get('photoCode')`: present and not 0. */
  predicate HasPhotoCode(c: Option<Code>)
  {
    c.Some? && c.value != 0
  }

  /**
   * `{p['id']: p.get('photoCode') for p in local_players if p.get('photoCode')}`:
   * later players overwrite earlier ones with the same id.
   */
  function CoreMap(ps: seq<LocalPlayer>): map<string, Code>
  {
    if ps == [] then map[]
    else
      var m := CoreMap(ps[..|ps| - 1]);
      var p := ps[|ps| - 1];
      if HasPhotoCode(p.photoCode) then m[p.id := p.photoCode.value] else m
  }

  /** An id is in the map exactly when some local player with that id has a photo code. */
  lemma {:induction false} CoreMapKeys(ps: seq<LocalPlayer>, k: string)
    ensures k in CoreMap(ps) <==> exists i :: 0 <= i < |ps| && ps[i].id == k && HasPhotoCode(ps[i].photoCode)
  {
    if ps != [] {
      var init := ps[..|ps| - 1];
      CoreMapKeys(init, k);
      if k in CoreMap(init) {
        var i :| 0 <= i < |init| && init[i].id == k && HasPhotoCode(init[i].photoCode);
        assert ps[i] == init[i];
      }
      if i :| 0 <= i < |ps| - 1 && ps[i].id == k && HasPhotoCode(ps[i].photoCode) {
        assert init[i] == ps[i];
      }
    }
  }

  /** The code an id maps to is that of the last local player with the id and a photo code. */
  lemma {:induction false} CoreMapLastWins(ps: seq<LocalPlayer>, i: nat)
    requires i < |ps| && HasPhotoCode(ps[i].photoCode)
    requires forall j :: i < j < |ps| && ps[j].id == ps[i].id ==> !HasPhotoCode(ps[j].photoCode)
    ensures ps[i].id in CoreMap(ps) && CoreMap(ps)[ps[i].id] == ps[i].photoCode.value
  {
    if i < |ps| - 1 {
      var init := ps[..|ps| - 1];
      assert init[i] == ps[i];
      forall j | i < j < |init| && init[j].id == init[i].id
        ensures !HasPhotoCode(init[j].photoCode)
      {
        assert init[j] == ps[j];
      }
      CoreMapLastWins(init, i);
    }
  }

  /** `s.split('-')[0]`: s up to its first '-'. */
  function BeforeDash(s: string): (r: string)
    ensures r <= s && '-' !in r
    ensures |r| < |s| ==> s[|r|] == '-'
  {
    if s == [] || s[0] == '-' then [] else [s[0]] + BeforeDash(s[1..])
  }

  /** `str(p.get('basePlayerId') or p.get('id') or '').split('-')[0]`. */
  function BaseId(u: UiPlayer): string
  {
    var raw :=
      if u.basePlayerId.Some? && u.basePlayerId.value != "" then u.basePlayerId.value
      else if u.id.Some? && u.id.value != "" then u.id.value
      else "";
    BeforeDash(raw)
  }

  /** The UI record after its turn in the loop. */
  function Synced(core: map<string, Code>, u: UiPlayer): UiPlayer
  {
    if BaseId(u) in core then u.(photoCode := Some(core[BaseId(u)])) else u
  }

  /** `synced` after the loop has visited us. */
  function SyncCount(core: map<string, Code>, us: seq<UiPlayer>): nat
  {
    if us == [] then 0
    else
      var last := if BaseId(us[|us| - 1]) in core then 1 else 0;
      SyncCount(core, us[..|us| - 1]) + last
  }

  /** One more record adds one to the count exactly when its base id joins. */
  lemma SyncCountStep(core: map<string, Code>, us: seq<UiPlayer>, i: nat)
    requires i < |us|
    ensures SyncCount(core, us[..i + 1]) == SyncCount(core, us[..i]) + if BaseId(us[i]) in core then 1 else 0
  {
    assert us[..i + 1][..i] == us[..i];
  }

  /** No more records are synced than there are. */
  lemma {:induction false} SyncCountBounded(core: map<string, Code>, us: seq<UiPlayer>)
    ensures SyncCount(core, us) <= |us|
  {
    if us != [] {
      SyncCountBounded(core, us[..|us| - 1]);
    }
  }

  /** The join loop over the UI records, updating them in place and counting. */
  method PropagatePhotoCodes(localPlayers: seq<LocalPlayer>, uiPlayers: array<UiPlayer>) returns (synced: nat)
    modifies uiPlayers
    ensures forall i :: 0 <= i < uiPlayers.Length ==> uiPlayers[i] == Synced(CoreMap(localPlayers), old(uiPlayers[i]))
    ensures synced == SyncCount(CoreMap(localPlayers), old(uiPlayers[..]))
  {
    var coreMap := CoreMap(localPlayers);
    ghost var original := uiPlayers[..];
    synced := 0;
    for i := 0 to uiPlayers.Length
      invariant forall j :: 0 <= j < i ==> uiPlayers[j] == Synced(coreMap, original[j])
      invariant forall j :: i <= j < uiPlayers.Length ==> uiPlayers[j] == original[j]
      invariant synced == SyncCount(coreMap, original[..i])
    {
      SyncCountStep(coreMap, original, i);
      ghost var before := uiPlayers[..];
      var u := uiPlayers[i];
      var baseId := BaseId(u);
      if baseId in coreMap {
        uiPlayers[i] := u.(photoCode := Some(coreMap[baseId]));
        synced := synced + 1;
      }
      assert uiPlayers[i] == Synced(coreMap, original[i]);
      assert forall j :: 0 <= j < uiPlayers.Length && j != i ==> uiPlayers[j] == before[j];
    }
    assert original[..uiPlayers.Length] == original;
  }

  /**
   * A UI record receives a photo code exactly when its base id is the id of
   * a local player with a photo code; it then receives the code of the last
   * such player, and otherwise stays as it was.
   */
  lemma SyncedJoin(localPlayers: seq<LocalPlayer>, u: UiPlayer, i: nat)
    requires i < |localPlayers| && localPlayers[i].id == BaseId(u) && HasPhotoCode(localPlayers[i].photoCode)
    requires forall j :: i < j < |localPlayers| && localPlayers[j].id == BaseId(u) ==> !HasPhotoCode(localPlayers[j].photoCode)
    ensures Synced(CoreMap(localPlayers), u) == u.(photoCode := localPlayers[i].photoCode)
  {
    CoreMapLastWins(localPlayers, i);
  }

  /** A UI record whose base id names no local player with a photo code is untouched. */
  lemma UnsyncedUnchanged(localPlayers: seq<LocalPlayer>, u: UiPlayer)
    requires forall i :: 0 <= i < |localPlayers| && localPlayers[i].id == BaseId(u) ==> !HasPhotoCode(localPlayers[i].photoCode)
    ensures Synced(CoreMap(localPlayers), u) == u
  {
    CoreMapKeys(localPlayers, BaseId(u));
  }

  /** A composite id joins on the text before its first '-'. */
  lemma CompositeIdExample()
    ensures BaseId(UiPlayer(None, Some("1-variantA"), None)) == "1"
    ensures BaseId(UiPlayer(Some("42"), Some(""), None)) == "42"
  {
    assert "1-variantA" == ['1'] + "-variantA";
    assert BeforeDash("-variantA") == "";
    assert "42" == ['4'] + "2";
    assert BeforeDash("2") == "2";
  }

  /** Local player "1" with code 101 passes the code to UI record "1-variantA". */
  lemma PropagationExample()
    ensures Synced(CoreMap([LocalPlayer("1", "Mo Salah", Some(101))]), UiPlayer(None, Some("1-variantA"), None))
      == UiPlayer(None, Some("1-variantA"), Some(101))
  {
    CompositeIdExample();
    var ps := [LocalPlayer("1", "Mo Salah", Some(101))];
    CoreMapLastWins(ps, 0);
  }
}
