/**
 * The lookup index: every external player record contributes three keys
 * (the normalised full name, the normalised web name and the normalised
 * surname), all mapping to the record's photo code. Records are inserted in
 * feed order, so a key shared by two records ends up with the later
 * record's code, but keeps the position where it was first inserted.
 */
module LookupIndex {
  import opened Options
  import opened OrderedDict
  import opened Normalizer

  /** The external feed's numeric photo code. */
  type Code = int

  /** One element of the external feed (the fields the index reads). */
  datatype ExternalRecord = ExternalRecord(code: Code, firstName: string, secondName: string, webName: string)

  /** Normalised name to photo code, in insertion order. */
  type Index = Dict<string, Code>

  /** `normalize` over the alphabet A, as a function value. */
  function Norm(A: Alphabet): string -> string
  {
    s => Normalize(A, s)
  }

  /**
   * The three keys of a record, in the order they are written, under the
   * normaliser norm (which is `Norm(A)` in the script).
   */
  function RecordKeys(norm: string -> string, p: ExternalRecord): seq<string>
  {
    [norm(p.firstName + " " + p.secondName), norm(p.webName), norm(p.secondName)]
  }

  /** The index after writing the three keys of p into it. */
  function Insert(norm: string -> string, lookup: Index, p: ExternalRecord): (r: Index)
    requires lookup.Valid()
    ensures r.Valid()
  {
    var keys := RecordKeys(norm, p);
    Set(Set(Set(lookup, keys[0], p.code), keys[1], p.code), keys[2], p.code)
  }

  /** The index built from the records, one record after the other. */
  function IndexOf(norm: string -> string, ps: seq<ExternalRecord>): (r: Index)
    ensures r.Valid()
  {
    if ps == [] then Empty() else Insert(norm, IndexOf(norm, ps[..|ps| - 1]), ps[|ps| - 1])
  }

  /**
   * The index build loop. The script calls `normalize` on each name; here
   * the normaliser is the parameter norm, which the script's run
   * instantiates with `Norm(A)`.
   */
  method BuildIndex(norm: string -> string, elements: seq<ExternalRecord>) returns (lookup: Index)
    ensures lookup == IndexOf(norm, elements)
    ensures lookup.Valid()
    ensures forall k :: k in lookup.order <==> exists i :: 0 <= i < |elements| && k in RecordKeys(norm, elements[i])
  {
    lookup := Empty();
    for n := 0 to |elements|
      invariant lookup == IndexOf(norm, elements[..n])
    {
      var p := elements[n];
      ghost var before := lookup;
      var full := norm(p.firstName + " " + p.secondName);
      var web := norm(p.webName);
      lookup := Set(lookup, full, p.code);
      lookup := Set(lookup, web, p.code);
      lookup := Set(lookup, norm(p.secondName), p.code);
      assert lookup == Insert(norm, before, p);
      IndexOfStep(norm, elements, n);
    }
    assert elements[..|elements|] == elements;
    IndexKeysAll(norm, elements);
  }

  /** Building from one more record inserts that record into the index built so far. */
  lemma IndexOfStep(norm: string -> string, ps: seq<ExternalRecord>, n: nat)
    requires n < |ps|
    ensures IndexOf(norm, ps[..n + 1]) == Insert(norm, IndexOf(norm, ps[..n]), ps[n])
  {
    assert ps[..n + 1][..n] == ps[..n];
  }

  /** Inserting a record adds exactly its three keys, after the keys already there. */
  lemma InsertKeys(norm: string -> string, lookup: Index, p: ExternalRecord, k: string)
    requires lookup.Valid()
    ensures k in Insert(norm, lookup, p).order <==> k in lookup.order || k in RecordKeys(norm, p)
    ensures lookup.order <= Insert(norm, lookup, p).order
  {
    var keys := RecordKeys(norm, p);
    var d1 := Set(lookup, keys[0], p.code);
    var d2 := Set(d1, keys[1], p.code);
    assert Insert(norm, lookup, p) == Set(d2, keys[2], p.code);
    assert k in keys <==> k == keys[0] || k == keys[1] || k == keys[2];
  }

  /** A key is in the index exactly when some record produces it. */
  lemma {:induction false} IndexKeys(norm: string -> string, ps: seq<ExternalRecord>, k: string)
    ensures k in IndexOf(norm, ps).order <==> exists i :: 0 <= i < |ps| && k in RecordKeys(norm, ps[i])
  {
    if ps != [] {
      var init, last := ps[..|ps| - 1], ps[|ps| - 1];
      var before := IndexOf(norm, init);
      assert IndexOf(norm, ps) == Insert(norm, before, last);
      IndexKeys(norm, init, k);
      InsertKeys(norm, before, last, k);
      if k in IndexOf(norm, ps).order {
        if k in RecordKeys(norm, last) {
          assert ps[|ps| - 1] == last;
        } else {
          assert k in before.order;
          var i :| 0 <= i < |init| && k in RecordKeys(norm, init[i]);
          assert ps[i] == init[i];
        }
      }
      if i :| 0 <= i < |ps| && k in RecordKeys(norm, ps[i]) {
        if i < |init| {
          assert init[i] == ps[i];
          assert k in before.order;
        } else {
          assert ps[i] == last;
        }
      }
    }
  }

  /** `IndexKeys` for every key at once. */
  lemma IndexKeysAll(norm: string -> string, ps: seq<ExternalRecord>)
    ensures forall k :: k in IndexOf(norm, ps).order <==> exists i :: 0 <= i < |ps| && k in RecordKeys(norm, ps[i])
  {
    forall k {
      IndexKeys(norm, ps, k);
    }
  }

  /**
   * Each of a record's keys maps to that record's code, unless a later
   * record writes the same key again.
   */
  lemma {:induction false} LastWriterWins(norm: string -> string, ps: seq<ExternalRecord>, i: nat, k: string)
    requires i < |ps| && k in RecordKeys(norm, ps[i])
    requires forall j :: i < j < |ps| ==> k !in RecordKeys(norm, ps[j])
    ensures Get(IndexOf(norm, ps), k) == Some(ps[i].code)
  {
    var init := ps[..|ps| - 1];
    if i < |ps| - 1 {
      forall j | i < j < |init|
        ensures k !in RecordKeys(norm, init[j])
      {
        assert init[j] == ps[j];
      }
      LastWriterWins(norm, init, i, k);
    }
  }

  /** A key no record produces is absent from the index. */
  lemma Absent(norm: string -> string, ps: seq<ExternalRecord>, k: string)
    requires forall i :: 0 <= i < |ps| ==> k !in RecordKeys(norm, ps[i])
    ensures Get(IndexOf(norm, ps), k) == None
  {
    IndexKeys(norm, ps, k);
  }

  /**
   * Later records never move a key: the keys of the index built from a
   * prefix of the feed are a prefix of the final index's keys, so a key sits
   * where it was first inserted.
   */
  lemma {:induction false} KeysKeepPosition(norm: string -> string, ps: seq<ExternalRecord>, n: nat)
    requires n <= |ps|
    ensures IndexOf(norm, ps[..n]).order <= IndexOf(norm, ps).order
  {
    if n < |ps| {
      var init := ps[..|ps| - 1];
      assert init[..n] == ps[..n];
      KeysKeepPosition(norm, init, n);
      InsertKeys(norm, IndexOf(norm, init), ps[|ps| - 1], "");
    } else {
      assert ps[..n] == ps;
    }
  }

  /** A single record whose keys are a, b, b indexes a then b, both to its code. */
  lemma TwoKeyIndex(norm: string -> string, rec: ExternalRecord, a: string, b: string)
    requires RecordKeys(norm, rec) == [a, b, b] && a != b
    ensures IndexOf(norm, [rec]) == Dict([a, b], map[a := rec.code, b := rec.code])
  {
    var d1 := Set(Empty(), a, rec.code);
    assert d1 == Dict([a], map[a := rec.code]);
    var d2 := Set(d1, b, rec.code);
    assert d2 == Dict([a, b], map[a := rec.code, b := rec.code]);
    assert Set(d2, b, rec.code) == d2;
    assert [rec][..0] == [];
    assert IndexOf(norm, [rec]) == Insert(norm, IndexOf(norm, []), rec);
  }
}
