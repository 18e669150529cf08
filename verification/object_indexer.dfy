/** The in-memory metadata index of the object store: a list of records kept newest first, for
    listing, and a name-to-record dictionary, for lookup. The filesystem is reduced to what the
    index learns from it: a stat result that may be missing, and a directory scan that may fail. */
module ObjectIndexer {
  import opened Wrappers
  import opened Records
  import opened OrderedList

  /** The index state: `_Idxs` and `_NameMap`. */
  datatype Indexer = Indexer(idxs: seq<ObjectIndex>, nameMap: map<string, ObjectIndex>)

  /** The state after an operation together with the operation's boolean answer. */
  datatype Outcome = Outcome(indexer: Indexer, ok: bool)

  /** The dictionary and the list hold the same records: every entry is keyed by its record's
      name and is listed, and every listed record is the entry under its name. */
  predicate MapMatchesList(idxs: seq<ObjectIndex>, m: map<string, ObjectIndex>)
  {
    && (forall k :: k in m ==> m[k].name == k && m[k] in idxs)
    && (forall x :: x in idxs ==> x.name in m && m[x.name] == x)
  }

  /** The invariant of the index: the list is newest first, its names are unique, and the
      dictionary agrees with it. */
  predicate Valid(ix: Indexer)
  {
    && SortedNewestFirst(ix.idxs)
    && UniqueNames(ix.idxs)
    && MapMatchesList(ix.idxs, ix.nameMap)
  }

  /** The index before the first scan: an empty list and an empty dictionary. */
  function Empty(): (ix: Indexer)
    ensures Valid(ix)
    ensures ix.idxs == [] && ix.nameMap == map[]
  {
    Indexer([], map[])
  }

  /** Under the invariant, the dictionary's keys are exactly the names of the listed records. */
  lemma ValidKeysAreListedNames(ix: Indexer)
    requires Valid(ix)
    ensures ix.nameMap.Keys == Names(ix.idxs)
  {
  }

  /** `TryGetIndex`: the record indexed under `name`, if any. */
  function TryGetIndex(ix: Indexer, name: string): (r: Option<ObjectIndex>)
    ensures r.Some? <==> name in ix.nameMap
    ensures r.Some? ==> r.value == ix.nameMap[name]
  {
    if name in ix.nameMap then Some(ix.nameMap[name]) else None
  }

  /** Under the invariant, a lookup finds exactly the listed record of that name. */
  lemma TryGetIndexFindsListedRecord(ix: Indexer, name: string, x: ObjectIndex)
    requires Valid(ix)
    ensures TryGetIndex(ix, name) == Some(x) <==> x in ix.idxs && x.name == name
  {
  }

  /** `ToDictionary(x => x.Name)` over a list with unique names. */
  function ToDictionary(xs: seq<ObjectIndex>): (m: map<string, ObjectIndex>)
    requires UniqueNames(xs)
    ensures MapMatchesList(xs, m)
    decreases |xs|
  {
    if xs == [] then map[]
    else
      var init, last := xs[..|xs| - 1], xs[|xs| - 1];
      assert xs == init + [last];
      assert last.name !in Names(init);
      ToDictionary(init)[last.name := last]
  }

  /** `IndexAll`: rebuilds the index from a directory scan, or keeps it when the scan fails. A
      scan lists every file of the directory once, so its names are unique (the dictionary
      construction would throw otherwise). */
  function IndexAll(ix: Indexer, scan: Option<seq<ObjectIndex>>): (r: Outcome)
    requires scan.Some? ==> UniqueNames(scan.value)
    ensures r.ok <==> scan.Some?
    ensures !r.ok ==> r.indexer == ix
    ensures r.ok ==> multiset(r.indexer.idxs) == multiset(scan.value)
    ensures r.ok ==> r.indexer.nameMap.Keys == Names(r.indexer.idxs)
    ensures r.ok ==> Valid(r.indexer)
  {
    match scan
    case None => Outcome(ix, false)
    case Some(found) =>
      var idxs := SortNewestFirst(found);
      var next := Indexer(idxs, ToDictionary(idxs));
      ValidKeysAreListedNames(next);
      Outcome(next, true)
  }

  /** `Add`: indexes the file named `name` from its stat result, or answers false when the file
      does not exist (`stat` is `None`). The record goes into the list at its binary-search
      position, with the earlier records in their order, and into the dictionary under `name`;
      the dictionary insertion would throw on a name already indexed, which callers must
      therefore avoid. */
  function Add(ix: Indexer, name: string, stat: Option<ObjectIndex>): (r: Outcome)
    requires stat.Some? ==> name !in ix.nameMap
    ensures r.ok <==> stat.Some?
    ensures !r.ok ==> r.indexer == ix
    ensures r.ok ==> exists p :: InsertedAt(ix.idxs, stat.value, r.indexer.idxs, p)
    ensures r.ok ==> |r.indexer.idxs| == |ix.idxs| + 1
    ensures r.ok ==> multiset(r.indexer.idxs) == multiset(ix.idxs) + multiset{stat.value}
    ensures r.ok ==> r.indexer.nameMap == ix.nameMap[name := stat.value]
    ensures r.ok && SortedNewestFirst(ix.idxs) ==> SortedNewestFirst(r.indexer.idxs)
  {
    match stat
    case None => Outcome(ix, false)
    case Some(idx) =>
      Outcome(Indexer(InsertNewestFirst(ix.idxs, idx), ix.nameMap[name := idx]), true)
  }

  /** `Add` of a fresh name whose stat result carries that name keeps the index valid. */
  lemma AddPreservesValid(ix: Indexer, name: string, stat: Option<ObjectIndex>)
    requires Valid(ix)
    requires stat.Some? ==> name !in ix.nameMap && stat.value.name == name
    ensures Valid(Add(ix, name, stat).indexer)
  {
    if stat.Some? {
      var rec := stat.value;
      var next := Add(ix, name, stat).indexer;
      assert next == Indexer(InsertNewestFirst(ix.idxs, rec), ix.nameMap[name := rec]);
      InsertFreshNameKeepsUnique(ix.idxs, InsertionPoint(ix.idxs, rec), rec);
      AddedRecordMatches(ix.idxs, ix.nameMap, rec, next.idxs);
    }
  }

  /** Listing one more record and binding its fresh name to it keeps the dictionary in step. */
  lemma AddedRecordMatches(idxs: seq<ObjectIndex>, m: map<string, ObjectIndex>, rec: ObjectIndex, next: seq<ObjectIndex>)
    requires MapMatchesList(idxs, m) && rec.name !in m
    requires multiset(next) == multiset(idxs) + multiset{rec}
    ensures MapMatchesList(next, m[rec.name := rec])
  {
    var m' := m[rec.name := rec];
    forall x | x in next
      ensures x.name in m' && m'[x.name] == x
    {
      assert x in multiset(idxs) + multiset{rec};
    }
    forall k | k in m'
      ensures m'[k].name == k && m'[k] in next
    {
      assert m'[k] in multiset(next);
    }
  }

  /** `Remove`: drops the record indexed under `name` from the dictionary and its first
      occurrence from the list, or answers false when `name` is not indexed. Deleting the file
      itself is advisory and its failure is ignored, so it does not appear here. */
  function Remove(ix: Indexer, name: string): (r: Outcome)
    ensures r.ok <==> name in ix.nameMap
    ensures !r.ok ==> r.indexer == ix
    ensures r.ok ==> r.indexer.nameMap == ix.nameMap - {name}
    ensures r.ok ==> multiset(r.indexer.idxs) == multiset(ix.idxs) - multiset{ix.nameMap[name]}
    ensures r.ok && Valid(ix) ==>
              exists i :: 0 <= i < |ix.idxs| && ix.idxs[i].name == name
                          && r.indexer.idxs == ix.idxs[..i] + ix.idxs[i + 1..]
  {
    if name in ix.nameMap then
      var idx := ix.nameMap[name];
      Outcome(Indexer(RemoveFirst(ix.idxs, idx), ix.nameMap - {name}), true)
    else
      Outcome(ix, false)
  }

  /** `Remove` keeps the index valid, and afterwards no listed record carries the removed name. */
  lemma RemovePreservesValid(ix: Indexer, name: string)
    requires Valid(ix)
    ensures Valid(Remove(ix, name).indexer)
    ensures forall x :: x in Remove(ix, name).indexer.idxs ==> x.name != name
  {
    if name in ix.nameMap {
      var rec := ix.nameMap[name];
      var i := IndexOf(ix.idxs, rec);
      var next := Remove(ix, name).indexer;
      assert next == Indexer(ix.idxs[..i] + ix.idxs[i + 1..], ix.nameMap - {name});
      DeletePosition(ix.idxs, i);
      RemovedRecordMatches(ix.idxs, ix.nameMap, i);
    }
  }

  /** Deleting the listed record at `i` and unbinding its name keeps the dictionary in step, and
      no remaining record carries that name. */
  lemma RemovedRecordMatches(idxs: seq<ObjectIndex>, m: map<string, ObjectIndex>, i: nat)
    requires MapMatchesList(idxs, m) && UniqueNames(idxs) && i < |idxs|
    ensures MapMatchesList(idxs[..i] + idxs[i + 1..], m - {idxs[i].name})
    ensures forall x :: x in idxs[..i] + idxs[i + 1..] ==> x.name != idxs[i].name
  {
    var next, m' := idxs[..i] + idxs[i + 1..], m - {idxs[i].name};
    DeleteDropsOnlyThatName(idxs, i);
    forall k | k in m'
      ensures m'[k].name == k && m'[k] in next
    {
      var j :| 0 <= j < |idxs| && idxs[j] == m'[k];
      if j < i {
        assert next[j] == idxs[j];
      } else {
        assert j != i;
        assert next[j - 1] == idxs[j];
      }
    }
    forall x | x in next
      ensures x.name in m' && m'[x.name] == x
    {
      assert x in idxs && x.name != idxs[i].name;
    }
  }

  /** Removing a record just added restores the index exactly: the list regains its previous
      order and the dictionary its previous entries. */
  lemma AddThenRemove(ix: Indexer, name: string, rec: ObjectIndex)
    requires Valid(ix) && name !in ix.nameMap && rec.name == name
    ensures Add(ix, name, Some(rec)).ok
    ensures Remove(Add(ix, name, Some(rec)).indexer, name) == Outcome(ix, true)
  {
    assert rec !in ix.idxs;
    AddUnlistedThenRemove(ix, name, rec);
  }

  /** The round trip of `AddThenRemove` needs only that the record is not listed yet. */
  lemma AddUnlistedThenRemove(ix: Indexer, name: string, rec: ObjectIndex)
    requires name !in ix.nameMap && rec !in ix.idxs
    ensures Remove(Add(ix, name, Some(rec)).indexer, name) == Outcome(ix, true)
  {
    var added := Indexer(InsertNewestFirst(ix.idxs, rec), ix.nameMap[name := rec]);
    assert Add(ix, name, Some(rec)) == Outcome(added, true);
    assert Remove(added, name)
        == Outcome(Indexer(RemoveFirst(added.idxs, rec), added.nameMap - {name}), true);
    RemoveUndoesInsertNewestFirst(ix.idxs, rec);
    UpdateThenRemoveKey(ix.nameMap, name, rec);
  }

  /** Binding a fresh key and then removing it gives back the original dictionary. */
  lemma UpdateThenRemoveKey(m: map<string, ObjectIndex>, k: string, v: ObjectIndex)
    requires k !in m
    ensures m[k := v] - {k} == m
  {
    assert (m[k := v] - {k}).Keys == m.Keys;
  }
}
