/**
  The stored-artifact list of the reader page: saving the artifact being
  edited, removing and replacing stored entries by id, the filtered view
  shown in the grid and the options of the set dropdown. The page keeps the
  list in a state cell that each operation replaces with a new array, so
  every operation is a function from the old list to the new one.
*/
module Reader {
  import opened ArrayOps

  /**
    A stored artifact. `typeId` and `setId` are the ids of its `type` and
    `set` records; every other field of `Artifact` (declared in
    `@/types/Scorer`), including the rest of its `type` and `set` records,
    is the payload `P`, which none of these operations looks at.
  */
  datatype Artifact<P> = Artifact(id: string, typeId: string, setId: string, payload: P)

  /** The value both filter dropdowns hold when no filter is chosen. */
  const ALL: string := "ALL"

  /** Some stored entry carries `id`. */
  ghost predicate HasId<P>(stored: seq<Artifact<P>>, id: string) {
    exists i :: 0 <= i < |stored| && stored[i].id == id
  }

  /** Some stored entry belongs to set `setId`. */
  ghost predicate HasSet<P>(stored: seq<Artifact<P>>, setId: string) {
    exists i :: 0 <= i < |stored| && stored[i].setId == setId
  }

  // ---------------------------------------------------------------------
  // Save, remove, edit

  /**
    Saving puts a copy of the artifact being edited, with the freshly made
    id in place of its own, in front of the stored list. The id is not
    checked against the ids already stored.
  */
  function Save<P>(prev: seq<Artifact<P>>, current: Artifact<P>, newId: string): (r: seq<Artifact<P>>)
    ensures |r| == |prev| + 1
    ensures r[0] == Artifact(newId, current.typeId, current.setId, current.payload)
    ensures r[1..] == prev
  {
    [current.(id := newId)] + prev
  }

  /**
    Removing drops every entry whose id is `id` and keeps every other entry,
    in the order it had.
  */
  function Remove<P>(prev: seq<Artifact<P>>, id: string): (r: seq<Artifact<P>>)
    ensures forall i :: 0 <= i < |r| ==> r[i].id != id
    ensures IsSubsequence(r, prev)
    ensures multiset(r) <= multiset(prev)
    ensures forall i :: 0 <= i < |prev| && prev[i].id != id ==> multiset(r)[prev[i]] == multiset(prev)[prev[i]]
    ensures |r| == |prev| <==> !HasId(prev, id)
  {
    RemoveShrinks(prev, id);
    Filter(prev, (a: Artifact<P>) => a.id != id)
  }

  /**
    Editing replaces, position by position, every entry whose id is `id` by
    `newArt` (with whatever id `newArt` carries) and leaves the others as
    they were.
  */
  function Edit<P>(prev: seq<Artifact<P>>, id: string, newArt: Artifact<P>): (r: seq<Artifact<P>>)
    ensures |r| == |prev|
    ensures forall i :: 0 <= i < |prev| && prev[i].id == id ==> r[i] == newArt
    ensures forall i :: 0 <= i < |prev| && prev[i].id != id ==> r[i] == prev[i]
  {
    Map(prev, (a: Artifact<P>) => if a.id == id then newArt else a)
  }

  /** The length drops exactly when some entry carried the id. */
  lemma RemoveShrinks<P>(prev: seq<Artifact<P>>, id: string)
    ensures |Filter(prev, (a: Artifact<P>) => a.id != id)| == |prev| <==> !HasId(prev, id)
  {
    var r := Filter(prev, (a: Artifact<P>) => a.id != id);
    if HasId(prev, id) {
      var i :| 0 <= i < |prev| && prev[i].id == id;
      assert prev[i] in multiset(prev);
      assert multiset(r)[prev[i]] == 0;
      assert multiset(r) != multiset(prev);
      if |r| == |prev| {
        MultisetSubsetOfSameSize(multiset(r), multiset(prev));
      }
    } else {
      FilterKeepsAll(prev, (a: Artifact<P>) => a.id != id);
    }
  }

  /** Removing an id nobody carries returns the list as it was. */
  lemma RemoveAbsent<P>(prev: seq<Artifact<P>>, id: string)
    requires !HasId(prev, id)
    ensures Remove(prev, id) == prev
  {
    FilterKeepsAll(prev, (a: Artifact<P>) => a.id != id);
  }

  /** Removing the same id twice is removing it once. */
  lemma RemoveTwice<P>(prev: seq<Artifact<P>>, id: string)
    ensures Remove(Remove(prev, id), id) == Remove(prev, id)
  {
    FilterIdempotent(prev, (a: Artifact<P>) => a.id != id);
  }

  /**
    Removing the id just saved takes the saved entry out again, together
    with any older entry that happened to get the same id.
  */
  lemma RemoveAfterSave<P>(prev: seq<Artifact<P>>, current: Artifact<P>, newId: string)
    ensures Remove(Save(prev, current, newId), newId) == Remove(prev, newId)
  {
    FilterCons(current.(id := newId), prev, (a: Artifact<P>) => a.id != newId);
  }

  /** With an id not used before, removing it undoes the save. */
  lemma RemoveUndoesSave<P>(prev: seq<Artifact<P>>, current: Artifact<P>, newId: string)
    requires !HasId(prev, newId)
    ensures Remove(Save(prev, current, newId), newId) == prev
  {
    RemoveAfterSave(prev, current, newId);
    RemoveAbsent(prev, newId);
  }

  /** Editing an id nobody carries returns the list as it was. */
  lemma EditAbsent<P>(prev: seq<Artifact<P>>, id: string, newArt: Artifact<P>)
    requires !HasId(prev, id)
    ensures Edit(prev, id, newArt) == prev
  {
    MapFixes(prev, (a: Artifact<P>) => if a.id == id then newArt else a);
  }

  /** Applying the same edit twice is applying it once. */
  lemma EditTwice<P>(prev: seq<Artifact<P>>, id: string, newArt: Artifact<P>)
    ensures Edit(Edit(prev, id, newArt), id, newArt) == Edit(prev, id, newArt)
  {
  }

  /**
    An edit that keeps the id leaves the entries that removal keeps alone,
    so removing afterwards gives what removing alone gives.
  */
  lemma RemoveAfterEdit<P>(prev: seq<Artifact<P>>, id: string, newArt: Artifact<P>)
    requires newArt.id == id
    ensures Remove(Edit(prev, id, newArt), id) == Remove(prev, id)
  {
    var edited := Edit(prev, id, newArt);
    if |prev| > 0 {
      RemoveAfterEdit(prev[1..], id, newArt);
      assert edited[1..] == Edit(prev[1..], id, newArt);
      FilterCons(edited[0], edited[1..], (a: Artifact<P>) => a.id != id);
      FilterCons(prev[0], prev[1..], (a: Artifact<P>) => a.id != id);
      assert edited == [edited[0]] + edited[1..];
      assert prev == [prev[0]] + prev[1..];
    }
  }

  // ---------------------------------------------------------------------
  // The filtered view

  /**
    Whether an artifact passes the two filters: each filter is either the
    wildcard or must equal the artifact's own id for that field.
  */
  predicate Matches<P>(filterType: string, filterSet: string, art: Artifact<P>) {
    (filterType == ALL || art.typeId == filterType) && (filterSet == ALL || art.setId == filterSet)
  }

  /**
    The test the page applies to each artifact when a filter is chosen
    (lines 91-98 of the reader page): a three-way disjunction of the
    "type filter off", "set filter off" and "both match" cases. Whenever
    some filter is chosen it agrees with the conjunction `Matches`.
  */
  predicate PageKeeps<P>(filterType: string, filterSet: string, art: Artifact<P>)
    ensures !(filterType == ALL && filterSet == ALL) ==>
      (PageKeeps(filterType, filterSet, art) <==> Matches(filterType, filterSet, art))
  {
    var allType := filterType == ALL;
    var allSet := filterSet == ALL;
    var validType := art.typeId == filterType;
    var validSet := art.setId == filterSet;
    (allType && validSet) || (allSet && validType) || (validType && validSet)
  }

  /**
    The list shown in the grid, computed the way the page computes it: the
    whole store when both filters are the wildcard, and otherwise the
    entries that satisfy the page's three-way disjunction.
  */
  function FilteredView<P>(stored: seq<Artifact<P>>, filterType: string, filterSet: string): (r: seq<Artifact<P>>)
    ensures forall i :: 0 <= i < |r| ==> Matches(filterType, filterSet, r[i])
    ensures IsSubsequence(r, stored)
    ensures multiset(r) <= multiset(stored)
    ensures forall i :: 0 <= i < |stored| && Matches(filterType, filterSet, stored[i]) ==>
      multiset(r)[stored[i]] == multiset(stored)[stored[i]]
  {
    var allType := filterType == ALL;
    var allSet := filterSet == ALL;
    if allType && allSet then
      SubsequenceOfItself(stored);
      stored
    else
      Filter(stored, (art: Artifact<P>) => PageKeeps(filterType, filterSet, art))
  }

  /**
    Whatever the filters, the view is the order-preserving filter of the
    store by `Matches`: the page's disjunction, outside the both-wildcard
    case, selects exactly the artifacts that satisfy the conjunction.
  */
  lemma FilteredViewIsFilter<P>(stored: seq<Artifact<P>>, filterType: string, filterSet: string)
    ensures FilteredView(stored, filterType, filterSet) == Filter(stored, (a: Artifact<P>) => Matches(filterType, filterSet, a))
  {
    var allType := filterType == ALL;
    var allSet := filterSet == ALL;
    var matches := (a: Artifact<P>) => Matches(filterType, filterSet, a);
    if allType && allSet {
      FilterKeepsAll(stored, matches);
    } else {
      FilterAgrees(stored, (art: Artifact<P>) => PageKeeps(filterType, filterSet, art), matches);
    }
  }

  /** The view shows the whole store exactly when every stored artifact passes. */
  lemma FilteredViewIsWholeStore<P>(stored: seq<Artifact<P>>, filterType: string, filterSet: string)
    ensures FilteredView(stored, filterType, filterSet) == stored <==>
      forall i :: 0 <= i < |stored| ==> Matches(filterType, filterSet, stored[i])
  {
    if forall i :: 0 <= i < |stored| ==> Matches(filterType, filterSet, stored[i]) {
      FilteredViewIsFilter(stored, filterType, filterSet);
      FilterKeepsAll(stored, (a: Artifact<P>) => Matches(filterType, filterSet, a));
    }
  }

  /** With both filters on the wildcard the view is the store itself. */
  lemma FilteredViewUnfiltered<P>(stored: seq<Artifact<P>>)
    ensures FilteredView(stored, ALL, ALL) == stored
  {
  }

  /**
    A freshly saved artifact shows at the head of the view when it passes
    the filters; the rest of the view is the view of the older entries.
  */
  lemma FilteredViewAfterSave<P>(prev: seq<Artifact<P>>, current: Artifact<P>, newId: string,
                                 filterType: string, filterSet: string)
    ensures var saved := current.(id := newId);
      FilteredView(Save(prev, current, newId), filterType, filterSet)
      == (if Matches(filterType, filterSet, saved) then [saved] else []) + FilteredView(prev, filterType, filterSet)
  {
    var saved := current.(id := newId);
    FilteredViewIsFilter(Save(prev, current, newId), filterType, filterSet);
    FilteredViewIsFilter(prev, filterType, filterSet);
    FilterCons(saved, prev, (a: Artifact<P>) => Matches(filterType, filterSet, a));
  }

  // ---------------------------------------------------------------------
  // The set dropdown

  /** The set id of every stored entry, in store order. */
  function SetIds<P>(stored: seq<Artifact<P>>): (r: seq<string>)
    ensures |r| == |stored|
    ensures forall i :: 0 <= i < |stored| ==> r[i] == stored[i].setId
  {
    Map(stored, (a: Artifact<P>) => a.setId)
  }

  /**
    The options of the set dropdown (after its fixed wildcard entry): every
    set that some stored artifact belongs to, once each, in the order in
    which the sets first occur in the store.
  */
  function SetOptions<P>(stored: seq<Artifact<P>>): (r: seq<string>)
    ensures NoDuplicates(r)
    ensures forall setId :: setId in r <==> HasSet(stored, setId)
    ensures forall i :: 0 <= i < |r| ==> r[i] in SetIds(stored)
    ensures forall i, j :: 0 <= i < j < |r| ==> FirstIndex(SetIds(stored), r[i]) < FirstIndex(SetIds(stored), r[j])
  {
    var ids := SetIds(stored);
    var r := Distinct(ids);
    assert forall setId :: setId in r <==> setId in ids;
    r
  }

  /** Choosing any offered set, with the type filter on the wildcard, shows at least one artifact. */
  lemma SetOptionSelectsSomething<P>(stored: seq<Artifact<P>>, setId: string)
    requires setId in SetOptions(stored)
    ensures FilteredView(stored, ALL, setId) != []
  {
    var i :| 0 <= i < |stored| && stored[i].setId == setId;
    assert Matches(ALL, setId, stored[i]);
    var r := FilteredView(stored, ALL, setId);
    assert multiset(r)[stored[i]] == multiset(stored)[stored[i]];
    assert stored[i] in multiset(stored);
  }

  /** A set that is not offered (and is not the wildcard) selects nothing. */
  lemma UnofferedSetSelectsNothing<P>(stored: seq<Artifact<P>>, filterType: string, setId: string)
    requires setId != ALL && setId !in SetOptions(stored)
    ensures FilteredView(stored, filterType, setId) == []
  {
    FilteredViewIsFilter(stored, filterType, setId);
    FilterKeepsNone(stored, (a: Artifact<P>) => Matches(filterType, setId, a));
  }
}
