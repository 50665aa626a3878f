/** The grocery store of src/state/store.ts: the recipe catalog, the saved lists and the
    favourites, which are persisted, and the grocery builder (selected recipes, extra
    items, checked names and the list being edited), which is not. Every action replaces
    some of these fields by a new value computed from the old ones. */
module Store {
  import opened Seqs
  import opened Text
  import opened Normalization
  import opened Types

  /** The fields of a recipe the editor supplies; the store adds the id and timestamps. */
  datatype RecipeData = RecipeData(title: string, standard: seq<string>, special: seq<string>)

  /** The persisted part of the store, as `persist` and `exportJSON` write it
      (schema version 1). */
  datatype Storage = Storage(recipes: seq<Recipe>, savedLists: seq<SavedList>, favourites: seq<ExtraItem>)

  /** A parsed backup file: a value that is not a non-null object, or an object with the
      fields the import reads. A field that is absent (or `null`) is `None`; a
      `schemaVersion` that is not a number is `None` as well. */
  datatype Backup =
    | NotAnObject
    | Object(schemaVersion: Option<int>, recipes: Option<seq<Recipe>>,
             savedLists: Option<seq<SavedList>>, favourites: Option<seq<ExtraItem>>)

  const ImportError := "Invalid or unsupported backup file"

  // ---------------------------------------------------------------------------------
  // Extra items and favourites, keyed by normalized name and section

  /** `e` is filed under key `norm` in `section`. */
  predicate Matches(e: ExtraItem, norm: string, section: Section) {
    NormalizeName(e.name) == norm && e.section == section
  }

  /** `list.some((e) => normalizeName(e.name) === norm && e.section === section)` */
  predicate HasItem(list: seq<ExtraItem>, norm: string, section: Section) {
    exists e :: e in list && Matches(e, norm, section)
  }

  /** The rule shared by `addExtra` and `addFavourite`: a name that is blank, or whose key
      is already taken in the standard section, changes nothing; any other name is
      appended once, trimmed, to the standard section, with the given source tag. */
  function AddedItem(list: seq<ExtraItem>, name: string, source: Option<Source>): (r: seq<ExtraItem>)
    ensures |r| == |list| + 1 <==> NormalizeName(name) != "" && !HasItem(list, NormalizeName(name), Standard)
    ensures |r| == |list| || |r| == |list| + 1
    ensures r[..|list|] == list
    ensures |r| == |list| + 1 ==> r[|list|] == ExtraItem(Trim(name), Standard, source)
  {
    var norm := NormalizeName(name);
    if norm == "" || HasItem(list, norm, Standard) then list
    else
      var item := ExtraItem(Trim(name), Standard, source);
      InitOfSnoc(list, item);
      list + [item]
  }

  /** After the add rule a non-blank name is present in the standard section. */
  lemma AddedItemPresent(list: seq<ExtraItem>, name: string, source: Option<Source>)
    requires NormalizeName(name) != ""
    ensures HasItem(AddedItem(list, name, source), NormalizeName(name), Standard)
  {
    var r := AddedItem(list, name, source);
    if |r| == |list| + 1 {
      NormalizeTrim(name);
      assert r[|list|] in r;
    }
  }

  /** Adding the same name twice is adding it once. */
  lemma AddedItemIdempotent(list: seq<ExtraItem>, name: string, source: Option<Source>)
    ensures AddedItem(AddedItem(list, name, source), name, source) == AddedItem(list, name, source)
  {
    if NormalizeName(name) != "" {
      AddedItemPresent(list, name, source);
    }
  }

  /** Every key of the standard section occurs at most once. */
  predicate DistinctKeys(list: seq<ExtraItem>) {
    forall i, j :: 0 <= i < j < |list| && list[i].section == Standard && list[j].section == Standard ==>
      NormalizeName(list[i].name) != NormalizeName(list[j].name)
  }

  /** The add rule never creates a second standard item with the same key. */
  lemma AddedItemKeepsKeysDistinct(list: seq<ExtraItem>, name: string, source: Option<Source>)
    requires DistinctKeys(list)
    ensures DistinctKeys(AddedItem(list, name, source))
  {
    var r := AddedItem(list, name, source);
    if |r| == |list| + 1 {
      var norm := NormalizeName(name);
      NormalizeTrim(name);
      forall i, j | 0 <= i < j < |r| && r[i].section == Standard && r[j].section == Standard
        ensures NormalizeName(r[i].name) != NormalizeName(r[j].name)
      {
        if j == |list| {
          assert r[i] == list[i] && r[i] in list;
          assert !Matches(r[i], norm, Standard);
        } else {
          assert r[i] == list[i] && r[j] == list[j];
        }
      }
    }
  }

  /** `list.filter((e) => !(normalizeName(e.name) === norm && e.section === section))`:
      drops exactly the items filed under the key in that section and keeps the others
      in order. */
  function RemoveMatching(list: seq<ExtraItem>, norm: string, section: Section): (r: seq<ExtraItem>)
    ensures forall e :: e in r <==> e in list && !Matches(e, norm, section)
    ensures !HasItem(r, norm, section)
    ensures IsSubseq(r, list)
    ensures !HasItem(list, norm, section) ==> r == list
    ensures forall e :: multiset(r)[e] == if Matches(e, norm, section) then 0 else multiset(list)[e]
  {
    var keep := e => !Matches(e, norm, section);
    FilterCounts(list, keep);
    Filter(list, keep)
  }

  /** Removing a name that was just added (and was absent before) restores the list. */
  lemma RemoveUndoesAdd(list: seq<ExtraItem>, name: string, source: Option<Source>)
    requires NormalizeName(name) != ""
    requires !HasItem(list, NormalizeName(name), Standard)
    ensures RemoveMatching(AddedItem(list, name, source), NormalizeName(name), Standard) == list
  {
    var norm := NormalizeName(name);
    var item := ExtraItem(Trim(name), Standard, source);
    NormalizeTrim(name);
    var p := (e: ExtraItem) => !Matches(e, norm, Standard);
    var all := list + [item];
    assert all[..|list|] == list;
    assert Filter(all, p) == Filter(list, p);
  }

  /** The favourites as the store keeps them: every one in the standard section and
      without a source tag. */
  predicate AllPlainStandard(list: seq<ExtraItem>) {
    forall e :: e in list ==> e.section == Standard && e.source == None
  }

  /** `favourites.map((f) => ({ name: f.name, section: 'standard' }))` */
  function AsFavourites(list: seq<ExtraItem>): (r: seq<ExtraItem>)
    ensures |r| == |list|
    ensures AllPlainStandard(r)
    ensures forall i :: 0 <= i < |list| ==> r[i].name == list[i].name
  {
    seq(|list|, i requires 0 <= i < |list| => ExtraItem(list[i].name, Standard, None))
  }

  /** Favourites already in the kept form are left as they are. */
  lemma AsFavouritesOfPlain(list: seq<ExtraItem>)
    requires AllPlainStandard(list)
    ensures AsFavourites(list) == list
  {
    var r := AsFavourites(list);
    forall i | 0 <= i < |list| ensures r[i] == list[i] {
      assert list[i] in list;
    }
  }

  /** Favourites are all standard, so removing a special favourite changes nothing. */
  lemma RemoveSpecialFavourite(list: seq<ExtraItem>, norm: string)
    requires AllPlainStandard(list)
    ensures RemoveMatching(list, norm, Special) == list
  {
  }

  // ---------------------------------------------------------------------------------
  // Recipes

  /** `recipes.map((x) => (x.id === r.id ? { ...r, updatedAt: now } : x))` */
  function Updated(recipes: seq<Recipe>, r: Recipe, now: string): (u: seq<Recipe>)
    ensures |u| == |recipes|
    ensures forall i :: 0 <= i < |u| ==> u[i].id == recipes[i].id
    ensures forall i :: 0 <= i < |u| && recipes[i].id == r.id ==> u[i] == r.(updatedAt := now)
    ensures forall i :: 0 <= i < |u| && recipes[i].id != r.id ==> u[i] == recipes[i]
  {
    seq(|recipes|, i requires 0 <= i < |recipes| =>
      if recipes[i].id == r.id then r.(updatedAt := now) else recipes[i])
  }

  /** Updating a recipe whose id is not in the catalog changes nothing. */
  lemma UpdateUnknownRecipe(recipes: seq<Recipe>, r: Recipe, now: string)
    requires forall x :: x in recipes ==> x.id != r.id
    ensures Updated(recipes, r, now) == recipes
  {
    var u := Updated(recipes, r, now);
    forall i | 0 <= i < |u| ensures u[i] == recipes[i] {
      assert recipes[i] in recipes;
    }
  }

  /** `recipes.filter((r) => r.id !== id)` */
  function WithoutRecipe(recipes: seq<Recipe>, id: string): (r: seq<Recipe>)
    ensures forall x :: x in r <==> x in recipes && x.id != id
    ensures IsSubseq(r, recipes)
    ensures forall x :: multiset(r)[x] == if x.id == id then 0 else multiset(recipes)[x]
  {
    var keep := (x: Recipe) => x.id != id;
    FilterCounts(recipes, keep);
    Filter(recipes, keep)
  }

  /** `ids.filter((rid) => rid !== id)` */
  function WithoutId(ids: seq<string>, id: string): (r: seq<string>)
    ensures id !in r
    ensures forall x :: x != id ==> (x in r <==> x in ids)
    ensures IsSubseq(r, ids)
    ensures id !in ids ==> r == ids
    ensures forall x :: multiset(r)[x] == if x == id then 0 else multiset(ids)[x]
  {
    var keep := x => x != id;
    FilterCounts(ids, keep);
    Filter(ids, keep)
  }

  /** The `includes`/`push` loop of `setSelectedRecipeIds`. */
  method Unique(ids: seq<string>) returns (uniq: seq<string>)
    ensures uniq == Dedup(ids)
  {
    uniq := [];
    for i := 0 to |ids|
      invariant uniq == Dedup(ids[..i])
    {
      PrefixStep(ids, i);
      if ids[i] !in uniq {
        uniq := uniq + [ids[i]];
      }
    }
    assert ids[..|ids|] == ids;
  }

  // ---------------------------------------------------------------------------------
  // Saved lists

  /** `lists.find((l) => l.id === id)`: the first list with that id. */
  function Find(lists: seq<SavedList>, id: string): (r: Option<SavedList>)
    ensures r.None? <==> forall l :: l in lists ==> l.id != id
    ensures r.Some? ==> r.value.id == id
    ensures r.Some? ==> exists i :: 0 <= i < |lists| && lists[i] == r.value && forall k :: 0 <= k < i ==> lists[k].id != id
  {
    if |lists| == 0 then None
    else if lists[0].id == id then
      assert lists[0] == lists[0];
      Some(lists[0])
    else
      var r := Find(lists[1..], id);
      assert forall l :: l in lists ==> l == lists[0] || l in lists[1..];
      if r.Some? then
        var i :| 0 <= i < |lists[1..]| && lists[1..][i] == r.value && forall k :: 0 <= k < i ==> lists[1..][k].id != id;
        assert lists[i + 1] == r.value;
        assert forall k :: 0 <= k < i + 1 ==> lists[k].id != id by {
          forall k | 0 <= k < i + 1 ensures lists[k].id != id {
            if k > 0 { assert lists[k] == lists[1..][k - 1]; }
          }
        }
        r
      else r
  }

  /** `lists.map((l) => (l.id === s.id ? s : l))` */
  function Replaced(lists: seq<SavedList>, s: SavedList): (r: seq<SavedList>)
    ensures |r| == |lists|
    ensures forall i :: 0 <= i < |r| ==> r[i].id == lists[i].id
    ensures forall i :: 0 <= i < |r| ==> r[i] == if lists[i].id == s.id then s else lists[i]
  {
    seq(|lists|, i requires 0 <= i < |lists| => if lists[i].id == s.id then s else lists[i])
  }

  /** The upsert of `saveCurrentAs`: every list with the snapshot's id is replaced in
      place; if there is none, the snapshot is appended. */
  function Upsert(lists: seq<SavedList>, s: SavedList): (r: seq<SavedList>)
    ensures Find(lists, s.id).Some? ==> |r| == |lists| && forall i :: 0 <= i < |r| ==> r[i].id == lists[i].id
    ensures Find(lists, s.id).Some? ==> r == Replaced(lists, s)
    ensures Find(lists, s.id).None? ==> r == lists + [s]
  {
    if exists l :: l in lists && l.id == s.id then Replaced(lists, s) else lists + [s]
  }

  lemma {:induction false} FindReplaced(lists: seq<SavedList>, s: SavedList, id: string)
    ensures Find(Replaced(lists, s), id) == if id == s.id && Find(lists, id).Some? then Some(s) else Find(lists, id)
  {
    if |lists| > 0 {
      assert Replaced(lists, s)[1..] == Replaced(lists[1..], s);
      FindReplaced(lists[1..], s, id);
    }
  }

  lemma {:induction false} FindAppended(lists: seq<SavedList>, s: SavedList, id: string)
    ensures Find(lists + [s], id) == if Find(lists, id).Some? then Find(lists, id) else if s.id == id then Some(s) else None
  {
    if |lists| > 0 {
      assert (lists + [s])[1..] == lists[1..] + [s];
      FindAppended(lists[1..], s, id);
    } else {
      assert (lists + [s])[1..] == [];
    }
  }

  /** After an upsert the snapshot is what a lookup of its id finds, and every other id
      finds what it found before. */
  lemma UpsertThenFind(lists: seq<SavedList>, s: SavedList, id: string)
    ensures Find(Upsert(lists, s), id) == if id == s.id then Some(s) else Find(lists, id)
  {
    if Find(lists, s.id).Some? {
      FindReplaced(lists, s, id);
    } else {
      FindAppended(lists, s, id);
    }
  }

  /** `lists.filter((l) => l.id !== id)` */
  function WithoutList(lists: seq<SavedList>, id: string): (r: seq<SavedList>)
    ensures Find(r, id).None?
    ensures forall l :: l in r <==> l in lists && l.id != id
    ensures IsSubseq(r, lists)
    ensures forall l :: multiset(r)[l] == if l.id == id then 0 else multiset(lists)[l]
  {
    var keep := (l: SavedList) => l.id != id;
    FilterCounts(lists, keep);
    Filter(lists, keep)
  }

  /** `[...new Set(names.map(normalizeName))]`: the checked names a saved list stores. */
  function CheckedKeys(names: seq<string>): (r: seq<string>)
    ensures NoDups(r)
    ensures forall x :: x in r ==> NormalizeName(x) == x
    ensures forall n :: n in names ==> NormalizeName(n) in r
    ensures forall x :: x in r ==> exists n :: n in names && NormalizeName(n) == x
  {
    var all := NormalizedAll(names);
    forall x | x in all ensures NormalizeName(x) == x {
      var i :| 0 <= i < |all| && all[i] == x;
      NormalizeNameIdempotent(names[i]);
    }
    forall n | n in names ensures NormalizeName(n) in all {
      var i :| 0 <= i < |names| && names[i] == n;
      assert all[i] == NormalizeName(n);
    }
    Dedup(all)
  }

  /** Normalizing the stored checked names again, as loading does, changes nothing. */
  lemma NormalizedCheckedKeys(names: seq<string>)
    ensures NormalizedAll(CheckedKeys(names)) == CheckedKeys(names)
  {
    var c := CheckedKeys(names);
    forall i | 0 <= i < |c| ensures NormalizedAll(c)[i] == c[i] {
      assert c[i] in c;
    }
  }

  /** JavaScript truthiness of an optional string: present and not empty. */
  predicate Truthy(s: Option<string>) {
    s.Some? && s.value != ""
  }

  /** The list `saveCurrentAs(name)` stores: under the id of the list being edited
      (`currentListId ?? freshId`), holding the builder's selection, extras and
      normalized checked names; `createdAt` is kept from a list already stored under that
      id, provided the id being edited is truthy. */
  function Snapshot(currentListId: Option<string>, lists: seq<SavedList>, selected: seq<string>,
                    extras: seq<ExtraItem>, checked: seq<string>, name: string, freshId: string,
                    now: string): (s: SavedList)
    ensures s.id == currentListId.GetOr(freshId) && s.name == name && s.updatedAt == now
    ensures s.recipeIds == selected && s.extras == extras
    ensures Truthy(currentListId) && Find(lists, s.id).Some? ==> s.createdAt == Find(lists, s.id).value.createdAt
    ensures !(Truthy(currentListId) && Find(lists, s.id).Some?) ==> s.createdAt == now
  {
    var id := currentListId.GetOr(freshId);
    var createdAt :=
      if Truthy(currentListId) then
        (match Find(lists, id) case Some(l) => l.createdAt case None => now)
      else now;
    SavedList(id, name, selected, extras, CheckedKeys(checked), createdAt, now)
  }

  /** What is saved is what loading the saved list gives back: the selection, the extras
      and the normalized checked names, found under the id that was saved. */
  lemma SaveThenLoad(currentListId: Option<string>, lists: seq<SavedList>, selected: seq<string>,
                     extras: seq<ExtraItem>, checked: seq<string>, name: string, freshId: string, now: string)
    ensures var s := Snapshot(currentListId, lists, selected, extras, checked, name, freshId, now);
      Find(Upsert(lists, s), s.id) == Some(s)
      && s.recipeIds == selected && s.extras == extras
      && NormalizedAll(s.checkedNames) == CheckedKeys(checked)
  {
    var s := Snapshot(currentListId, lists, selected, extras, checked, name, freshId, now);
    UpsertThenFind(lists, s, s.id);
    NormalizedCheckedKeys(checked);
  }

  /** Saving again the list being edited keeps its id, its place and its creation time. */
  lemma ResaveKeepsCreation(id: string, lists: seq<SavedList>, selected: seq<string>,
                            extras: seq<ExtraItem>, checked: seq<string>, name: string, freshId: string, now: string)
    requires id != ""
    requires Find(lists, id).Some?
    ensures var s := Snapshot(Some(id), lists, selected, extras, checked, name, freshId, now);
      s.id == id && s.createdAt == Find(lists, id).value.createdAt && |Upsert(lists, s)| == |lists|
  {
  }

  /** The empty string is a falsy id: re-saving a list stored under `""` takes a new
      creation time, although the list keeps its place. */
  lemma ResaveEmptyIdRestamps(lists: seq<SavedList>, selected: seq<string>,
                              extras: seq<ExtraItem>, checked: seq<string>, name: string, freshId: string, now: string)
    ensures Snapshot(Some(""), lists, selected, extras, checked, name, freshId, now).createdAt == now
    ensures Snapshot(Some(""), lists, selected, extras, checked, name, freshId, now).id == ""
  {
  }

  // ---------------------------------------------------------------------------------
  // Import and export

  /** The record `exportJSON` serializes. */
  function Exported(data: Storage): Backup {
    Object(Some(1), Some(data.recipes), Some(data.savedLists), Some(data.favourites))
  }

  /** What `importJSON` installs, or `None` when it throws: anything other than an object
      whose `schemaVersion` is 1 is refused; missing collections become empty, and the
      favourites are forced into the standard section without a source. */
  function Imported(backup: Backup): (r: Option<Storage>)
    ensures r.Some? <==> backup.Object? && backup.schemaVersion == Some(1)
    ensures r.Some? ==> AllPlainStandard(r.value.favourites)
    ensures r.Some? ==> r.value.recipes == backup.recipes.GetOr([])
    ensures r.Some? ==> r.value.savedLists == backup.savedLists.GetOr([])
    ensures r.Some? ==> r.value.favourites == AsFavourites(backup.favourites.GetOr([]))
  {
    match backup
    case NotAnObject => None
    case Object(version, recipes, lists, favourites) =>
      if version != Some(1) then None
      else Some(Storage(recipes.GetOr([]), lists.GetOr([]), AsFavourites(favourites.GetOr([]))))
  }

  /** Importing an export restores the persisted state. */
  lemma ImportOfExport(data: Storage)
    requires AllPlainStandard(data.favourites)
    ensures Imported(Exported(data)) == Some(data)
  {
    AsFavouritesOfPlain(data.favourites);
  }

  /** A backup of any other version is refused. */
  lemma OtherVersionRefused(backup: Backup, v: int)
    requires backup.Object? && backup.schemaVersion == Some(v) && v != 1
    ensures Imported(backup).None?
  {
  }

  // ---------------------------------------------------------------------------------
  // The store

  class GroceryStore {
    var recipes: seq<Recipe>
    var savedLists: seq<SavedList>
    var favourites: seq<ExtraItem>
    var selectedRecipeIds: seq<string>
    var extras: seq<ExtraItem>
    var checkedNames: seq<string>
    var currentListId: Option<string>

    /** Favourites are kept in the standard section without a source tag. */
    predicate Valid()
      reads this
    {
      AllPlainStandard(favourites)
    }

    /** The persisted part, as `persist` and `exportJSON` write it. */
    function Persisted(): Storage
      reads this
    {
      Storage(recipes, savedLists, favourites)
    }

    /** The store created from what `loadStorage` returned. */
    constructor (stored: Storage)
      ensures Valid()
      ensures recipes == stored.recipes && savedLists == stored.savedLists
      ensures favourites == AsFavourites(stored.favourites)
      ensures selectedRecipeIds == [] && extras == [] && checkedNames == [] && currentListId == None
    {
      recipes := stored.recipes;
      savedLists := stored.savedLists;
      favourites := AsFavourites(stored.favourites);
      selectedRecipeIds := [];
      extras := [];
      checkedNames := [];
      currentListId := None;
    }

    /** `addRecipe(data)`: appends a recipe with the given fresh id, created and updated
        `now`, and returns the id. */
    method AddRecipe(data: RecipeData, freshId: string, now: string) returns (id: string)
      modifies this`recipes
      ensures id == freshId
      ensures recipes == old(recipes) + [Recipe(freshId, data.title, data.standard, data.special, now, now)]
    {
      id := freshId;
      recipes := recipes + [Recipe(id, data.title, data.standard, data.special, now, now)];
    }

    /** `updateRecipe(r)`: every recipe with the id of `r` becomes `r`, updated `now`. */
    method UpdateRecipe(r: Recipe, now: string)
      modifies this`recipes
      ensures recipes == Updated(old(recipes), r, now)
    {
      recipes := Updated(recipes, r, now);
    }

    /** `deleteRecipe(id)`: removes the recipe and drops its id from the selection; the
        checked names are left alone. */
    method DeleteRecipe(id: string)
      modifies this`recipes, this`selectedRecipeIds
      ensures recipes == WithoutRecipe(old(recipes), id)
      ensures selectedRecipeIds == WithoutId(old(selectedRecipeIds), id)
    {
      recipes := WithoutRecipe(recipes, id);
      selectedRecipeIds := WithoutId(selectedRecipeIds, id);
    }

    /** `setSelectedRecipeIds(ids)`: stores the ids without repetitions, each at its first
        occurrence. */
    method SetSelectedRecipeIds(ids: seq<string>)
      modifies this`selectedRecipeIds
      ensures selectedRecipeIds == Dedup(ids)
    {
      selectedRecipeIds := Unique(ids);
    }

    /** `addExtra(item)`: the add rule on the extras, with source `item.source ?? 'manual'`. */
    method AddExtra(name: string, source: Option<Source>)
      modifies this`extras
      ensures extras == AddedItem(old(extras), name, Some(source.GetOr(Manual)))
    {
      var norm := NormalizeName(name);
      if norm == "" {
        return;
      }
      if HasItem(extras, norm, Standard) {
        return;
      }
      extras := extras + [ExtraItem(Trim(name), Standard, Some(source.GetOr(Manual)))];
    }

    /** `removeExtra(normName, section)` */
    method RemoveExtra(norm: string, section: Section)
      modifies this`extras
      ensures extras == RemoveMatching(old(extras), norm, section)
    {
      extras := RemoveMatching(extras, norm, section);
    }

    /** `toggleChecked(normName)`: removes every occurrence if present, else appends. */
    method ToggleChecked(norm: string)
      modifies this`checkedNames
      ensures checkedNames == Toggle(old(checkedNames), norm)
    {
      checkedNames := Toggle(checkedNames, norm);
    }

    method ClearChecks()
      modifies this`checkedNames
      ensures checkedNames == []
    {
      checkedNames := [];
    }

    /** `clearCurrentList()`: empties the builder and forgets the list being edited. */
    method ClearCurrentList()
      modifies this`selectedRecipeIds, this`extras, this`checkedNames, this`currentListId
      ensures selectedRecipeIds == [] && extras == [] && checkedNames == [] && currentListId == None
    {
      selectedRecipeIds, extras, checkedNames, currentListId := [], [], [], None;
    }

    /** `addFavourite(item)`: the add rule on the favourites, without a source tag. */
    method AddFavourite(name: string)
      requires Valid()
      modifies this`favourites
      ensures Valid()
      ensures favourites == AddedItem(old(favourites), name, None)
    {
      var norm := NormalizeName(name);
      if norm == "" {
        return;
      }
      if HasItem(favourites, norm, Standard) {
        return;
      }
      favourites := favourites + [ExtraItem(Trim(name), Standard, None)];
    }

    /** `removeFavourite(normName, section)` */
    method RemoveFavourite(norm: string, section: Section)
      requires Valid()
      modifies this`favourites
      ensures Valid()
      ensures favourites == RemoveMatching(old(favourites), norm, section)
    {
      favourites := RemoveMatching(favourites, norm, section);
    }

    /** `saveCurrentAs(name)`: upserts the snapshot of the builder and makes it the list
        being edited; returns its id. */
    method SaveCurrentAs(name: string, freshId: string, now: string) returns (id: string)
      modifies this`savedLists, this`currentListId
      ensures id == old(currentListId).GetOr(freshId)
      ensures savedLists == Upsert(old(savedLists), Snapshot(old(currentListId), old(savedLists),
        selectedRecipeIds, extras, checkedNames, name, freshId, now))
      ensures currentListId == Some(id)
    {
      var s := Snapshot(currentListId, savedLists, selectedRecipeIds, extras, checkedNames, name, freshId, now);
      var lists := Upsert(savedLists, s);
      id := s.id;
      savedLists, currentListId := lists, Some(id);
    }

    /** `loadSavedList(id)`: an unknown id changes nothing; otherwise the builder takes
        the list's recipe ids, extras and normalized checked names, and the list becomes
        the one being edited. */
    method LoadSavedList(id: string)
      modifies this`selectedRecipeIds, this`extras, this`checkedNames, this`currentListId
      ensures Find(savedLists, id).None? ==>
        selectedRecipeIds == old(selectedRecipeIds) && extras == old(extras)
        && checkedNames == old(checkedNames) && currentListId == old(currentListId)
      ensures Find(savedLists, id).Some? ==>
        var l := Find(savedLists, id).value;
        selectedRecipeIds == l.recipeIds && extras == l.extras
        && checkedNames == NormalizedAll(l.checkedNames) && currentListId == Some(id)
    {
      var found := Find(savedLists, id);
      if found.None? {
        return;
      }
      var l := found.value;
      currentListId := Some(id);
      selectedRecipeIds := l.recipeIds;
      extras := l.extras;
      checkedNames := NormalizedAll(l.checkedNames);
    }

    /** `deleteSavedList(id)`: removes the list, and stops editing it if it was the one
        being edited. */
    method DeleteSavedList(id: string)
      modifies this`savedLists, this`currentListId
      ensures savedLists == WithoutList(old(savedLists), id)
      ensures currentListId == if old(currentListId) == Some(id) then None else old(currentListId)
    {
      savedLists := WithoutList(savedLists, id);
      if currentListId == Some(id) {
        currentListId := None;
      }
    }

    /** `exportJSON()`, before serialization. */
    method ExportJSON() returns (backup: Backup)
      ensures backup == Exported(Persisted())
    {
      backup := Object(Some(1), Some(recipes), Some(savedLists), Some(favourites));
    }

    /** `importJSON(json)` on the parsed value: a refused backup throws and changes
        nothing; an accepted one replaces the persisted part and empties the builder. */
    method ImportJSON(backup: Backup) returns (outcome: Outcome<string>)
      requires Valid()
      modifies this
      ensures Valid()
      ensures outcome.Fail? <==> Imported(backup).None?
      ensures outcome.Fail? ==> outcome.error == ImportError
      ensures outcome.Fail? ==>
        recipes == old(recipes) && savedLists == old(savedLists) && favourites == old(favourites)
        && selectedRecipeIds == old(selectedRecipeIds) && extras == old(extras)
        && checkedNames == old(checkedNames) && currentListId == old(currentListId)
      ensures outcome.Pass? ==>
        Persisted() == Imported(backup).value
        && selectedRecipeIds == [] && extras == [] && checkedNames == [] && currentListId == None
    {
      if !backup.Object? || backup.schemaVersion != Some(1) {
        return Fail(ImportError);
      }
      recipes := backup.recipes.GetOr([]);
      savedLists := backup.savedLists.GetOr([]);
      favourites := AsFavourites(backup.favourites.GetOr([]));
      selectedRecipeIds, extras, checkedNames, currentListId := [], [], [], None;
      outcome := Pass;
    }
  }
}
