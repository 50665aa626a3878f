# Groceryhelper, modelled in Dafny

Groceryhelper is a recipe-to-grocery-list web app. This project models the logic behind
it and proves properties of that model:

- **Ingredient names.** Names are compared by a key: the name trimmed and lower-cased.
  The name shown for a key is the most common spelling. Ties go to the longest spelling,
  then the alphabetically first. A key with no spelling shows in title case
  (`normalization.dfy`).
- **The grocery list.** The list is aggregated from the selected recipes and the extra
  items. Lines are counted per key and per section (standard or special), and each list
  is sorted by display name (`aggregate.dfy`).
- **The store.** The app keeps the recipe catalog, the saved lists and the favourites,
  which are persisted. It also keeps the grocery builder: the selected recipes, extra
  items, checked names and the list being edited. Every store action is modelled
  (`store.dfy`), including the JSON backup export and import.
- **The grocery list view.** It prunes checked names that no longer appear on the list,
  and shows "Remove extra" only for items that are extras (`grocery_list_view.dfy`).
- **The recipe editor.** It adds ingredients without duplicate keys, removes and
  reorders them, and reports duplicate keys (`recipe_editor.dfy`).
- **The recipe list.** Its title search, the "This week" selection checkbox and the
  duplicate-title warning on save are modelled (`recipe_list.dfy`).
- **Cloud sync.** On sign-in the client decides once whether to upload its local data or
  adopt the remote document. It then ignores the echo of its own writes, and uploads
  local changes after a debounce (`sync.dfy`).
- **Version bump.** The pre-commit script bumps the patch number of a version string
  (`auto_bump.dfy`).

Two modules hold shared helpers:

- `text.dfy` models the string operations the app uses: ECMAScript whitespace, trimming,
  lower-casing, string order by code point (the order of Dafny's `char` values),
  `split`/`join` and `includes`.
- `seqs.dfy` models the array idioms the app uses: `filter`, removing repeats while
  keeping the first occurrence, and toggling membership.

How the JavaScript behaviour is represented:

- A JavaScript `Map` is represented by its keys in insertion order plus a Dafny `map`.
  The functions behind each component are pure. The store and the sync module's
  variables are classes whose methods replace fields, as the source's `set` calls do.
- The clock, the id generator, the remote document and the debounce timer are inputs:
  the current time and the fresh id are parameters, and so is the document read from
  the server. What the client writes to the server is a result.

## Model

| member | source | states |
|---|---|---|
| Normalization.NormalizeName | src/utils/normalization.ts:1-3 | the key has no surrounding whitespace, no upper-case letter and is no longer than the name |
| Normalization.NormalizeNameIdempotent | src/utils/normalization.ts:1-3 | a key is its own key |
| Normalization.NormalizeIgnoresCase | src/utils/normalization.ts:1-3 | names equal up to case have the same key |
| Normalization.NormalizeIgnoresPadding | src/utils/normalization.ts:1-3 | surrounding whitespace does not change the key |
| Normalization.NormalizeTrim | src/utils/normalization.ts:1-3 | trimming a name first does not change its key |
| Normalization.NormalizeFlourExample | src/utils/normalization.ts:1-3 | the key of "  Flour " is "flour" |
| Normalization.NormalizedAll | src/utils/normalization.ts:1-3 | mapping the key over a list keys every element, position by position |
| Normalization.IsBlank | src/utils/normalization.ts:5-7 | a name is blank exactly when it is all whitespace |
| Normalization.TitleCaseAt | src/utils/normalization.ts:9-14 | on a single-spaced key, title case keeps the length and upper-cases exactly the first letter of every word |
| Normalization.SplitWordsCollapse | src/utils/normalization.ts:11 | splitting on whitespace runs gives the same words for a name and for its form with every run collapsed to one space |
| Normalization.TitleCaseAtCollapsed | src/utils/normalization.ts:9-14 | for every name, the title case is single-spaced and equals the title case of the collapsed name: as long as it, with exactly the first letter of each word upper-cased |
| Normalization.TitleCaseLowersBack | src/utils/normalization.ts:9-14 | the title case of a single-spaced key normalizes back to that key |
| Normalization.TitleCaseLowersToCollapsed | src/utils/normalization.ts:1-14 | for the key of any name, normalizing its title case gives the key with inner whitespace runs collapsed to single spaces |
| Normalization.TitleCaseExamples | src/utils/normalization.ts:9-14 | "flour" becomes "Flour" and "brown sugar" becomes "Brown Sugar" |
| Normalization.CountsOf | src/utils/normalization.ts:18-19 | the counts map holds exactly the spellings, each with its number of occurrences |
| Normalization.TallyVariants | src/utils/normalization.ts:18-19 | the counting loop builds the counts of every spelling and the spellings in first-occurrence order |
| Normalization.BeforeTransitive | src/utils/normalization.ts:21-25 | the comparator of the sort is transitive |
| Normalization.BeforeTotal | src/utils/normalization.ts:21-25 | the comparator orders any two distinct spellings |
| Normalization.BeforeIrreflexive | src/utils/normalization.ts:21-25 | no spelling sorts before itself |
| Normalization.Best | src/utils/normalization.ts:21-26 | the first element after the sort is a candidate no other candidate sorts before |
| Normalization.TopIsUnique | src/utils/normalization.ts:21-26 | that first element is unique, so the sort's result does not depend on input order |
| Normalization.DisplayName | src/utils/normalization.ts:16-27 | with no spellings, the title case of the key; otherwise a spelling with the highest count, then the longest among those, then the alphabetically first |
| Normalization.DisplayNameOrderFree | src/utils/normalization.ts:16-27 | the chosen name depends only on the multiset of spellings |
| Normalization.DisplayNameFlourExample | src/utils/normalization.ts:16-27 | among flour, Flour, FLOUR, Flour the name is "Flour" |
| Normalization.ChooseDisplayName | src/utils/normalization.ts:16-27 | the loop-and-sort procedure returns the name specified by DisplayName |
| Aggregate.Matching | src/utils/aggregate.ts:22-51 | the lines filed under a key all have that key and come from the input |
| Aggregate.MatchingCounts | src/utils/aggregate.ts:22-51 | the lines filed under a key are every line with that key, each as often as it occurs, and no other |
| Aggregate.KeysOfMembers | src/utils/aggregate.ts:25-51 | a key is filed exactly when it is not blank and some line has it |
| Aggregate.Tally | src/utils/aggregate.ts:22-51 | filing lines yields each non-blank key once, in first-occurrence order, with count and spellings exactly the lines of that key |
| Aggregate.TallyEntries | src/utils/aggregate.ts:28-31 | every filed key has count at least one, and all its spellings have that key |
| Aggregate.ById | src/utils/aggregate.ts:20 | the id map holds exactly the ids of the recipes, each with the last recipe carrying that id |
| Aggregate.SortByName | src/utils/aggregate.ts:62 | the sort is a permutation and is sorted by name |
| Aggregate.ItemNormsDistinct | src/utils/aggregate.ts:53-61 | the items built from a map carry its keys in order, with no repeats |
| Aggregate.AggregateMeaning | src/utils/aggregate.ts:10-68 | each list of the aggregate has one item per non-blank key of its section's lines, distinct keys, and strictly increasing names |
| Aggregate.ListMeaning | src/utils/aggregate.ts:53-62 | a section list has exactly one item per non-blank key of its lines; the item counts the lines with that key and is named after their most common spelling; the name normalizes back to the key; names strictly increase |
| Aggregate.StrictlySorted | src/utils/aggregate.ts:62 | a name-sorted list with distinct keys that its names normalize to is strictly increasing |
| Aggregate.FileLines | src/utils/aggregate.ts:25-40 | the inner ingredient loop files the lines into the section map, one after the other |
| Aggregate.FileExtras | src/utils/aggregate.ts:43-51 | the extras loop files each extra into the map of its own section |
| Aggregate.Aggregate | src/utils/aggregate.ts:10-68 | the nested loops compute the aggregate specified by filing the selected recipes' lines, then the extras, and listing each section |
| Aggregate.UnknownIdIgnored | src/utils/aggregate.ts:23-24 | selecting an id with no recipe changes neither list |
| Aggregate.SelectAgainCounts | src/utils/aggregate.ts:22-41 | selecting a recipe once more counts each of its lines once more |
| Aggregate.BlankLineSkipped | src/utils/aggregate.ts:25-51 | a blank line changes nothing |
| Aggregate.ExtraStaysInSection | src/utils/aggregate.ts:43-51 | an extra item changes only the list of its own section |
| Aggregate.MatchingAppend | src/utils/aggregate.ts:22-51 | the count of a key over recipe lines followed by extras is the sum of both counts |
| Store.AddedItem | src/state/store.ts:87-95 | an item is appended, trimmed and in the standard section, exactly when its key is not blank and not already in the standard section; otherwise the list is unchanged |
| Store.AddedItemPresent | src/state/store.ts:87-95 | after adding a non-blank name, its key is present |
| Store.AddedItemIdempotent | src/state/store.ts:87-95 | adding the same name twice is the same as adding it once |
| Store.AddedItemKeepsKeysDistinct | src/state/store.ts:87-95 | adding keeps keys distinct per section |
| Store.RemoveMatching | src/state/store.ts:96-100 | removal keeps exactly the items not under the key in that section, in order and each as often as before; nothing matching remains |
| Store.RemoveUndoesAdd | src/state/store.ts:87-100 | removing a key just added restores the list |
| Store.AsFavourites | src/state/store.ts:52 | loaded favourites keep their names and move to the standard section without a source |
| Store.RemoveSpecialFavourite | src/state/store.ts:123-128 | removing a favourite from the special section never removes anything |
| Store.Updated | src/state/store.ts:65-71 | the recipe with the edited id is replaced by the edit stamped with the time; every other recipe is unchanged |
| Store.UpdateUnknownRecipe | src/state/store.ts:65-71 | an edit for an unknown id changes nothing |
| Store.WithoutRecipe | src/state/store.ts:73 | deletion keeps exactly the recipes with another id, in order and each as often as before |
| Store.WithoutId | src/state/store.ts:75 | every occurrence of the deleted id leaves the selection; every other id keeps its number of occurrences |
| Store.Unique | src/state/store.ts:80-86 | the de-duplication loop keeps the first occurrence of every id, in order |
| Seqs.Dedup | src/state/store.ts:80-86 | de-duplication has no repeats and the same elements |
| Seqs.DedupKeepsFirstOrder | src/state/store.ts:80-86 | de-duplication keeps elements in order of first occurrence |
| Seqs.DedupIdempotent | src/state/store.ts:80-86 | setting the selection twice is the same as once |
| Seqs.Filter | src/state/store.ts:96-100 | filtering keeps exactly the passing elements, in order; a list without repeats stays without repeats |
| Seqs.FilterCounts | src/state/store.ts:96-100 | filtering keeps each passing element as often as it occurs and drops every other |
| Seqs.Toggle | src/state/store.ts:101-107 | the toggled name is present exactly when it was absent; a present name loses every occurrence while every other name keeps its count; an absent one is appended; no repeats appear |
| Seqs.ToggleTwiceFromAbsent | src/state/store.ts:101-107 | checking and unchecking a name restores the checked list |
| Store.Find | src/state/store.ts:154 | the first saved list with the id, or none exactly when no list has it |
| Store.Replaced | src/state/store.ts:146 | every list with the id becomes the snapshot and every other list stays, position by position |
| Store.Upsert | src/state/store.ts:144-147 | a known id is replaced in place, as Replaced says, keeping the order of ids; a new one is appended |
| Store.UpsertThenFind | src/state/store.ts:144-147 | after saving, looking up the saved id finds the saved list and every other lookup is unchanged |
| Store.Snapshot | src/state/store.ts:133-141 | the saved list carries the current id or the fresh one, the name, the selection, the extras and the time; its creation time is kept from a stored list with that id only when the current id is truthy, and is the time otherwise |
| Store.CheckedKeys | src/state/store.ts:139 | the saved checked names are keys, without repeats, exactly the keys of the checked names |
| Store.SaveThenLoad | src/state/store.ts:130-162 | a saved list is found again with the current selection, extras and checked keys |
| Store.ResaveKeepsCreation | src/state/store.ts:133-140 | re-saving the current list keeps its id, its creation time and the number of saved lists |
| Store.ResaveEmptyIdRestamps | src/state/store.ts:133-140 | a current id that is the empty string is kept as id but stamps a new creation time |
| Store.WithoutList | src/state/store.ts:164 | deletion keeps exactly the saved lists with another id, each as often as before |
| Store.Imported | src/state/store.ts:178-193 | a backup is accepted exactly when it is an object with schema version 1; recipes and saved lists are taken as given, missing ones as empty; favourites are the given ones made plain standard items |
| Store.ImportOfExport | src/state/store.ts:169-193 | importing an export restores the persisted data |
| Store.OtherVersionRefused | src/state/store.ts:180-181 | any other schema version is refused |
| Store.GroceryStore.constructor | src/state/store.ts:47-55 | the store starts from the stored data, favourites made plain, with an empty builder |
| Store.GroceryStore.AddRecipe | src/state/store.ts:57-64 | appends the recipe with the fresh id, both timestamps set to now, and returns the id |
| Store.GroceryStore.UpdateRecipe | src/state/store.ts:65-71 | the catalog becomes the updated catalog |
| Store.GroceryStore.DeleteRecipe | src/state/store.ts:72-78 | the recipe leaves the catalog and the selection |
| Store.GroceryStore.SetSelectedRecipeIds | src/state/store.ts:80-86 | the selection becomes the ids without repeats |
| Store.GroceryStore.AddExtra | src/state/store.ts:87-95 | the extra is added as a standard item whose source defaults to manual |
| Store.GroceryStore.RemoveExtra | src/state/store.ts:96-100 | the extras lose the items under the key in the section |
| Store.GroceryStore.ToggleChecked | src/state/store.ts:101-107 | the checked names become the toggled list |
| Store.GroceryStore.ClearChecks | src/state/store.ts:108 | no name is checked |
| Store.GroceryStore.ClearCurrentList | src/state/store.ts:110-112 | the builder is emptied and no list is current |
| Store.GroceryStore.AddFavourite | src/state/store.ts:114-122 | the favourite is added like an extra without a source; favourites stay plain |
| Store.GroceryStore.RemoveFavourite | src/state/store.ts:123-128 | the favourites lose the items under the key in the section |
| Store.GroceryStore.SaveCurrentAs | src/state/store.ts:130-152 | the builder is saved under the current id (or the fresh one), upserted, made current, and the id returned |
| Store.GroceryStore.LoadSavedList | src/state/store.ts:153-162 | an unknown id changes nothing; a known one installs the list's selection and extras, its checked names as keys, and makes it current |
| Store.GroceryStore.DeleteSavedList | src/state/store.ts:163-167 | the list is deleted, and if it was current no list is current |
| Store.GroceryStore.ExportJSON | src/state/store.ts:169-177 | the backup holds schema version 1 and the persisted collections |
| Store.GroceryStore.ImportJSON | src/state/store.ts:178-193 | a refused backup fails with the error message and changes nothing; an accepted one installs its data and empties the builder |
| GroceryListView.Available | src/components/GroceryListView.tsx:28 | the available keys are exactly the keys of both sections' items |
| GroceryListView.Pruned | src/components/GroceryListView.tsx:29-30 | pruning keeps exactly the available checked names, in order and each as often as before, and shortens the list exactly when some checked name is unavailable |
| GroceryListView.PruneChecks | src/components/GroceryListView.tsx:27-34 | the checked names are written exactly when one is unavailable, and become the pruned list |
| GroceryListView.PruneAfterAggregate | src/components/GroceryListView.tsx:17-34 | a name survives pruning exactly when it was checked and some selected recipe line or extra has it as key |
| GroceryListView.CheckboxFlips | src/components/GroceryListView.tsx:86-90 | clicking an item's checkbox flips whether it is shown checked and leaves items with other keys alone |
| GroceryListView.PruneKeepsShownChecks | src/components/GroceryListView.tsx:27-34 | pruning never changes whether a shown item is checked |
| GroceryListView.CanRemoveIff | src/components/GroceryListView.tsx:36-37 | "Remove extra" is offered exactly when some extra of the section has the key |
| GroceryListView.RemoveExtraDropsItem | src/components/GroceryListView.tsx:36-57 | removing the extra takes the item off the list when no selected recipe line has its key |
| RecipeEditor.AddedTo | src/components/RecipeEditor.tsx:30-47 | the trimmed input is appended exactly when its key is not blank and in neither list; otherwise the list is unchanged |
| RecipeEditor.AddStandardKeepsKeysDistinct | src/components/RecipeEditor.tsx:30-38 | adding a standard ingredient keeps all keys of the recipe distinct |
| RecipeEditor.AddSpecialKeepsKeysDistinct | src/components/RecipeEditor.tsx:39-47 | adding a special ingredient keeps all keys of the recipe distinct |
| RecipeEditor.RemovedAt | src/components/RecipeEditor.tsx:49-52 | the element at the index is removed; an index outside the list changes nothing |
| RecipeEditor.RemoveKeepsKeysDistinct | src/components/RecipeEditor.tsx:49-52 | removal keeps keys distinct |
| RecipeEditor.MovedUp | src/components/RecipeEditor.tsx:53-59 | the first element stays; any other swaps with its predecessor; the elements are the same |
| RecipeEditor.MovedDown | src/components/RecipeEditor.tsx:60-66 | the last element stays; any other swaps with its successor; the elements are the same |
| RecipeEditor.MoveUpThenDown | src/components/RecipeEditor.tsx:53-66 | moving up then down restores the list |
| RecipeEditor.MoveDownThenUp | src/components/RecipeEditor.tsx:53-66 | moving down then up restores the list |
| RecipeEditor.SwapStandardKeepsKeysDistinct | src/components/RecipeEditor.tsx:53-66 | reordering keeps keys distinct |
| RecipeEditor.DupWithin | src/components/RecipeEditor.tsx:73-81 | the loop reports every repeated key of both lists, once per repetition: with the distinct keys it accounts for every key as often as it occurs |
| Seqs.Dups | src/components/RecipeEditor.tsx:73-81 | there are as many repetitions as elements beyond the distinct ones, all taken from the list |
| Seqs.DupsCounts | src/components/RecipeEditor.tsx:73-81 | repetitions plus distinct elements hold every element exactly as often as the list |
| RecipeEditor.DupWithinEmptyIff | src/components/RecipeEditor.tsx:73-81 | no duplicate is reported exactly when all keys of the recipe are distinct |
| RecipeEditor.Editor.constructor | src/components/RecipeEditor.tsx:13-15 | the editor state starts from the recipe |
| RecipeEditor.Editor.SetTitle | src/components/RecipeEditor.tsx:13 | the title becomes the typed one |
| RecipeEditor.Editor.AddStandard | src/components/RecipeEditor.tsx:30-38 | the standard list becomes the added-to list; distinct keys are kept |
| RecipeEditor.Editor.AddSpecial | src/components/RecipeEditor.tsx:39-47 | the special list becomes the added-to list; distinct keys are kept |
| RecipeEditor.Editor.RemoveAt | src/components/RecipeEditor.tsx:49-52 | only the named section loses the element; distinct keys are kept |
| RecipeEditor.Editor.MoveUp | src/components/RecipeEditor.tsx:53-59 | only the named section is reordered; distinct keys are kept |
| RecipeEditor.Editor.MoveDown | src/components/RecipeEditor.tsx:60-66 | only the named section is reordered; distinct keys are kept |
| RecipeList.Filtered | src/components/RecipeList.tsx:13-17 | a blank query shows all recipes; otherwise exactly the recipes whose lower-cased title contains the query's key, in order and each as often as in the list |
| RecipeList.FilteredIgnoresCase | src/components/RecipeList.tsx:14 | the case of the query does not matter |
| RecipeList.FilteredIgnoresPadding | src/components/RecipeList.tsx:14 | whitespace around the query does not matter |
| RecipeList.FilteredNarrows | src/components/RecipeList.tsx:13-17 | extending the query only removes results, keeping their order |
| RecipeList.ToggleSelection | src/components/RecipeList.tsx:59-65 | for any selection, repeats included, the checkbox selects the recipe exactly when it was unselected and leaves every other selection alone; a selection without repeats ends up exactly as toggled |
| RecipeList.DuplicateTitle | src/components/RecipeList.tsx:90-93 | the warning is shown exactly when the title key is not blank and another recipe has the same key |
| RecipeList.DuplicateTitleSymmetric | src/components/RecipeList.tsx:90-93 | two recipes sharing a non-blank title key each warn about the other |
| RecipeList.NoDuplicateWarning | src/components/RecipeList.tsx:90-93 | an untitled recipe, or one whose key nobody shares, never warns |
| RecipeList.DuplicateTitleExample | src/components/RecipeList.tsx:90-93 | " Soup " warns when "soup" exists |
| Sync.IsEmptyLocal | src/sync.ts:126-128 | local data is empty exactly when it has no recipe, saved list or favourite |
| Sync.NormalizeRemote | src/sync.ts:134-141 | array fields are adopted as they are; any other field becomes empty |
| Sync.NormalizePushed | src/sync.ts:126-141 | what a client uploads is adopted unchanged, and both emptiness tests agree on it |
| Sync.IsEmptyRemote | src/sync.ts:126-141 | an empty remote document normalizes to empty data, and conversely when no field is a non-array |
| Sync.MalformedFieldDropped | src/sync.ts:131-137 | a non-array field with non-zero length makes the document non-empty but is dropped on adoption |
| Sync.HydrateDecision | src/sync.ts:33-60 | with no document the client uploads; adopting always adopts the normalized document |
| Sync.HydrateKeepsTheData | src/sync.ts:46-50 | an empty side never overwrites a non-empty one |
| Sync.HydrateNewerWins | src/sync.ts:52-58 | when both sides are equally empty, the client uploads exactly when both stamps are set and the local one is later; equal stamps adopt the remote |
| Sync.HydrateConverges | src/sync.ts:33-60 | after the decision the local data equals the normalized remote document |
| Sync.HydrateNeverEmpties | src/sync.ts:46-58 | non-empty local data is never replaced by empty data when the document's fields are well-formed |
| Sync.IsEcho | src/sync.ts:69 | a snapshot is an echo exactly when its stamp is set, not empty and equal to the remembered one |
| Sync.OwnPushIsEcho | src/sync.ts:69-90 | a snapshot of a write stamped with the remembered stamp is recognised as an echo |
| Sync.HydrateEchoMissed | src/sync.ts:37-72 | a write whose document stamp differs from the remembered stamp is not recognised as an echo |
| Sync.EchoNeedsOwnStamp | src/sync.ts:69 | without a remembered stamp, or with a different one, a snapshot is never an echo |
| Sync.SyncSession.constructor | src/sync.ts:6-10 | not signed in, nothing written, nothing pending |
| Sync.SyncSession.AuthChanged | src/sync.ts:21 | the session follows the signed-in user |
| Sync.SyncSession.HydrateAsWritten | src/sync.ts:33-60 | uploads with one clock reading and remembers another, or adopts the document, as HydrateDecision says |
| Sync.SyncSession.Hydrate | src/sync.ts:33-60 | as HydrateAsWritten, with one stamp for the upload and the memory, so the upload's echo is recognised |
| Sync.SyncSession.OnSnapshot | src/sync.ts:65-74 | a snapshot is adopted, normalized, exactly when it exists and is not an echo |
| Sync.SyncSession.QueueRemoteSave | src/sync.ts:79-82 | when signed in the data becomes pending, replacing earlier pending data; otherwise nothing changes |
| Sync.SyncSession.StartPush | src/sync.ts:83-89 | the timer takes the pending data, clears it and writes it with the stamp, leaving the remembered stamp alone |
| Sync.SyncSession.PushCompleted | src/sync.ts:90 | once the write completes its stamp is remembered |
| Sync.SyncSession.FlushPending | src/sync.ts:83-91 | with no snapshot during the write, the timer writes the pending data with the stamp, clears it and remembers the stamp, so a later echo is recognised |
| Sync.SyncSession.FlushWithEarlySnapshot | src/sync.ts:65-91 | a snapshot of the timer's write delivered before the write completes, while another stamp is remembered, is adopted as the client's data |
| Sync.SyncSession.FlushRecordingFirst | src/sync.ts:65-91 | remembering the stamp before writing makes the snapshot of the write an echo whenever it is delivered |
| AutoBump.ParseIntOfDigits | scripts/auto-bump.mjs:8 | a string of digits parses to its decimal value |
| AutoBump.ParseIntOfBlank | scripts/auto-bump.mjs:8 | a blank string parses to NaN |
| AutoBump.ParseShow | scripts/auto-bump.mjs:8-11 | parsing a rendered part gives the part back, NaN included |
| AutoBump.ParseWithoutMinus | scripts/auto-bump.mjs:8 | text with no minus sign parses to NaN or a non-negative number |
| AutoBump.DigitPrefix | scripts/auto-bump.mjs:8 | the parsed digits are the longest run of digits at the start |
| AutoBump.ShowDigits | scripts/auto-bump.mjs:11 | a number renders as digits with no leading zero that denote it |
| AutoBump.Padded | scripts/auto-bump.mjs:9 | padding gives at least three parts, keeps the parsed ones and adds zeros |
| AutoBump.BumpParts | scripts/auto-bump.mjs:9-10 | the third part is incremented, NaN counting as zero; every other part is kept or zero-padded |
| AutoBump.BumpPatch | scripts/auto-bump.mjs:6-13 | the padding loop computes the bumped version |
| AutoBump.SuffixKept | scripts/auto-bump.mjs:7-11 | everything from the first hyphen on is kept verbatim |
| AutoBump.RenderRoundTrip | scripts/auto-bump.mjs:8-11 | splitting and parsing a rendered version gives its parts back |
| AutoBump.ReparseBumped | scripts/auto-bump.mjs:6-13 | parsing the bumped core gives the bumped parts |
| AutoBump.BumpedCoreHasNoMinus | scripts/auto-bump.mjs:6-13 | bumping a core without a minus sign yields a core without a hyphen, so the suffix stays separate |
| AutoBump.BumpTwice | scripts/auto-bump.mjs:6-13 | bumping twice bumps the parts twice and keeps the suffix |
| AutoBump.BumpRendered | scripts/auto-bump.mjs:6-13 | bumping a rendered core gives the rendering of its bumped parts |
| AutoBump.BumpThreeParts | scripts/auto-bump.mjs:9-11 | a rendered "a.b.c" becomes "a.b.(c+1)" |
| AutoBump.BumpTwoParts | scripts/auto-bump.mjs:9-11 | a rendered "a.b" becomes "a.b.1" |
| AutoBump.BumpWithSuffix | scripts/auto-bump.mjs:6-13 | "1.2.3-beta.1" becomes "1.2.4-beta.1" |
| AutoBump.BumpPadded | scripts/auto-bump.mjs:6-13 | "1.2" becomes "1.2.1" |
| Text.Trim | src/utils/normalization.ts:2 | the trimmed name has no surrounding whitespace |
| Text.TrimIgnoresPadding | src/utils/normalization.ts:2 | added whitespace is trimmed away |
| Text.LexLessTransitive | src/utils/normalization.ts:24 | the string order used for ties and sorting is transitive |
| Text.LexLessTotal | src/utils/normalization.ts:24 | it orders any two distinct strings |
| Text.SplitOn | scripts/auto-bump.mjs:7-8 | the pieces contain no separator, and the first is the text up to the first separator |
| Text.JoinSplit | scripts/auto-bump.mjs:7-11 | joining the pieces of a split gives the text back |
| Text.SplitJoin | scripts/auto-bump.mjs:8-11 | splitting a join of separator-free pieces gives the pieces back |
| Text.ContainsTransitive | src/components/RecipeList.tsx:16 | containment of substrings is transitive |

## Left out

- Persistence is not modelled. This covers `persist`, local storage, `bumpLocalUpdatedAt`
  and the `loadStorage` migration. The store is built from an already-loaded `Storage`
  value, and persisted data is exposed as `Persisted()`.
- The clock and the id generator (`uid`) are not called. Their values are parameters of
  the actions that use them.
- JSON text is not modelled. Export returns the backup value, and import takes an
  already-parsed one: a non-object, or an object with optional fields. A `JSON.parse`
  syntax error is not modelled. The backup value types its fields, so two behaviours of
  the source cannot be expressed: a `recipes` or `savedLists` field that is present but
  not an array is installed as it is, and a `favourites` field that is not an array makes
  `.map` throw.
- Store.Imported: a `schemaVersion` that is not a number is represented as absent, which
  is refused like any version other than 1.
- Normalization.NormalizeName: lower-casing maps only ASCII letters, while the source's
  `toLowerCase` also folds other scripts (the model keeps the "É" of "Éclair").
- Normalization.TitleCaseFromNormalized: upper-casing maps only ASCII letters, while the
  source's `toUpperCase` also maps other scripts (the app shows "éclair" as "Éclair", the
  model leaves it unchanged).
- RecipeList.Filtered: titles and the query are lower-cased on ASCII letters only, as
  NormalizeName above, so a query matches accented titles only in the same case.
- Normalization.ChooseDisplayName: the final tie-break by `localeCompare` is replaced by
  an assumption, code-point order. The two differ even on ASCII: `localeCompare` puts
  "flour" before "Flour" and "apple" before "Banana", code-point order the other way
  round. The tie-break by length counts code points, while `.length` counts UTF-16 code
  units, so the two differ for characters outside the Basic Multilingual Plane (emoji).
- Aggregate.SortByName: the sort by `localeCompare` is replaced by the same assumption,
  code-point order, so on mixed-case names the list order can differ from the app's.
- RecipeEditor.Editor.MoveUp: requires the index to be inside the list. The UI only
  passes indices of shown rows. Indices past the end, for which `splice` removes nothing
  and inserts an `undefined`, are not modelled.
- RecipeEditor.Editor.MoveDown: requires the index to be inside the list, for the same
  reason. Negative indices are not modelled: `splice` counts them from the end, so index
  -1 moves the last element to the front.
- RecipeEditor.MovedUp: requires the index to be inside the list, for the same reason.
- RecipeEditor.MovedDown: requires the index to be inside the list, for the same reason
  as Editor.MoveDown, negative indices included.
- The editor's effects are not modelled. The resync from a changed `value` prop and the
  `onChange` callback are React effects, and the model keeps only the editor's state.
- The network is not modelled. Firebase, the authentication service, the `fb.enabled`
  check and the sign-in helpers are absent, and the document read is a parameter.
- The try/catch around the hydrate step is not modelled. A failed read or write is not
  represented.
- Sync.SyncSession.FlushPending: the 400 ms debounce timer is a separate step that the
  caller invokes. The awaited write is split into StartPush and PushCompleted; other
  events can fall between them, and FlushWithEarlySnapshot shows one. Cancelling an earlier timer is implicit, because pending data is
  simply replaced. The user is not re-checked when the timer fires.
- AutoBump.ParseInt: parts are unbounded integers. The source's doubles lose digits
  beyond 2^53, print large values in exponent form, and can produce `Infinity` for very
  long digit runs; none of this is modelled.
- The rest of the bump script is not modelled: reading `package.json`, the git calls and
  writing the file back.
- The remaining presentation components, pages, haptics and toasts are not modelled.
  They hold no logic beyond calling the operations above.

## Findings

| source | as written | input that shows it | evidently intended | confidence | as-written member | corrected member |
|---|---|---|---|---|---|---|
| src/sync.ts:37-55 | on each of its three upload paths (37-38, 47-48, 54-55) hydrate uploads the document stamped by one clock reading, then stores a second clock reading as the stamp of its last write | the document is stamped "2024-01-01T00:00:00.000Z" and the remembered stamp is "2024-01-01T00:00:00.120Z"; the snapshot of that write is then not treated as an echo and is adopted again | one reading for both, as the debounced save does at src/sync.ts:87-90, so the echo check at 69-72 suppresses the client's own write | not executed | Sync.SyncSession.HydrateAsWritten, Sync.HydrateEchoMissed | Sync.SyncSession.Hydrate, Sync.OwnPushIsEcho |
| src/sync.ts:83-91 | the debounced save remembers the stamp of its write only after `await setDoc` has completed | a push stamped "2024-01-01T00:00:00.000Z" remembered, then pending data D written with "2024-01-01T00:05:00.000Z"; a snapshot of that write delivered before the write completes is not an echo and D is adopted back | remembering the stamp before the write is issued, so the echo check at 69-72 suppresses every snapshot of the client's own write | not executed | Sync.SyncSession.FlushWithEarlySnapshot | Sync.SyncSession.FlushRecordingFirst |
