/** The grocery list view (src/components/GroceryListView.tsx): after every recompute of
    the list it drops the checked names whose item is gone; it offers "Remove extra" on
    an item exactly when an extra item of that section has its key; and it shows an
    item as checked when its key is among the checked names. */
module GroceryListView {
  import opened Seqs
  import opened Normalization
  import opened Types
  import opened Aggregate
  import opened Store

  /** `new Set([...agg.standard, ...agg.special].map((i) => i.norm))` */
  function Available(agg: Aggregated): (r: set<string>)
    ensures forall k :: k in r <==> k in Norms(agg.standard) || k in Norms(agg.special)
  {
    set k | k in Norms(agg.standard) + Norms(agg.special)
  }

  /** `checkedNames.filter((n) => available.has(n))` */
  function Pruned(checked: seq<string>, available: set<string>): (r: seq<string>)
    ensures forall n :: n in r <==> n in checked && n in available
    ensures IsSubseq(r, checked)
    ensures |r| == |checked| <==> forall n :: n in checked ==> n in available
    ensures |r| == |checked| ==> r == checked
    ensures forall n :: multiset(r)[n] == if n in available then multiset(checked)[n] else 0
  {
    var keep := n => n in available;
    FilterCounts(checked, keep);
    var r := Filter(checked, keep);
    assert |r| == |checked| ==> forall n :: n in checked ==> n in r;
    r
  }

  /** The prune effect: the store is written, with the pruned names, exactly when some
      checked name is no longer on the list; otherwise the checked names stay as they
      are. Returns whether the store was written. */
  method PruneChecks(store: GroceryStore, agg: Aggregated) returns (wrote: bool)
    modifies store`checkedNames
    ensures wrote <==> exists n :: n in old(store.checkedNames) && n !in Available(agg)
    ensures store.checkedNames == Pruned(old(store.checkedNames), Available(agg))
  {
    var available := Available(agg);
    var pruned := Pruned(store.checkedNames, available);
    wrote := |pruned| != |store.checkedNames|;
    if wrote {
      store.checkedNames := pruned;
    }
  }

  /** A key is on the recomputed list exactly when some line filed into one of the two
      sections has it. */
  lemma AvailableAfterAggregate(recipes: seq<Recipe>, ids: seq<string>, extras: seq<ExtraItem>, k: string)
    ensures k in Available(AggregateOf(recipes, ids, extras)) <==>
      k != "" && (Matching(SectionLines(recipes, ids, extras, Standard), k) != []
                  || Matching(SectionLines(recipes, ids, extras, Special), k) != [])
  {
    ListMeaning(SectionLines(recipes, ids, extras, Standard));
    ListMeaning(SectionLines(recipes, ids, extras, Special));
  }

  /** A checked name survives the prune exactly when some selected recipe line or extra
      item still has that key. */
  lemma PruneAfterAggregate(checked: seq<string>, recipes: seq<Recipe>, ids: seq<string>,
                            extras: seq<ExtraItem>, n: string)
    ensures n in Pruned(checked, Available(AggregateOf(recipes, ids, extras))) <==>
      n in checked && n != "" && (Matching(SectionLines(recipes, ids, extras, Standard), n) != []
                                  || Matching(SectionLines(recipes, ids, extras, Special), n) != [])
  {
    AvailableAfterAggregate(recipes, ids, extras, n);
  }

  /** `checkedNames.includes(it.norm)` */
  predicate IsChecked(checked: seq<string>, it: Item) {
    it.norm in checked
  }

  /** Clicking an item's checkbox (`onToggle(it.norm)`, the store's `toggleChecked`)
      flips whether it shows as checked and leaves every item with another key as it
      was. */
  lemma CheckboxFlips(checked: seq<string>, it: Item, other: Item)
    ensures IsChecked(Toggle(checked, it.norm), it) <==> !IsChecked(checked, it)
    ensures other.norm != it.norm ==> (IsChecked(Toggle(checked, it.norm), other) <==> IsChecked(checked, other))
  {
  }

  /** Pruning never unchecks an item that is on the list. */
  lemma PruneKeepsShownChecks(checked: seq<string>, agg: Aggregated, it: Item)
    requires it in agg.standard || it in agg.special
    ensures IsChecked(Pruned(checked, Available(agg)), it) <==> IsChecked(checked, it)
  {
    var items := if it in agg.standard then agg.standard else agg.special;
    var i :| 0 <= i < |items| && items[i] == it;
    assert Norms(items)[i] == it.norm;
  }

  /** The key of some extra line of section `sec` is `norm` exactly when an extra item of
      that section has key `norm`: "Remove extra" is offered for the items an extra
      contributes to. */
  lemma {:induction false} CanRemoveIff(extras: seq<ExtraItem>, norm: string, sec: Section)
    ensures HasItem(extras, norm, sec) <==> Matching(ExtraLines(extras, sec), norm) != []
  {
    if |extras| > 0 {
      var init, last := extras[..|extras| - 1], extras[|extras| - 1];
      assert extras == init + [last];
      CanRemoveIff(init, norm, sec);
      var tail := if last.section == sec then [last.name] else [];
      MatchingAppend(ExtraLines(init, sec), tail, norm);
      assert Matching(tail, norm) != [] <==> Matches(last, norm, sec) by {
        if last.section == sec {
          assert tail[..0] == [];
        }
      }
      if HasItem(extras, norm, sec) && !Matches(last, norm, sec) {
        var e :| e in extras && Matches(e, norm, sec);
        assert e in init;
      }
    }
  }

  /** The extra lines that remain after `removeExtra(norm, sec)` have other keys. */
  lemma RemovedExtraLines(extras: seq<ExtraItem>, norm: string, sec: Section)
    ensures Matching(ExtraLines(RemoveMatching(extras, norm, sec), sec), norm) == []
  {
    CanRemoveIff(RemoveMatching(extras, norm, sec), norm, sec);
  }

  /** The list of one section. */
  function Shown(agg: Aggregated, sec: Section): seq<Item> {
    if sec == Standard then agg.standard else agg.special
  }

  /** "Remove extra" on an item no selected recipe line has takes the item off its
      section's list. */
  lemma RemoveExtraDropsItem(recipes: seq<Recipe>, ids: seq<string>, extras: seq<ExtraItem>, norm: string, sec: Section)
    requires Matching(RecipeLines(ById(recipes), ids, sec), norm) == []
    ensures norm !in Norms(Shown(AggregateOf(recipes, ids, RemoveMatching(extras, norm, sec)), sec))
  {
    var rest := RemoveMatching(extras, norm, sec);
    var lines := SectionLines(recipes, ids, rest, sec);
    ListMeaning(lines);
    MatchingAppend(RecipeLines(ById(recipes), ids, sec), ExtraLines(rest, sec), norm);
    RemovedExtraLines(extras, norm, sec);
  }
}
