/** The grocery list of a selection (src/utils/aggregate.ts): every ingredient line of
    the selected recipes and every extra item is filed under its normalized key in the
    map of its section; each section then becomes a list of items sorted by display
    name, one per key, with its occurrence count. */
module Aggregate {
  import opened Seqs
  import opened Text
  import opened Normalization
  import opened Types

  /** What a section map keeps per key: how many lines fell under it and their raw
      spellings in order. */
  datatype Entry = Entry(count: nat, variants: seq<string>)

  /** A JavaScript `Map` from keys to entries: `keys` is its iteration (insertion) order
      and lists every key exactly once. */
  datatype RawTable = Table(keys: seq<string>, entries: map<string, Entry>)

  ghost predicate WellFormed(t: RawTable) {
    NoDups(t.keys) && forall k :: k in t.entries <==> k in t.keys
  }

  type Table = t: RawTable | WellFormed(t) witness Table([], map[])

  const EmptyTable: Table := Table([], map[])

  /** One row of the grocery list. */
  datatype Item = Item(norm: string, name: string, count: nat)

  datatype Aggregated = Aggregated(standard: seq<Item>, special: seq<Item>)

  /** Files one raw line: a blank line is skipped; otherwise the entry of its key (a
      fresh one at the end of the iteration order if the key is new) counts it once more
      and records its spelling. */
  function AddLine(t: Table, raw: string): Table {
    var norm := NormalizeName(raw);
    if norm == "" then t else FileUnder(t, norm, raw)
  }

  /** `map.get(norm) ?? { count: 0, variants: [] }`, counted once more, the spelling
      pushed, and `map.set(norm, entry)`: a present key keeps its place in the iteration
      order and a new one goes last. */
  function FileUnder(t: Table, norm: string, raw: string): Table {
    var e := if norm in t.entries then t.entries[norm] else Entry(0, []);
    var e' := Entry(e.count + 1, e.variants + [raw]);
    NoDupsSnoc(t.keys, norm);
    Table(if norm in t.entries then t.keys else t.keys + [norm], t.entries[norm := e'])
  }

  /** The lines whose key is `k`, in order. */
  function Matching(lines: seq<string>, k: string): (r: seq<string>)
    ensures |r| <= |lines|
    ensures forall v :: v in r ==> v in lines && NormalizeName(v) == k
  {
    if |lines| == 0 then []
    else
      var init, last := lines[..|lines| - 1], lines[|lines| - 1];
      Matching(init, k) + (if NormalizeName(last) == k then [last] else [])
  }

  /** The lines whose key is `k` are all of them, each as often as in `lines`. */
  lemma {:induction false} MatchingCounts(lines: seq<string>, k: string)
    ensures forall v :: multiset(Matching(lines, k))[v] == if NormalizeName(v) == k then multiset(lines)[v] else 0
  {
    if |lines| > 0 {
      var init, last := lines[..|lines| - 1], lines[|lines| - 1];
      assert lines == init + [last];
      MatchingCounts(init, k);
    }
  }

  /** The keys of the non-blank lines, in order, repetitions included. */
  function KeysOf(lines: seq<string>): seq<string> {
    if |lines| == 0 then []
    else
      var init, last := lines[..|lines| - 1], lines[|lines| - 1];
      var norm := NormalizeName(last);
      KeysOf(init) + (if norm != "" then [norm] else [])
  }

  /** A key occurs among the keys of the lines exactly when it is not blank and some
      line has it. */
  lemma {:induction false} KeysOfMembers(lines: seq<string>, k: string)
    ensures k in KeysOf(lines) <==> k != "" && Matching(lines, k) != []
  {
    if |lines| > 0 {
      var init := lines[..|lines| - 1];
      KeysOfMembers(init, k);
    }
  }

  /** The section map after filing `lines` into an empty map: one key per non-blank key
      of the lines, in order of first occurrence, whose entry holds exactly the lines
      with that key. */
  function Tally(lines: seq<string>): (t: Table)
    ensures t.keys == Dedup(KeysOf(lines))
    ensures forall k :: k in t.entries ==> t.entries[k] == Entry(|Matching(lines, k)|, Matching(lines, k))
  {
    if |lines| == 0 then EmptyTable
    else
      var init, last := lines[..|lines| - 1], lines[|lines| - 1];
      var prev := Tally(init);
      FiledKeys(lines, prev);
      FiledEntries(lines, prev);
      AddLine(prev, last)
  }

  /** Filing the last of `lines`: every entry still holds exactly the lines of its key. */
  lemma FiledEntries(lines: seq<string>, prev: Table)
    requires |lines| > 0
    requires prev.keys == Dedup(KeysOf(lines[..|lines| - 1]))
    requires forall k :: k in prev.entries ==>
      prev.entries[k] == Entry(|Matching(lines[..|lines| - 1], k)|, Matching(lines[..|lines| - 1], k))
    ensures forall k :: k in AddLine(prev, lines[|lines| - 1]).entries ==>
      AddLine(prev, lines[|lines| - 1]).entries[k] == Entry(|Matching(lines, k)|, Matching(lines, k))
  {
    var init, last := lines[..|lines| - 1], lines[|lines| - 1];
    forall k | k in AddLine(prev, last).entries
      ensures AddLine(prev, last).entries[k] == Entry(|Matching(lines, k)|, Matching(lines, k))
    {
      assert k in prev.entries <==> k in KeysOf(init);
      FiledEntry(lines, prev, k);
    }
  }

  /** Filing the last of `lines`: the iteration order gains its key if it is new. */
  lemma FiledKeys(lines: seq<string>, prev: Table)
    requires |lines| > 0
    requires prev.keys == Dedup(KeysOf(lines[..|lines| - 1]))
    ensures AddLine(prev, lines[|lines| - 1]).keys == Dedup(KeysOf(lines))
  {
    var norm := NormalizeName(lines[|lines| - 1]);
    var ks := KeysOf(lines[..|lines| - 1]);
    if norm != "" {
      InitOfSnoc(ks, norm);
      assert norm in ks <==> norm in prev.entries;
    } else {
      AppendEmpty(ks);
    }
  }

  /** Filing the last of `lines`: the entry of one key. */
  lemma FiledEntry(lines: seq<string>, prev: Table, k: string)
    requires |lines| > 0
    requires k in prev.entries ==>
      prev.entries[k] == Entry(|Matching(lines[..|lines| - 1], k)|, Matching(lines[..|lines| - 1], k))
    requires k in prev.entries <==> k in KeysOf(lines[..|lines| - 1])
    requires k in AddLine(prev, lines[|lines| - 1]).entries
    ensures AddLine(prev, lines[|lines| - 1]).entries[k] == Entry(|Matching(lines, k)|, Matching(lines, k))
  {
    var init, last := lines[..|lines| - 1], lines[|lines| - 1];
    KeysOfMembers(init, k);
    if NormalizeName(last) != k || k == "" {
      AppendEmpty(Matching(init, k));
    }
  }

  /** Every key of the tally has at least one line, and every variant has that key. */
  lemma TallyEntries(lines: seq<string>, k: string)
    requires k in Tally(lines).entries
    ensures Tally(lines).entries[k].count >= 1
    ensures forall v :: v in Tally(lines).entries[k].variants ==> NormalizeName(v) == k
  {
    assert k in Tally(lines).keys;
    assert k in KeysOf(lines);
    KeysOfMembers(lines, k);
  }

  /** `rec` is the last recipe of the list whose id is `id`. */
  ghost predicate LastWithId(recipes: seq<Recipe>, id: string, rec: Recipe) {
    exists i :: 0 <= i < |recipes| && recipes[i] == rec && rec.id == id
      && (forall j :: i < j < |recipes| ==> recipes[j].id != id)
  }

  /** `new Map(recipes.map((r) => [r.id, r]))`: for an id shared by several recipes the
      last one wins. */
  function ById(recipes: seq<Recipe>): (m: map<string, Recipe>)
    ensures forall id :: id in m <==> exists i :: 0 <= i < |recipes| && recipes[i].id == id
    ensures forall id :: id in m ==> LastWithId(recipes, id, m[id])
  {
    if |recipes| == 0 then map[]
    else
      var init, last := recipes[..|recipes| - 1], recipes[|recipes| - 1];
      assert recipes == init + [last];
      var m := ById(init);
      var r := m[last.id := last];
      assert forall id :: id in r ==> LastWithId(recipes, id, r[id]) by {
        forall id | id in r ensures LastWithId(recipes, id, r[id]) {
          if id == last.id {
            assert recipes[|recipes| - 1] == r[id];
          } else {
            assert LastWithId(init, id, m[id]);
            var i :| 0 <= i < |init| && init[i] == m[id] && init[i].id == id
              && (forall j :: i < j < |init| ==> init[j].id != id);
            assert recipes[i] == r[id];
          }
        }
      }
      r
  }

  /** The lines of section `sec` of the selected recipes, in selection order; an id
      without a recipe contributes nothing and an id selected twice contributes twice. */
  function RecipeLines(byId: map<string, Recipe>, ids: seq<string>, sec: Section): seq<string> {
    if |ids| == 0 then []
    else
      var init, last := ids[..|ids| - 1], ids[|ids| - 1];
      RecipeLines(byId, init, sec) + (if last in byId then byId[last].Lines(sec) else [])
  }

  /** The names of the extra items filed under section `sec`, in order. */
  function ExtraLines(extras: seq<ExtraItem>, sec: Section): seq<string> {
    if |extras| == 0 then []
    else
      var init, last := extras[..|extras| - 1], extras[|extras| - 1];
      ExtraLines(init, sec) + (if last.section == sec then [last.name] else [])
  }

  /** Everything filed into the map of section `sec`, in filing order. */
  function SectionLines(recipes: seq<Recipe>, ids: seq<string>, extras: seq<ExtraItem>, sec: Section): seq<string> {
    RecipeLines(ById(recipes), ids, sec) + ExtraLines(extras, sec)
  }

  /** The name shown for a key: chosen among its spellings, or the title case of the
      key when it has none. */
  function ChosenName(norm: string, variants: seq<string>): string {
    DisplayName(norm, if |variants| > 0 then variants else [TitleCaseFromNormalized(norm)])
  }

  /** The map's entries in iteration order, each with its display name. */
  function ToItems(t: Table): (r: seq<Item>)
    ensures |r| == |t.keys|
  {
    seq(|t.keys|, i requires 0 <= i < |t.keys| =>
      var k := t.keys[i];
      Item(k, ChosenName(k, t.entries[k].variants), t.entries[k].count))
  }

  predicate SortedByName(s: seq<Item>) {
    forall i, j :: 0 <= i < j < |s| ==> !LexLess(s[j].name, s[i].name)
  }

  /** Places `x` after every item whose name does not follow its own. */
  function InsertByName(x: Item, s: seq<Item>): (r: seq<Item>)
    ensures multiset(r) == multiset(s) + multiset{x}
    ensures SortedByName(s) ==> SortedByName(r)
    ensures NoDups(s) && x !in s ==> NoDups(r)
  {
    if |s| == 0 then [x]
    else if LexLess(x.name, s[0].name) then
      InsertFrontSorted(x, s);
      NoDupsCons(x, s);
      [x] + s
    else
      var rest := InsertByName(x, s[1..]);
      assert s == [s[0]] + s[1..];
      InsertRestSorted(x, s, rest);
      NoDupsCons(s[0], s[1..]);
      NoDupsCons(s[0], rest);
      assert s[0] in rest ==> s[0] in multiset(rest);
      assert NoDups(s) && x !in s ==> NoDups(s[1..]) && x !in s[1..];
      [s[0]] + rest
  }

  lemma NoDupsCons<T(!new)>(x: T, s: seq<T>)
    ensures NoDups([x] + s) <==> NoDups(s) && x !in s
  {
    var t := [x] + s;
    assert forall i :: 0 <= i < |s| ==> t[i + 1] == s[i];
    if NoDups(t) {
      forall i | 0 <= i < |s| ensures s[i] != x {
        assert t[0] != t[i + 1];
      }
    }
  }

  lemma InsertFrontSorted(x: Item, s: seq<Item>)
    requires |s| > 0 && LexLess(x.name, s[0].name)
    ensures SortedByName(s) ==> SortedByName([x] + s)
  {
    if SortedByName(s) {
      var t := [x] + s;
      forall i, j | 0 <= i < j < |t| ensures !LexLess(t[j].name, t[i].name) {
        if i == 0 {
          assert t[j] == s[j - 1];
          if LexLess(s[j - 1].name, x.name) {
            LexLessTransitive(s[j - 1].name, x.name, s[0].name);
            if j == 1 { LexLessIrreflexive(s[0].name); }
          }
        } else {
          assert t[i] == s[i - 1] && t[j] == s[j - 1];
        }
      }
    }
  }

  lemma InsertRestSorted(x: Item, s: seq<Item>, rest: seq<Item>)
    requires |s| > 0 && !LexLess(x.name, s[0].name)
    requires multiset(rest) == multiset(s[1..]) + multiset{x}
    requires SortedByName(s[1..]) ==> SortedByName(rest)
    ensures SortedByName(s) ==> SortedByName([s[0]] + rest)
  {
    if SortedByName(s) {
      assert SortedByName(s[1..]);
      var t := [s[0]] + rest;
      forall i, j | 0 <= i < j < |t| ensures !LexLess(t[j].name, t[i].name) {
        if i == 0 {
          var y := rest[j - 1];
          assert y in multiset(rest);
          if y != x {
            assert y in s[1..];
            var k :| 0 <= k < |s[1..]| && s[1..][k] == y;
            assert s[k + 1] == y;
          }
        } else {
          assert t[i] == rest[i - 1] && t[j] == rest[j - 1];
        }
      }
    }
  }

  /** `items.sort((a, b) => a.name.localeCompare(b.name))`: a stable sort by name. */
  function SortByName(items: seq<Item>): (r: seq<Item>)
    ensures multiset(r) == multiset(items)
    ensures |r| == |items|
    ensures SortedByName(r)
    ensures NoDups(items) ==> NoDups(r)
  {
    if |items| == 0 then []
    else
      var init, last := items[..|items| - 1], items[|items| - 1];
      assert items == init + [last];
      NoDupsSnoc(init, last);
      var sorted := SortByName(init);
      assert last in init <==> last in multiset(sorted);
      var r := InsertByName(last, sorted);
      assert |r| == |multiset(r)|;
      r
  }

  /** `toList`: one item per key of the map, sorted by display name. */
  function ToList(t: Table): seq<Item> {
    SortByName(ToItems(t))
  }

  /** The result of `aggregate(recipes, recipeIds, extras)`: see AggregateMeaning. */
  function AggregateOf(recipes: seq<Recipe>, ids: seq<string>, extras: seq<ExtraItem>): Aggregated {
    Aggregated(
      ToList(Tally(SectionLines(recipes, ids, extras, Standard))),
      ToList(Tally(SectionLines(recipes, ids, extras, Special))))
  }

  function Norms(items: seq<Item>): (r: seq<string>)
    ensures |r| == |items|
  {
    seq(|items|, i requires 0 <= i < |items| => items[i].norm)
  }

  /** The item built for the `i`-th key of a tally. */
  lemma ItemFacts(lines: seq<string>, i: int)
    requires 0 <= i < |Tally(lines).keys|
    ensures var it := ToItems(Tally(lines))[i];
      && it.norm == Tally(lines).keys[i]
      && it.count == |Matching(lines, it.norm)| >= 1
      && it.name == DisplayName(it.norm, Matching(lines, it.norm))
      && NormalizeName(it.name) == it.norm
  {
    var t := Tally(lines);
    var k := t.keys[i];
    TallyEntries(lines, k);
    var m := Matching(lines, k);
    assert t.entries[k] == Entry(|m|, m);
    assert ChosenName(k, m) == DisplayName(k, m);
  }

  /** The items of a tally have pairwise distinct keys. */
  lemma ItemNormsDistinct(t: Table)
    ensures Norms(ToItems(t)) == t.keys
    ensures NoDups(ToItems(t))
  {
    var items := ToItems(t);
    assert Norms(items) == t.keys;
    forall a, b | 0 <= a < b < |items| ensures items[a] != items[b] {
      assert items[a].norm == t.keys[a] && items[b].norm == t.keys[b];
    }
  }

  /** Sorting keeps exactly the same items. */
  lemma SortedMembers(items: seq<Item>)
    ensures forall it :: it in SortByName(items) <==> it in items
  {
    var r := SortByName(items);
    forall it ensures it in r <==> it in items {
      assert it in r <==> it in multiset(r);
      assert it in items <==> it in multiset(items);
    }
  }

  /** Distinct items drawn from a list with distinct keys have distinct keys. */
  lemma NormsStayDistinct(items: seq<Item>, r: seq<Item>)
    requires NoDups(Norms(items)) && NoDups(r)
    requires forall it :: it in r ==> it in items
    ensures NoDups(Norms(r))
  {
    forall i, j | 0 <= i < j < |r| ensures r[i].norm != r[j].norm {
      assert r[i] in items && r[j] in items;
      var a :| 0 <= a < |items| && items[a] == r[i];
      var b :| 0 <= b < |items| && items[b] == r[j];
      assert Norms(items)[a] == r[i].norm && Norms(items)[b] == r[j].norm;
    }
  }

  lemma SameNorms(items: seq<Item>, r: seq<Item>)
    requires forall it :: it in r <==> it in items
    ensures forall k :: k in Norms(r) <==> k in Norms(items)
  {
    forall k | k in Norms(r) ensures k in Norms(items) {
      var i :| 0 <= i < |r| && Norms(r)[i] == k;
      assert r[i] in items;
      var a :| 0 <= a < |items| && items[a] == r[i];
      assert Norms(items)[a] == k;
    }
    forall k | k in Norms(items) ensures k in Norms(r) {
      var a :| 0 <= a < |items| && Norms(items)[a] == k;
      assert items[a] in r;
      var i :| 0 <= i < |r| && r[i] == items[a];
      assert Norms(r)[i] == k;
    }
  }

  /** The two lists of the aggregate: each holds one item per non-blank key of the lines
      filed into its section, with distinct keys, in strictly increasing name order. */
  lemma AggregateMeaning(recipes: seq<Recipe>, ids: seq<string>, extras: seq<ExtraItem>, sec: Section)
    ensures var lines := SectionLines(recipes, ids, extras, sec);
      var list := if sec == Standard then AggregateOf(recipes, ids, extras).standard
                  else AggregateOf(recipes, ids, extras).special;
      && (forall k :: k in Norms(list) <==> k != "" && Matching(lines, k) != [])
      && NoDups(Norms(list))
      && (forall i, j :: 0 <= i < j < |list| ==> LexLess(list[i].name, list[j].name))
  {
    ListMeaning(SectionLines(recipes, ids, extras, sec));
  }

  /** The list of a section, given everything filed into it: one item per non-blank
      key, counting the lines with that key and named after the most common of their
      spellings; names normalize back to their keys and are strictly increasing. */
  lemma ListMeaning(lines: seq<string>)
    ensures var r := ToList(Tally(lines));
      && (forall k :: k in Norms(r) <==> k != "" && Matching(lines, k) != [])
      && NoDups(Norms(r))
      && (forall it :: it in r ==>
            && it.count == |Matching(lines, it.norm)| >= 1
            && it.name == DisplayName(it.norm, Matching(lines, it.norm))
            && NormalizeName(it.name) == it.norm)
      && (forall i, j :: 0 <= i < j < |r| ==> LexLess(r[i].name, r[j].name))
  {
    var t := Tally(lines);
    var items := ToItems(t);
    var r := SortByName(items);
    ItemNormsDistinct(t);
    SortedMembers(items);
    NormsStayDistinct(items, r);
    SameNorms(items, r);
    forall k ensures k in Norms(r) <==> k != "" && Matching(lines, k) != [] {
      KeysOfMembers(lines, k);
    }
    ItemsMeaning(lines, items, r);
    StrictlySorted(r);
  }

  lemma ItemsMeaning(lines: seq<string>, items: seq<Item>, r: seq<Item>)
    requires items == ToItems(Tally(lines))
    requires forall it :: it in r ==> it in items
    ensures forall it :: it in r ==>
      && it.count == |Matching(lines, it.norm)| >= 1
      && it.name == DisplayName(it.norm, Matching(lines, it.norm))
      && NormalizeName(it.name) == it.norm
  {
    forall it | it in r
      ensures it.count == |Matching(lines, it.norm)| >= 1
      ensures it.name == DisplayName(it.norm, Matching(lines, it.norm))
      ensures NormalizeName(it.name) == it.norm
    {
      var i :| 0 <= i < |items| && items[i] == it;
      ItemFacts(lines, i);
    }
  }

  /** A list sorted by name whose items have distinct keys that their names normalize
      to is strictly increasing by name. */
  lemma StrictlySorted(r: seq<Item>)
    requires SortedByName(r) && NoDups(Norms(r))
    requires forall it :: it in r ==> NormalizeName(it.name) == it.norm
    ensures forall i, j :: 0 <= i < j < |r| ==> LexLess(r[i].name, r[j].name)
  {
    forall i, j | 0 <= i < j < |r| ensures LexLess(r[i].name, r[j].name) {
      assert Norms(r)[i] != Norms(r)[j];
      assert r[i] in r && r[j] in r;
      BeforeNames(r[i], r[j]);
    }
  }

  lemma BeforeNames(x: Item, y: Item)
    requires NormalizeName(x.name) == x.norm && NormalizeName(y.name) == y.norm
    requires x.norm != y.norm
    requires !LexLess(y.name, x.name)
    ensures LexLess(x.name, y.name)
  {
    LexLessTotal(x.name, y.name);
  }


  lemma TallySnoc(lines: seq<string>, line: string)
    ensures Tally(lines + [line]) == AddLine(Tally(lines), line)
  {
    assert (lines + [line])[..|lines|] == lines;
  }

  lemma RecipeLinesSnoc(byId: map<string, Recipe>, ids: seq<string>, i: nat, sec: Section)
    requires i < |ids|
    ensures RecipeLines(byId, ids[..i + 1], sec)
         == RecipeLines(byId, ids[..i], sec) + (if ids[i] in byId then byId[ids[i]].Lines(sec) else [])
  {
    assert ids[..i + 1][..i] == ids[..i];
  }

  lemma ExtraLinesSnoc(extras: seq<ExtraItem>, k: nat, sec: Section)
    requires k < |extras|
    ensures ExtraLines(extras[..k + 1], sec)
         == ExtraLines(extras[..k], sec) + (if extras[k].section == sec then [extras[k].name] else [])
  {
    assert extras[..k + 1][..k] == extras[..k];
  }

  lemma FileStep(done: seq<string>, more: seq<string>, j: nat, table: Table)
    requires j < |more|
    requires table == Tally(done + more[..j])
    ensures AddLine(table, more[j]) == Tally(done + more[..j + 1])
  {
    AppendSlice(done, more, j);
    TallySnoc(done + more[..j], more[j]);
  }


  /** Files the lines `ings` into `table`, one after the other. */
  method FileLines(table: Table, ghost done: seq<string>, ings: seq<string>) returns (r: Table)
    requires table == Tally(done)
    ensures r == Tally(done + ings)
  {
    r := table;
    assert done + ings[..0] == done;
    for j := 0 to |ings|
      invariant r == Tally(done + ings[..j])
    {
      FileStep(done, ings, j, r);
      r := AddLine(r, ings[j]);
    }
    assert ings[..|ings|] == ings;
  }

  lemma FileExtraStep(done: seq<string>, extras: seq<ExtraItem>, k: nat, sec: Section, table: Table)
    requires k < |extras|
    requires table == Tally(done + ExtraLines(extras[..k], sec))
    ensures (if extras[k].section == sec then AddLine(table, extras[k].name) else table)
         == Tally(done + ExtraLines(extras[..k + 1], sec))
  {
    ExtraLinesSnoc(extras, k, sec);
    var before := done + ExtraLines(extras[..k], sec);
    if extras[k].section == sec {
      AppendAssoc(done, ExtraLines(extras[..k], sec), [extras[k].name]);
      TallySnoc(before, extras[k].name);
    } else {
      AppendEmpty(ExtraLines(extras[..k], sec));
    }
  }

  /** Files the extra items into the map of their section, one after the other. */
  method FileExtras(standard: Table, special: Table, ghost doneStandard: seq<string>, ghost doneSpecial: seq<string>,
                    extras: seq<ExtraItem>) returns (std: Table, spc: Table)
    requires standard == Tally(doneStandard) && special == Tally(doneSpecial)
    ensures std == Tally(doneStandard + ExtraLines(extras, Standard))
    ensures spc == Tally(doneSpecial + ExtraLines(extras, Special))
  {
    std, spc := standard, special;
    assert extras[..0] == [];
    AppendEmpty(doneStandard);
    AppendEmpty(doneSpecial);
    for k := 0 to |extras|
      invariant std == Tally(doneStandard + ExtraLines(extras[..k], Standard))
      invariant spc == Tally(doneSpecial + ExtraLines(extras[..k], Special))
    {
      var ex := extras[k];
      FileExtraStep(doneStandard, extras, k, Standard, std);
      FileExtraStep(doneSpecial, extras, k, Special, spc);
      if ex.section == Standard {
        std := AddLine(std, ex.name);
      } else {
        spc := AddLine(spc, ex.name);
      }
    }
    assert extras[..|extras|] == extras;
  }

  /** `aggregate`: files the lines of the selected recipes and then the extras into the
      two section maps, and turns each map into its sorted list. */
  method Aggregate(recipes: seq<Recipe>, recipeIds: seq<string>, extras: seq<ExtraItem>) returns (result: Aggregated)
    ensures result == AggregateOf(recipes, recipeIds, extras)
  {
    var recipeById := ById(recipes);
    var standard, special := EmptyTable, EmptyTable;
    for i := 0 to |recipeIds|
      invariant standard == Tally(RecipeLines(recipeById, recipeIds[..i], Standard))
      invariant special == Tally(RecipeLines(recipeById, recipeIds[..i], Special))
    {
      var rid := recipeIds[i];
      RecipeLinesSnoc(recipeById, recipeIds, i, Standard);
      RecipeLinesSnoc(recipeById, recipeIds, i, Special);
      if rid !in recipeById {
        assert RecipeLines(recipeById, recipeIds[..i], Standard) + [] == RecipeLines(recipeById, recipeIds[..i], Standard);
        assert RecipeLines(recipeById, recipeIds[..i], Special) + [] == RecipeLines(recipeById, recipeIds[..i], Special);
        continue;
      }
      var r := recipeById[rid];
      standard := FileLines(standard, RecipeLines(recipeById, recipeIds[..i], Standard), r.standard);
      special := FileLines(special, RecipeLines(recipeById, recipeIds[..i], Special), r.special);
    }
    assert recipeIds[..|recipeIds|] == recipeIds;
    standard, special := FileExtras(standard, special,
      RecipeLines(recipeById, recipeIds, Standard), RecipeLines(recipeById, recipeIds, Special), extras);
    result := Aggregated(ToList(standard), ToList(special));
  }

  /** Counts add up over concatenated inputs: the count of a key is its count among the
      recipe lines plus its count among the extras. */
  lemma {:induction false} MatchingAppend(a: seq<string>, b: seq<string>, k: string)
    ensures Matching(a + b, k) == Matching(a, k) + Matching(b, k)
  {
    if |b| > 0 {
      var init, last := b[..|b| - 1], b[|b| - 1];
      InitOfAppend(a, b);
      MatchingAppend(a, init, k);
      AppendAssoc(Matching(a, k), Matching(init, k), if NormalizeName(last) == k then [last] else []);
    } else {
      assert a + b == a;
    }
  }

  lemma ExtraLinesOtherSection(extras: seq<ExtraItem>, ex: ExtraItem, sec: Section)
    requires ex.section != sec
    ensures ExtraLines(extras + [ex], sec) == ExtraLines(extras, sec)
  {
    InitOfSnoc(extras, ex);
  }

  /** An extra item changes only the list of its own section. */
  lemma ExtraStaysInSection(recipes: seq<Recipe>, ids: seq<string>, extras: seq<ExtraItem>, ex: ExtraItem)
    ensures ex.section == Standard ==>
      AggregateOf(recipes, ids, extras + [ex]).special == AggregateOf(recipes, ids, extras).special
    ensures ex.section == Special ==>
      AggregateOf(recipes, ids, extras + [ex]).standard == AggregateOf(recipes, ids, extras).standard
  {
    var other := if ex.section == Standard then Special else Standard;
    ExtraLinesOtherSection(extras, ex, other);
    assert SectionLines(recipes, ids, extras + [ex], other) == SectionLines(recipes, ids, extras, other);
  }

  lemma RecipeLinesUnknown(byId: map<string, Recipe>, ids: seq<string>, id: string, sec: Section)
    requires id !in byId
    ensures RecipeLines(byId, ids + [id], sec) == RecipeLines(byId, ids, sec)
  {
    assert (ids + [id])[..|ids|] == ids;
  }

  /** Selecting an id with no recipe behind it leaves both lists unchanged. */
  lemma UnknownIdIgnored(recipes: seq<Recipe>, ids: seq<string>, extras: seq<ExtraItem>, id: string)
    requires forall i :: 0 <= i < |recipes| ==> recipes[i].id != id
    ensures AggregateOf(recipes, ids + [id], extras) == AggregateOf(recipes, ids, extras)
  {
    RecipeLinesUnknown(ById(recipes), ids, id, Standard);
    RecipeLinesUnknown(ById(recipes), ids, id, Special);
    assert SectionLines(recipes, ids + [id], extras, Standard) == SectionLines(recipes, ids, extras, Standard);
    assert SectionLines(recipes, ids + [id], extras, Special) == SectionLines(recipes, ids, extras, Special);
  }

  /** Selecting a recipe once more adds its lines again: every key of the recipe is
      counted once more per line. */
  lemma SelectAgainCounts(recipes: seq<Recipe>, ids: seq<string>, id: string, sec: Section, k: string)
    requires id in ById(recipes)
    ensures |Matching(RecipeLines(ById(recipes), ids + [id], sec), k)|
         == |Matching(RecipeLines(ById(recipes), ids, sec), k)| + |Matching(ById(recipes)[id].Lines(sec), k)|
  {
    assert (ids + [id])[..|ids|] == ids;
    MatchingAppend(RecipeLines(ById(recipes), ids, sec), ById(recipes)[id].Lines(sec), k);
  }

  /** A blank line is skipped: it changes neither keys nor entries. */
  lemma BlankLineSkipped(lines: seq<string>, blank: string)
    requires AllSpace(blank)
    ensures Tally(lines + [blank]) == Tally(lines)
  {
    assert (lines + [blank])[..|lines|] == lines;
  }
}
