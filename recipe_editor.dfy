/** The recipe editor (src/components/RecipeEditor.tsx): it keeps a title and the two
    ingredient lists of the recipe being edited, adds a name to one list unless its key
    is blank or already used in either list, removes or moves a name within a list, and
    reports the keys that occur more than once across both lists. */
module RecipeEditor {
  import opened Seqs
  import opened Text
  import opened Normalization
  import opened Types

  /** The keys of both lists are pairwise distinct (standard first, then special). */
  predicate KeysDistinct(standard: seq<string>, special: seq<string>) {
    NoDups(NormalizedAll(standard + special))
  }

  /** Some name of `names` has key `norm`. */
  predicate HasKey(names: seq<string>, norm: string) {
    exists n :: n in names && NormalizeName(n) == norm
  }

  /** `handleAddStandard`/`handleAddSpecial`: the input, trimmed, is appended to `target`
      unless its key is blank or already used in `target` or in `other`. */
  function AddedTo(target: seq<string>, other: seq<string>, input: string): (r: seq<string>)
    ensures |r| == |target| + 1 <==>
      NormalizeName(input) != "" && !HasKey(target, NormalizeName(input)) && !HasKey(other, NormalizeName(input))
    ensures |r| == |target| || |r| == |target| + 1
    ensures r[..|target|] == target
    ensures |r| == |target| + 1 ==> r[|target|] == Trim(input)
  {
    var name := Trim(input);
    var norm := NormalizeName(name);
    NormalizeTrim(input);
    if norm == "" || HasKey(target, norm) || HasKey(other, norm) then target
    else
      InitOfSnoc(target, name);
      target + [name]
  }

  /** A name whose key neither list uses can be appended to the standard list. */
  lemma KeysDistinctInsertStandard(standard: seq<string>, special: seq<string>, name: string)
    requires KeysDistinct(standard, special)
    requires !HasKey(standard, NormalizeName(name)) && !HasKey(special, NormalizeName(name))
    ensures KeysDistinct(standard + [name], special)
  {
    var norm := NormalizeName(name);
    MapAppend(NormalizeName, standard, special);
    MapMember(NormalizeName, standard, norm);
    MapMember(NormalizeName, special, norm);
    MapInsert(NormalizeName, standard, name, special);
    NoDupsInsert(NormalizedAll(standard), norm, NormalizedAll(special));
  }

  /** A name whose key neither list uses can be appended to the special list. */
  lemma KeysDistinctInsertSpecial(standard: seq<string>, special: seq<string>, name: string)
    requires KeysDistinct(standard, special)
    requires !HasKey(standard, NormalizeName(name)) && !HasKey(special, NormalizeName(name))
    ensures KeysDistinct(standard, special + [name])
  {
    var norm := NormalizeName(name);
    var all := standard + special;
    AppendAssoc(standard, special, [name]);
    MapAppend(NormalizeName, all, [name]);
    MapMember(NormalizeName, all, norm);
    NoDupsSnoc(NormalizedAll(all), norm);
  }

  /** Adding to the standard list keeps the keys distinct. */
  lemma AddStandardKeepsKeysDistinct(standard: seq<string>, special: seq<string>, input: string)
    requires KeysDistinct(standard, special)
    ensures KeysDistinct(AddedTo(standard, special, input), special)
  {
    var r := AddedTo(standard, special, input);
    if |r| == |standard| + 1 {
      NormalizeTrim(input);
      assert r == standard + [Trim(input)];
      KeysDistinctInsertStandard(standard, special, Trim(input));
    }
  }

  /** Adding to the special list keeps the keys distinct. */
  lemma AddSpecialKeepsKeysDistinct(standard: seq<string>, special: seq<string>, input: string)
    requires KeysDistinct(standard, special)
    ensures KeysDistinct(standard, AddedTo(special, standard, input))
  {
    var r := AddedTo(special, standard, input);
    if |r| == |special| + 1 {
      NormalizeTrim(input);
      assert r == special + [Trim(input)];
      KeysDistinctInsertSpecial(standard, special, Trim(input));
    }
  }

  /** `list.filter((_, i) => i !== index)` */
  function RemovedAt(list: seq<string>, index: int): (r: seq<string>)
    ensures 0 <= index < |list| ==> r == list[..index] + list[index + 1..]
    ensures !(0 <= index < |list|) ==> r == list
  {
    if |list| == 0 then []
    else
      var init, last := list[..|list| - 1], list[|list| - 1];
      var rest := RemovedAt(init, index);
      if index == |list| - 1 then
        assert rest == init;
        rest
      else
        assert 0 <= index < |init| ==> init[..index] == list[..index] && init[index + 1..] + [last] == list[index + 1..];
        rest + [last]
  }

  /** `moveUp`: the element at `index` is taken out and put back one place earlier
      (`splice(index, 1)` then `splice(index - 1, 0, item)`), which exchanges it with its
      predecessor; at index 0 nothing moves. */
  function MovedUp(list: seq<string>, index: nat): (r: seq<string>)
    requires index < |list|
    ensures index == 0 ==> r == list
    ensures index > 0 ==> r == Swap(list, index - 1, index)
    ensures multiset(r) == multiset(list)
  {
    if index == 0 then list
    else
      var item := list[index];
      var without := list[..index] + list[index + 1..];
      var r := without[..index - 1] + [item] + without[index - 1..];
      assert without[..index - 1] == list[..index - 1];
      assert without[index - 1..] == [list[index - 1]] + list[index + 1..];
      SwapMultiset(list, index - 1, index);
      r
  }

  /** `moveDown`: the element at `index` is taken out and put back one place later, which
      exchanges it with its successor; at the last index nothing moves. */
  function MovedDown(list: seq<string>, index: nat): (r: seq<string>)
    requires index < |list|
    ensures index == |list| - 1 ==> r == list
    ensures index < |list| - 1 ==> r == Swap(list, index, index + 1)
    ensures multiset(r) == multiset(list)
  {
    if index >= |list| - 1 then list
    else
      var item := list[index];
      var without := list[..index] + list[index + 1..];
      var r := without[..index + 1] + [item] + without[index + 1..];
      assert without[..index + 1] == list[..index] + [list[index + 1]];
      assert without[index + 1..] == list[index + 2..];
      SwapMultiset(list, index, index + 1);
      r
  }

  /** Moving up and then back down restores the list. */
  lemma MoveUpThenDown(list: seq<string>, index: nat)
    requires 0 < index < |list|
    ensures MovedDown(MovedUp(list, index), index - 1) == list
  {
    SwapTwice(list, index - 1, index);
  }

  /** Moving down and then back up restores the list. */
  lemma MoveDownThenUp(list: seq<string>, index: nat)
    requires index + 1 < |list|
    ensures MovedUp(MovedDown(list, index), index + 1) == list
  {
    SwapTwice(list, index, index + 1);
  }

  /** Exchanging two names of the standard list keeps the keys distinct. */
  lemma SwapStandardKeepsKeysDistinct(standard: seq<string>, special: seq<string>, i: nat, j: nat)
    requires i < |standard| && j < |standard|
    requires KeysDistinct(standard, special)
    ensures KeysDistinct(Swap(standard, i, j), special)
  {
    MapNoDupsSwapLeft(NormalizeName, standard, special, i, j);
  }

  /** Exchanging two names of the special list keeps the keys distinct. */
  lemma SwapSpecialKeepsKeysDistinct(standard: seq<string>, special: seq<string>, i: nat, j: nat)
    requires i < |special| && j < |special|
    requires KeysDistinct(standard, special)
    ensures KeysDistinct(standard, Swap(special, i, j))
  {
    MapNoDupsSwapRight(NormalizeName, standard, special, i, j);
  }

  /** Removing a name keeps the keys distinct. */
  lemma RemoveKeepsKeysDistinct(standard: seq<string>, special: seq<string>, index: int)
    requires KeysDistinct(standard, special)
    ensures KeysDistinct(RemovedAt(standard, index), special)
    ensures KeysDistinct(standard, RemovedAt(special, index))
  {
    if 0 <= index < |standard| {
      MapNoDupsRemoveLeft(NormalizeName, standard, special, index);
    }
    if 0 <= index < |special| {
      MapNoDupsRemoveRight(NormalizeName, standard, special, index);
    }
  }

  /** The `dupWithin` loop: every key, across standard then special, that was already
      seen, once per repeated occurrence. */
  method DupWithin(standard: seq<string>, special: seq<string>) returns (dups: seq<string>)
    ensures dups == Dups(NormalizedAll(standard + special))
    ensures multiset(dups) + multiset(Dedup(NormalizedAll(standard + special))) == multiset(NormalizedAll(standard + special))
  {
    var names := NormalizedAll(standard + special);
    var seen: set<string> := {};
    dups := [];
    for i := 0 to |names|
      invariant dups == Dups(names[..i])
      invariant forall x :: x in seen <==> x in names[..i]
    {
      DupsStep(names, i);
      var n := names[i];
      if n in seen {
        dups := dups + [n];
      }
      seen := seen + {n};
    }
    assert names[..|names|] == names;
    DupsCounts(names);
  }

  /** No duplicate is reported exactly when the keys are distinct. */
  lemma DupWithinEmptyIff(standard: seq<string>, special: seq<string>)
    ensures Dups(NormalizedAll(standard + special)) == [] <==> KeysDistinct(standard, special)
  {
    DupsEmptyIff(NormalizedAll(standard + special));
  }

  /** The editor's state: the title and the two ingredient lists being edited. */
  class Editor {
    var title: string
    var standard: seq<string>
    var special: seq<string>

    /** The editor opened on a recipe. */
    constructor (value: Recipe)
      ensures title == value.title && standard == value.standard && special == value.special
    {
      title, standard, special := value.title, value.standard, value.special;
    }

    /** The recipe `onChange` receives: `{ ...value, title, standard, special }`. */
    function Edited(value: Recipe): Recipe
      reads this
    {
      value.(title := title, standard := standard, special := special)
    }

    method SetTitle(t: string)
      modifies this`title
      ensures title == t
    {
      title := t;
    }

    /** `handleAddStandard` */
    method AddStandard(input: string)
      modifies this`standard
      ensures standard == AddedTo(old(standard), special, input)
      ensures old(KeysDistinct(standard, special)) ==> KeysDistinct(standard, special)
    {
      var name := Trim(input);
      var norm := NormalizeName(name);
      NormalizeTrim(input);
      if norm == "" {
        return;
      }
      if HasKey(standard, norm) || HasKey(special, norm) {
        return;
      }
      if KeysDistinct(standard, special) {
        AddStandardKeepsKeysDistinct(standard, special, input);
      }
      standard := standard + [name];
    }

    /** `handleAddSpecial` */
    method AddSpecial(input: string)
      modifies this`special
      ensures special == AddedTo(old(special), standard, input)
      ensures old(KeysDistinct(standard, special)) ==> KeysDistinct(standard, special)
    {
      var name := Trim(input);
      var norm := NormalizeName(name);
      NormalizeTrim(input);
      if norm == "" {
        return;
      }
      if HasKey(special, norm) || HasKey(standard, norm) {
        return;
      }
      if KeysDistinct(standard, special) {
        AddSpecialKeepsKeysDistinct(standard, special, input);
      }
      special := special + [name];
    }

    /** `removeAt(section, index)` */
    method RemoveAt(section: Section, index: int)
      modifies this`standard, this`special
      ensures section == Standard ==> standard == RemovedAt(old(standard), index) && special == old(special)
      ensures section == Special ==> special == RemovedAt(old(special), index) && standard == old(standard)
      ensures old(KeysDistinct(standard, special)) ==> KeysDistinct(standard, special)
    {
      if KeysDistinct(standard, special) {
        RemoveKeepsKeysDistinct(standard, special, index);
      }
      if section == Standard {
        standard := RemovedAt(standard, index);
      } else {
        special := RemovedAt(special, index);
      }
    }

    /** `moveUp(section, index)` on the index of a shown name. */
    method MoveUp(section: Section, index: nat)
      requires index < |if section == Standard then standard else special|
      modifies this`standard, this`special
      ensures section == Standard ==> standard == MovedUp(old(standard), index) && special == old(special)
      ensures section == Special ==> special == MovedUp(old(special), index) && standard == old(standard)
      ensures old(KeysDistinct(standard, special)) ==> KeysDistinct(standard, special)
    {
      if section == Standard {
        var moved := MovedUp(standard, index);
        if index > 0 {
          if KeysDistinct(standard, special) {
            SwapStandardKeepsKeysDistinct(standard, special, index - 1, index);
          }
          standard := moved;
        } else {
          assert moved == standard;
        }
      } else {
        var moved := MovedUp(special, index);
        if index > 0 {
          if KeysDistinct(standard, special) {
            SwapSpecialKeepsKeysDistinct(standard, special, index - 1, index);
          }
          special := moved;
        } else {
          assert moved == special;
        }
      }
    }

    /** `moveDown(section, index)` on the index of a shown name. */
    method MoveDown(section: Section, index: nat)
      requires index < |if section == Standard then standard else special|
      modifies this`standard, this`special
      ensures section == Standard ==> standard == MovedDown(old(standard), index) && special == old(special)
      ensures section == Special ==> special == MovedDown(old(special), index) && standard == old(standard)
      ensures old(KeysDistinct(standard, special)) ==> KeysDistinct(standard, special)
    {
      if section == Standard {
        var moved := MovedDown(standard, index);
        if index + 1 < |standard| {
          if KeysDistinct(standard, special) {
            SwapStandardKeepsKeysDistinct(standard, special, index, index + 1);
          }
          standard := moved;
        } else {
          assert moved == standard;
        }
      } else {
        var moved := MovedDown(special, index);
        if index + 1 < |special| {
          if KeysDistinct(standard, special) {
            SwapSpecialKeepsKeysDistinct(standard, special, index, index + 1);
          }
          special := moved;
        } else {
          assert moved == special;
        }
      }
    }
  }
}
