/** The recipe list (src/components/RecipeList.tsx): the title search, the "This week"
    checkbox that selects a recipe for the grocery list, and the warning shown on save
    when another recipe already has the same title. */
module RecipeList {
  import opened Seqs
  import opened Text
  import opened Normalization
  import opened Types

  /** The search test for one recipe: its lower-cased title contains the query key. */
  predicate TitleMatches(r: Recipe, nq: string) {
    Contains(LowerStr(r.title), nq)
  }

  /** `filtered`: a blank query shows every recipe; otherwise the recipes whose
      lower-cased title contains the trimmed, lower-cased query, in list order. */
  function Filtered(recipes: seq<Recipe>, q: string): (r: seq<Recipe>)
    ensures NormalizeName(q) == "" ==> r == recipes
    ensures NormalizeName(q) != "" ==>
      && IsSubseq(r, recipes)
      && (forall x :: x in r <==> x in recipes && Contains(LowerStr(x.title), NormalizeName(q)))
      && forall x :: multiset(r)[x] == if Contains(LowerStr(x.title), NormalizeName(q)) then multiset(recipes)[x] else 0
  {
    var nq := NormalizeName(q);
    if nq == "" then recipes
    else
      var keep := (x: Recipe) => TitleMatches(x, nq);
      FilterCounts(recipes, keep);
      Filter(recipes, keep)
  }

  /** The search does not care about the case of the query. */
  lemma FilteredIgnoresCase(recipes: seq<Recipe>, q1: string, q2: string)
    requires LowerStr(q1) == LowerStr(q2)
    ensures Filtered(recipes, q1) == Filtered(recipes, q2)
  {
    NormalizeIgnoresCase(q1, q2);
  }

  /** Nor about whitespace around it. */
  lemma FilteredIgnoresPadding(recipes: seq<Recipe>, pre: string, q: string, post: string)
    requires AllSpace(pre) && AllSpace(post)
    ensures Filtered(recipes, pre + q + post) == Filtered(recipes, q)
  {
    NormalizeIgnoresPadding(pre, q, post);
  }

  /** Typing more of a title only narrows the results: when the longer query's key
      contains the shorter one's, its results are the shorter query's results with some
      left out, in the same order. */
  lemma FilteredNarrows(recipes: seq<Recipe>, q1: string, q2: string)
    requires NormalizeName(q1) != ""
    requires Contains(NormalizeName(q2), NormalizeName(q1))
    ensures IsSubseq(Filtered(recipes, q2), Filtered(recipes, q1))
    ensures Filtered(recipes, q2) == Filter(Filtered(recipes, q1), (x: Recipe) => TitleMatches(x, NormalizeName(q2)))
  {
    var nq1, nq2 := NormalizeName(q1), NormalizeName(q2);
    var p := (x: Recipe) => TitleMatches(x, nq1);
    var q := (x: Recipe) => TitleMatches(x, nq2);
    forall x: Recipe | q(x)
      ensures p(x)
    {
      ContainsTransitive(LowerStr(x.title), nq2, nq1);
    }
    FilterNarrower(recipes, p, q);
  }

  /** The checkbox handler: a selected recipe is dropped from the selection, any other
      is appended. Through `setSelectedRecipeIds`, which removes repeats, the recipe is
      selected afterwards exactly when it was not before, every other recipe keeps its
      state, and a selection without repeats ends up exactly as toggled. A selection
      with repeats (a saved list may hold some) loses every copy of a selected id. */
  lemma ToggleSelection(selected: seq<string>, id: string)
    ensures NoDups(selected) ==> Dedup(Toggle(selected, id)) == Toggle(selected, id)
    ensures id in Dedup(Toggle(selected, id)) <==> id !in selected
    ensures forall other :: other != id ==> (other in Dedup(Toggle(selected, id)) <==> other in selected)
  {
    if NoDups(selected) {
      DedupOfNoDups(Toggle(selected, id));
    }
  }

  /** Whether a recipe other than `id` has the title key `norm` (`recipes.some(...)`). */
  function SomeOtherHasTitle(recipes: seq<Recipe>, id: string, norm: string): (b: bool)
    ensures b <==> exists r :: r in recipes && r.id != id && NormalizeName(r.title) == norm
  {
    if |recipes| == 0 then false
    else
      var init, last := recipes[..|recipes| - 1], recipes[|recipes| - 1];
      assert recipes == init + [last];
      (last.id != id && NormalizeName(last.title) == norm) || SomeOtherHasTitle(init, id, norm)
  }

  /** The save warning: the edited recipe's title is not blank and another recipe has
      the same trimmed, lower-cased title. */
  function DuplicateTitle(recipes: seq<Recipe>, editing: Recipe): (dup: bool)
    ensures dup <==> (NormalizeName(editing.title) != "" &&
      exists r :: r in recipes && r.id != editing.id && NormalizeName(r.title) == NormalizeName(editing.title))
  {
    var norm := NormalizeName(editing.title);
    SomeOtherHasTitle(recipes, editing.id, norm) && norm != ""
  }

  /** Two recipes of the list whose titles differ only in case and surrounding
      whitespace warn about each other. */
  lemma DuplicateTitleSymmetric(recipes: seq<Recipe>, a: Recipe, b: Recipe)
    requires a in recipes && b in recipes && a.id != b.id
    requires NormalizeName(a.title) == NormalizeName(b.title) != ""
    ensures DuplicateTitle(recipes, a) && DuplicateTitle(recipes, b)
  {
  }

  /** An untitled recipe never warns, and neither does a recipe whose title key no other
      recipe shares. */
  lemma NoDuplicateWarning(recipes: seq<Recipe>, editing: Recipe)
    requires NormalizeName(editing.title) == "" ||
      forall r :: r in recipes && r.id != editing.id ==> NormalizeName(r.title) != NormalizeName(editing.title)
    ensures !DuplicateTitle(recipes, editing)
  {
  }

  lemma LowerSoup()
    ensures NormalizeName("Soup") == "soup"
  {
    TrimOfUnpadded("Soup");
    var l := LowerStr("Soup");
    assert l[0] == 's' && l[1] == 'o' && l[2] == 'u' && l[3] == 'p';
  }

  lemma PaddedSoup()
    ensures NormalizeName(" Soup ") == NormalizeName("Soup")
  {
    assert " Soup " == " " + "Soup" + " ";
    NormalizeIgnoresPadding(" ", "Soup", " ");
  }

  lemma SoupKey()
    ensures NormalizeName("soup") == "soup"
  {
    NormalizeIgnoresCase("soup", "Soup");
    LowerSoup();
  }

  /** A concrete case: saving " Soup " warns when another recipe is called "soup". */
  lemma DuplicateTitleExample()
    ensures DuplicateTitle([Recipe("a", "soup", [], [], "", "")], Recipe("b", " Soup ", [], [], "", ""))
  {
    LowerSoup();
    PaddedSoup();
    SoupKey();
    var taken := Recipe("a", "soup", [], [], "", "");
    assert taken in [taken];
  }
}
