/** Ingredient names (src/utils/normalization.ts): the lookup key of a free-text name,
    a title-cased fallback display form, and the choice of one display spelling among
    the raw spellings seen for a key. */
module Normalization {
  import opened Text
  import opened Seqs

  /** `normalizeName`: trim, then lower-case. The key has no surrounding whitespace
      and no upper-case letter. */
  function NormalizeName(s: string): (r: string)
    ensures HasNoPadding(r)
    ensures forall i :: 0 <= i < |r| ==> !IsUpper(r[i])
    ensures |r| <= |s|
  {
    LowerStr(Trim(s))
  }

  /** Normalizing a key gives the key back. */
  lemma NormalizeNameIdempotent(s: string)
    ensures NormalizeName(NormalizeName(s)) == NormalizeName(s)
  {
    var k := NormalizeName(s);
    TrimOfUnpadded(k);
    assert LowerStr(k) == k;
  }

  /** Names that agree once lower-cased have the same key. */
  lemma NormalizeIgnoresCase(a: string, b: string)
    requires LowerStr(a) == LowerStr(b)
    ensures NormalizeName(a) == NormalizeName(b)
  {
    TrimStartSameCase(a, b);
    TrimEndSameCase(TrimStart(a), TrimStart(b));
  }

  /** Whitespace around a name does not change its key. */
  lemma NormalizeIgnoresPadding(pre: string, s: string, post: string)
    requires AllSpace(pre) && AllSpace(post)
    ensures NormalizeName(pre + s + post) == NormalizeName(s)
  {
    TrimIgnoresPadding(pre, s, post);
  }

  lemma LowerFlour()
    ensures NormalizeName("Flour") == "flour"
  {
    TrimOfUnpadded("Flour");
    var l := LowerStr("Flour");
    assert l[0] == 'f' && l[1] == 'l' && l[2] == 'o' && l[3] == 'u' && l[4] == 'r';
  }

  lemma PaddedFlour()
    ensures NormalizeName("  Flour ") == NormalizeName("Flour")
  {
    assert "  Flour " == "  " + "Flour" + " ";
    NormalizeIgnoresPadding("  ", "Flour", " ");
  }

  /** "  Flour " has the key "flour". */
  lemma NormalizeFlourExample()
    ensures NormalizeName("  Flour ") == "flour"
  {
    LowerFlour();
    PaddedFlour();
  }

  /** Trimming does not change the key of a name. */
  lemma NormalizeTrim(s: string)
    ensures NormalizeName(Trim(s)) == NormalizeName(s)
  {
    TrimOfUnpadded(Trim(s));
  }

  /** `names.map(normalizeName)`: the keys of a list of names, in order. */
  function NormalizedAll(names: seq<string>): (r: seq<string>)
    ensures |r| == |names|
    ensures forall i :: 0 <= i < |r| ==> r[i] == NormalizeName(names[i])
  {
    Map(NormalizeName, names)
  }

  /** `isBlank`: the name has no key, which is exactly when it consists of whitespace
      only. */
  predicate IsBlank(s: string): (b: bool)
    ensures b <==> AllSpace(s)
  {
    var t := TrimStart(s);
    assert t != [] ==> t[0] == s[|s| - |t|] && TrimEnd(t) != [];
    NormalizeName(s) == ""
  }

  // ---------------------------------------------------------------------------
  // Title case

  predicate NoSpace(w: string) {
    forall i :: 0 <= i < |w| ==> !IsSpace(w[i])
  }

  /** `s.split(/\s+/)`, continuing a word `cur` already begun: the pieces between
      maximal runs of whitespace; a run at either end yields an empty piece. */
  function SplitWordsFrom(s: string, cur: string): (r: seq<string>)
    ensures |r| >= 1
    decreases |s|
  {
    if |s| == 0 then [cur]
    else if IsSpace(s[0]) then [cur] + SplitWordsFrom(TrimStart(s[1..]), "")
    else SplitWordsFrom(s[1..], cur + [s[0]])
  }

  function SplitWords(s: string): seq<string> {
    SplitWordsFrom(s, "")
  }

  /** `s` with every maximal run of whitespace replaced by one plain space. */
  function Collapse(s: string): string
    decreases |s|
  {
    if |s| == 0 then []
    else if IsSpace(s[0]) then [' '] + Collapse(TrimStart(s[1..]))
    else [s[0]] + Collapse(s[1..])
  }

  /** The collapsed form is single-spaced, starts and ends with whitespace exactly when
      the string does, and holds no character but plain spaces and characters of `s`. */
  lemma {:induction false} CollapseFacts(s: string)
    ensures SingleSpaced(Collapse(s))
    ensures |Collapse(s)| > 0 <==> |s| > 0
    ensures |s| > 0 ==> (IsSpace(Collapse(s)[0]) <==> IsSpace(s[0]))
    ensures |s| > 0 ==> (IsSpace(Collapse(s)[|Collapse(s)| - 1]) <==> IsSpace(s[|s| - 1]))
    ensures forall i :: 0 <= i < |Collapse(s)| ==> Collapse(s)[i] == ' ' || Collapse(s)[i] in s
    decreases |s|
  {
    if |s| > 0 {
      var r := Collapse(s);
      if IsSpace(s[0]) {
        var t := TrimStart(s[1..]);
        var c := Collapse(t);
        CollapseFacts(t);
        assert r == [' '] + c;
        SingleSpacedCons(' ', c);
        if t == [] {
          assert IsSpace(s[|s| - 1]) by {
            if |s| > 1 {
              assert s[|s| - 1] == s[1..][|s| - 2];
            }
          }
        } else {
          assert t[|t| - 1] == s[|s| - 1];
        }
        forall i | 0 <= i < |r| ensures r[i] == ' ' || r[i] in s {
          if i > 0 {
            assert r[i] == c[i - 1];
            if c[i - 1] in t {
              var j :| 0 <= j < |t| && t[j] == c[i - 1];
              assert t[j] == s[|s| - |t| + j];
            }
          }
        }
      } else {
        var c := Collapse(s[1..]);
        CollapseFacts(s[1..]);
        assert r == [s[0]] + c;
        SingleSpacedCons(s[0], c);
        forall i | 0 <= i < |r| ensures r[i] == ' ' || r[i] in s {
          if i > 0 {
            assert r[i] == c[i - 1];
            if c[i - 1] in s[1..] {
              var j :| 0 <= j < |s[1..]| && s[1..][j] == c[i - 1];
              assert s[j + 1] == c[i - 1];
            }
          }
        }
      }
    }
  }

  lemma SingleSpacedCons(x: char, c: string)
    requires SingleSpaced(c)
    requires IsSpace(x) ==> x == ' ' && (|c| > 0 ==> !IsSpace(c[0]))
    ensures SingleSpaced([x] + c)
  {
    var r := [x] + c;
    forall i | 0 <= i < |r| && IsSpace(r[i]) ensures r[i] == ' ' && (i + 1 < |r| ==> !IsSpace(r[i + 1])) {
      if i > 0 {
        assert r[i] == c[i - 1];
      }
    }
  }

  /** Splitting on whitespace runs sees no difference between a string and its
      collapsed form. */
  lemma {:induction false} SplitWordsCollapse(s: string, cur: string)
    ensures SplitWordsFrom(Collapse(s), cur) == SplitWordsFrom(s, cur)
    decreases |s|
  {
    if |s| > 0 {
      var c := Collapse(s);
      if IsSpace(s[0]) {
        var t := TrimStart(s[1..]);
        assert c[1..] == Collapse(t);
        CollapseFacts(t);
        assert TrimStart(c[1..]) == c[1..];
        SplitWordsCollapse(t, "");
      } else {
        assert c[1..] == Collapse(s[1..]);
        SplitWordsCollapse(s[1..], cur + [s[0]]);
      }
    }
  }

  /** Upper-cases the first character of a word and keeps the rest. */
  function Capitalize(w: string): string {
    if |w| > 0 then [Upper(w[0])] + w[1..] else w
  }

  /** `titleCaseFromNormalized`: split on whitespace runs, capitalize every word, join
      with single spaces. */
  function TitleCaseFromNormalized(norm: string): string {
    var words := SplitWords(norm);
    JoinWith(seq(|words|, i requires 0 <= i < |words| => Capitalize(words[i])), ' ')
  }

  /** Every whitespace character is a plain space and no two are adjacent. */
  predicate SingleSpaced(s: string) {
    forall i :: 0 <= i < |s| && IsSpace(s[i]) ==> s[i] == ' ' && (i + 1 < |s| ==> !IsSpace(s[i + 1]))
  }

  /** The word-initial position test: `i` starts a word of `s`. */
  predicate StartsWord(s: string, i: int)
    requires 0 <= i < |s|
  {
    !IsSpace(s[i]) && (i == 0 || IsSpace(s[i - 1]))
  }

  /** A character-by-character reference for title-casing a single-spaced string:
      a character is upper-cased when it follows whitespace (or `atStart`). */
  function CapitalizeAfterSpace(s: string, atStart: bool): (r: string)
    ensures |r| == |s|
  {
    if |s| == 0 then []
    else [if atStart && !IsSpace(s[0]) then Upper(s[0]) else s[0]] + CapitalizeAfterSpace(s[1..], IsSpace(s[0]))
  }

  lemma {:induction false} CapitalizeAfterSpaceAt(s: string, atStart: bool, i: int)
    requires 0 <= i < |s|
    ensures CapitalizeAfterSpace(s, atStart)[i]
         == if (if i == 0 then atStart else IsSpace(s[i - 1])) && !IsSpace(s[i]) then Upper(s[i]) else s[i]
  {
    if i > 0 {
      CapitalizeAfterSpaceAt(s[1..], IsSpace(s[0]), i - 1);
    }
  }

  function CapitalizeAll(words: seq<string>): (r: seq<string>)
    ensures |r| == |words|
  {
    seq(|words|, i requires 0 <= i < |words| => Capitalize(words[i]))
  }

  lemma JoinCons(w: string, rest: seq<string>, sep: char)
    requires |rest| >= 1
    ensures JoinWith([w] + rest, sep) == w + [sep] + JoinWith(rest, sep)
  {
    assert ([w] + rest)[1..] == rest;
  }

  /** Splitting a single-spaced string into words, capitalizing and joining with
      single spaces agrees with the character-by-character reference. */
  lemma {:induction false} TitleCaseFromReference(s: string, cur: string)
    requires SingleSpaced(s) && NoSpace(cur)
    ensures JoinWith(CapitalizeAll(SplitWordsFrom(s, cur)), ' ')
         == Capitalize(cur) + CapitalizeAfterSpace(s, cur == "")
    decreases |s|
  {
    if |s| == 0 {
      assert CapitalizeAll([cur]) == [Capitalize(cur)];
      AppendEmpty(Capitalize(cur));
    } else {
      SingleSpacedTail(s);
      if IsSpace(s[0]) {
        TitleCaseFromReference(s[1..], "");
        TitleCaseSpaceStep(s, cur);
      } else {
        TitleCaseFromReference(s[1..], cur + [s[0]]);
        TitleCaseWordStep(s, cur);
      }
    }
  }

  lemma SingleSpacedTail(s: string)
    requires SingleSpaced(s) && |s| > 0
    ensures SingleSpaced(s[1..])
    ensures IsSpace(s[0]) ==> s[0] == ' ' && TrimStart(s[1..]) == s[1..]
  {
    var tail := s[1..];
    forall i | 0 <= i < |tail| && IsSpace(tail[i])
      ensures tail[i] == ' ' && (i + 1 < |tail| ==> !IsSpace(tail[i + 1]))
    {
      assert tail[i] == s[i + 1];
    }
  }

  lemma TitleCaseSpaceStep(s: string, cur: string)
    requires |s| > 0 && s[0] == ' ' && TrimStart(s[1..]) == s[1..]
    requires JoinWith(CapitalizeAll(SplitWordsFrom(s[1..], "")), ' ') == Capitalize("") + CapitalizeAfterSpace(s[1..], true)
    ensures JoinWith(CapitalizeAll(SplitWordsFrom(s, cur)), ' ') == Capitalize(cur) + CapitalizeAfterSpace(s, cur == "")
  {
    var rest := SplitWordsFrom(s[1..], "");
    var tail := CapitalizeAfterSpace(s[1..], true);
    assert SplitWordsFrom(s, cur) == [cur] + rest;
    CapitalizeAllCons(cur, rest);
    JoinCons(Capitalize(cur), CapitalizeAll(rest), ' ');
    assert Capitalize("") == [];
    PrependEmpty(tail);
    assert CapitalizeAfterSpace(s, cur == "") == [' '] + tail;
    AppendAssoc(Capitalize(cur), [' '], tail);
  }

  lemma CapitalizeAllCons(w: string, rest: seq<string>)
    ensures CapitalizeAll([w] + rest) == [Capitalize(w)] + CapitalizeAll(rest)
  {
  }

  lemma TitleCaseWordStep(s: string, cur: string)
    requires |s| > 0 && !IsSpace(s[0])
    requires JoinWith(CapitalizeAll(SplitWordsFrom(s[1..], cur + [s[0]])), ' ')
          == Capitalize(cur + [s[0]]) + CapitalizeAfterSpace(s[1..], false)
    ensures JoinWith(CapitalizeAll(SplitWordsFrom(s, cur)), ' ') == Capitalize(cur) + CapitalizeAfterSpace(s, cur == "")
  {
    var c := if cur == "" then Upper(s[0]) else s[0];
    assert CapitalizeAfterSpace(s, cur == "") == [c] + CapitalizeAfterSpace(s[1..], false);
    if cur == "" {
      assert Capitalize(cur + [s[0]]) == [c];
      assert Capitalize(cur) == [];
    } else {
      assert (cur + [s[0]])[1..] == cur[1..] + [s[0]];
      assert Capitalize(cur + [s[0]]) == Capitalize(cur) + [c];
    }
    AppendAssoc(Capitalize(cur), [c], CapitalizeAfterSpace(s[1..], false));
  }

  /** On a single-spaced name the title case has the same length, upper-cases exactly
      the first character of each word and keeps every other character. */
  lemma TitleCaseAt(s: string)
    requires SingleSpaced(s)
    ensures |TitleCaseFromNormalized(s)| == |s|
    ensures forall i :: 0 <= i < |s| ==>
      TitleCaseFromNormalized(s)[i] == if StartsWord(s, i) then Upper(s[i]) else s[i]
  {
    TitleCaseFromReference(s, "");
    assert TitleCaseFromNormalized(s) == CapitalizeAfterSpace(s, true);
    forall i | 0 <= i < |s|
      ensures TitleCaseFromNormalized(s)[i] == if StartsWord(s, i) then Upper(s[i]) else s[i]
    {
      CapitalizeAfterSpaceAt(s, true, i);
    }
  }

  /** On any name the title case is that of its collapsed form: single-spaced, as long
      as the collapsed form, with the first character of each of its words upper-cased
      and every other character kept. */
  lemma TitleCaseAtCollapsed(s: string)
    ensures TitleCaseFromNormalized(s) == TitleCaseFromNormalized(Collapse(s))
    ensures SingleSpaced(TitleCaseFromNormalized(s))
    ensures |TitleCaseFromNormalized(s)| == |Collapse(s)|
    ensures forall i :: 0 <= i < |Collapse(s)| ==>
      TitleCaseFromNormalized(s)[i] == if StartsWord(Collapse(s), i) then Upper(Collapse(s)[i]) else Collapse(s)[i]
  {
    var c := Collapse(s);
    CollapseFacts(s);
    SplitWordsCollapse(s, "");
    TitleCaseAt(c);
    var t := TitleCaseFromNormalized(c);
    forall i | 0 <= i < |t| ensures IsSpace(t[i]) <==> IsSpace(c[i]) {
      UpperKeepsSpace(c[i]);
    }
  }

  lemma UpperKeepsSpace(c: char)
    ensures IsSpace(Upper(c)) <==> IsSpace(c)
  {
  }

  /** UpperThenLower: lower-casing undoes upper-casing on a character that is not
      upper-case. */
  lemma UpperThenLower(c: char)
    requires !IsUpper(c)
    ensures Lower(Upper(c)) == c
    ensures IsSpace(Upper(c)) <==> IsSpace(c)
  {
  }

  /** A single-spaced key is recovered by lower-casing its title case, so the fallback
      display name of such a key normalizes back to that key. */
  lemma TitleCaseLowersBack(k: string)
    requires SingleSpaced(k) && HasNoPadding(k)
    requires forall i :: 0 <= i < |k| ==> !IsUpper(k[i])
    ensures NormalizeName(TitleCaseFromNormalized(k)) == k
  {
    var t := TitleCaseFromNormalized(k);
    TitleCaseAt(k);
    forall i | 0 <= i < |k| ensures Lower(t[i]) == k[i] && (IsSpace(t[i]) <==> IsSpace(k[i])) {
      UpperThenLower(k[i]);
    }
    LowersTo(t, k);
  }

  /** For the key of any name, normalizing the fallback display name gives the key
      with its inner whitespace runs collapsed to single spaces. */
  lemma TitleCaseLowersToCollapsed(name: string)
    ensures NormalizeName(TitleCaseFromNormalized(NormalizeName(name))) == Collapse(NormalizeName(name))
  {
    var k := NormalizeName(name);
    var c := Collapse(k);
    CollapseFacts(k);
    SplitWordsCollapse(k, "");
    assert TitleCaseFromNormalized(k) == TitleCaseFromNormalized(c);
    assert HasNoPadding(c);
    forall i | 0 <= i < |c| ensures !IsUpper(c[i]) {
      if c[i] != ' ' {
        var j :| 0 <= j < |k| && k[j] == c[i];
      }
    }
    TitleCaseLowersBack(c);
  }

  /** A string that lower-cases to an unpadded key character by character has that
      key as its normalization. */
  lemma LowersTo(t: string, k: string)
    requires HasNoPadding(k) && |t| == |k|
    requires forall i :: 0 <= i < |k| ==> Lower(t[i]) == k[i] && (IsSpace(t[i]) <==> IsSpace(k[i]))
    ensures NormalizeName(t) == k
  {
    assert HasNoPadding(t);
    TrimOfUnpadded(t);
    assert LowerStr(t) == k;
  }

  lemma TitleCaseFlour(k: string)
    requires k == "flour"
    ensures TitleCaseFromNormalized(k) == "Flour"
  {
    TitleCaseAt(k);
    var t := TitleCaseFromNormalized(k);
    assert StartsWord(k, 0);
    assert t[0] == 'F';
    assert forall i :: 1 <= i < 5 ==> !StartsWord(k, i);
    assert t[1] == 'l' && t[2] == 'o' && t[3] == 'u' && t[4] == 'r';
  }

  lemma TitleCaseBrownSugar(k: string)
    requires k == "brown sugar"
    ensures TitleCaseFromNormalized(k) == "Brown Sugar"
  {
    assert SingleSpaced(k) by {
      forall i | 0 <= i < |k| && IsSpace(k[i]) ensures k[i] == ' ' && (i + 1 < |k| ==> !IsSpace(k[i + 1])) {
        assert i == 5;
      }
    }
    TitleCaseAt(k);
    var t := TitleCaseFromNormalized(k);
    assert StartsWord(k, 0) && StartsWord(k, 6);
    assert t[0] == 'B' && t[1] == 'r' && t[2] == 'o' && t[3] == 'w' && t[4] == 'n' && t[5] == ' ';
    assert t[6] == 'S' && t[7] == 'u' && t[8] == 'g' && t[9] == 'a' && t[10] == 'r';
  }

  /** Title case of keys: "flour" shows as "Flour", "brown sugar" as "Brown Sugar". */
  lemma TitleCaseExamples()
    ensures TitleCaseFromNormalized("flour") == "Flour"
    ensures TitleCaseFromNormalized("brown sugar") == "Brown Sugar"
  {
    TitleCaseFlour("flour");
    TitleCaseBrownSugar("brown sugar");
  }

  // ---------------------------------------------------------------------------
  // Display name

  /** How often each raw spelling occurs: the `counts` map of `chooseDisplayName`. */
  function CountsOf(variants: seq<string>): (m: map<string, nat>)
    ensures forall v :: v in m <==> v in variants
    ensures forall v :: v in m ==> m[v] == multiset(variants)[v]
  {
    if |variants| == 0 then map[]
    else
      var init, last := variants[..|variants| - 1], variants[|variants| - 1];
      assert variants == init + [last];
      var m := CountsOf(init);
      m[last := (if last in m then m[last] else 0) + 1]
  }

  function Count(counts: map<string, nat>, v: string): nat {
    if v in counts then counts[v] else 0
  }

  /** The comparator of `chooseDisplayName`: `a` sorts before `b` when it occurs more
      often, or as often and is longer, or as often, as long and smaller as a string. */
  predicate Before(a: string, b: string, counts: map<string, nat>) {
    var ca, cb := Count(counts, a), Count(counts, b);
    ca > cb || (ca == cb && (|a| > |b| || (|a| == |b| && LexLess(a, b))))
  }

  lemma BeforeIrreflexive(a: string, counts: map<string, nat>)
    ensures !Before(a, a, counts)
  {
    LexLessIrreflexive(a);
  }

  lemma BeforeTransitive(a: string, b: string, c: string, counts: map<string, nat>)
    requires Before(a, b, counts) && Before(b, c, counts)
    ensures Before(a, c, counts)
  {
    if Count(counts, a) == Count(counts, b) == Count(counts, c) && |a| == |b| == |c| {
      LexLessTransitive(a, b, c);
    }
  }

  lemma BeforeTotal(a: string, b: string, counts: map<string, nat>)
    requires a != b
    ensures Before(a, b, counts) || Before(b, a, counts)
  {
    LexLessTotal(a, b);
  }

  lemma BestStep(init: seq<string>, b: string, last: string, counts: map<string, nat>)
    requires forall v :: v in init ==> !Before(v, b, counts)
    requires Before(last, b, counts)
    ensures forall v :: v in init + [last] ==> !Before(v, last, counts)
  {
    BeforeIrreflexive(last, counts);
    forall v | v in init ensures !Before(v, last, counts) {
      if Before(v, last, counts) {
        BeforeTransitive(v, last, b, counts);
      }
    }
  }

  /** The first entry once the candidates are sorted by the comparator: the candidate
      no other candidate sorts before. */
  function Best(cands: seq<string>, counts: map<string, nat>): (r: string)
    requires |cands| > 0
    ensures r in cands
    ensures forall v :: v in cands ==> !Before(v, r, counts)
  {
    if |cands| == 1 then
      BeforeIrreflexive(cands[0], counts);
      cands[0]
    else
      var init, last := cands[..|cands| - 1], cands[|cands| - 1];
      assert cands == init + [last];
      var b := Best(init, counts);
      if Before(last, b, counts) then
        BestStep(init, b, last, counts);
        last
      else
        b
  }

  /** Only one candidate is sorted before by no other. */
  lemma TopIsUnique(cands: seq<string>, x: string, y: string, counts: map<string, nat>)
    requires x in cands && y in cands
    requires forall v :: v in cands ==> !Before(v, x, counts)
    requires forall v :: v in cands ==> !Before(v, y, counts)
    ensures x == y
  {
    if x != y {
      BeforeTotal(x, y, counts);
    }
  }

  /** `chooseDisplayName(norm, variants)`: with no variant, the title case of the key;
      otherwise the variant with the most occurrences, ties going to the longest and
      then to the smallest string. */
  function DisplayName(norm: string, variants: seq<string>): (r: string)
    ensures variants == [] ==> r == TitleCaseFromNormalized(norm)
    ensures variants != [] ==> r in variants
    ensures forall v :: v in variants ==>
      && multiset(variants)[v] <= multiset(variants)[r]
      && (multiset(variants)[v] == multiset(variants)[r] ==> |v| <= |r|)
      && (multiset(variants)[v] == multiset(variants)[r] && |v| == |r| && v != r ==> LexLess(r, v))
  {
    if |variants| == 0 then TitleCaseFromNormalized(norm)
    else
      var counts := CountsOf(variants);
      var r := Best(Dedup(variants), counts);
      assert forall v :: v in variants ==> !Before(v, r, counts);
      assert forall v :: v in variants ==> Count(counts, v) == multiset(variants)[v];
      DisplayNameRanks(variants, r, counts);
      r
  }

  lemma DisplayNameRanks(variants: seq<string>, r: string, counts: map<string, nat>)
    requires r in variants
    requires forall v :: v in variants ==> !Before(v, r, counts)
    requires forall v :: v in variants ==> Count(counts, v) == multiset(variants)[v]
    ensures forall v :: v in variants ==>
      && multiset(variants)[v] <= multiset(variants)[r]
      && (multiset(variants)[v] == multiset(variants)[r] ==> |v| <= |r|)
      && (multiset(variants)[v] == multiset(variants)[r] && |v| == |r| && v != r ==> LexLess(r, v))
  {
    forall v | v in variants
      ensures multiset(variants)[v] == multiset(variants)[r] && |v| == |r| && v != r ==> LexLess(r, v)
    {
      if v != r {
        BeforeTotal(v, r, counts);
      }
    }
  }

  /** The display name does not depend on the order in which the spellings were seen. */
  lemma DisplayNameOrderFree(norm: string, a: seq<string>, b: seq<string>)
    requires multiset(a) == multiset(b)
    ensures DisplayName(norm, a) == DisplayName(norm, b)
  {
    if a != [] {
      assert |a| == |multiset(a)| == |b|;
      var ra, rb := DisplayName(norm, a), DisplayName(norm, b);
      var counts := CountsOf(a);
      assert forall v :: v in a <==> v in b by {
        forall v ensures v in a <==> v in b {
          assert v in a <==> v in multiset(a);
          assert v in b <==> v in multiset(b);
        }
      }
      forall v | v in a ensures !Before(v, ra, counts) && !Before(v, rb, counts) {
        if v != ra { BeforeTotal(v, ra, counts); }
        if v != rb { BeforeTotal(v, rb, counts); }
      }
      TopIsUnique(a, ra, rb, counts);
    }
  }

  lemma DisplayNameOfFlours(a: string, b: string, c: string)
    requires a == "flour" && b == "Flour" && c == "FLOUR"
    ensures DisplayName(a, [a, b, c, b]) == b
  {
    var vs := [a, b, c, b];
    assert a != b && c != b && a != c by {
      assert a[0] != b[0] && c[1] != b[1] && a[0] != c[0];
    }
    assert multiset(vs)[b] == 2;
    assert multiset(vs)[a] == 1;
    assert multiset(vs)[c] == 1;
  }

  /** The most common spelling wins: ['flour', 'Flour', 'FLOUR', 'Flour'] gives 'Flour'. */
  lemma DisplayNameFlourExample()
    ensures DisplayName("flour", ["flour", "Flour", "FLOUR", "Flour"]) == "Flour"
  {
    DisplayNameOfFlours("flour", "Flour", "FLOUR");
  }

  /** The `chooseDisplayName` procedure: count the spellings in a map, then take the
      first entry of the comparator sort. */
  /** Counting one more variant: its count goes up by one, and it joins the distinct
      variants if it is new. */
  lemma TallyVariantStep(variants: seq<string>, i: nat)
    requires i < |variants|
    ensures var v := variants[i];
      var counts := CountsOf(variants[..i]);
      CountsOf(variants[..i + 1]) == counts[v := (if v in counts then counts[v] else 0) + 1]
      && (v in counts <==> v in variants[..i])
      && Dedup(variants[..i + 1]) == if v in variants[..i] then Dedup(variants[..i]) else Dedup(variants[..i]) + [variants[i]]
  {
    PrefixStep(variants, i);
  }

  /** The counting loop of `chooseDisplayName`: how often each variant occurs, and the
      variants in order of first occurrence. */
  method TallyVariants(variants: seq<string>) returns (counts: map<string, nat>, entries: seq<string>)
    ensures counts == CountsOf(variants)
    ensures entries == Dedup(variants)
  {
    counts := map[];
    entries := [];
    for i := 0 to |variants|
      invariant counts == CountsOf(variants[..i])
      invariant entries == Dedup(variants[..i])
    {
      var v := variants[i];
      TallyVariantStep(variants, i);
      if v !in counts {
        entries := entries + [v];
      }
      counts := counts[v := (if v in counts then counts[v] else 0) + 1];
    }
    assert variants[..|variants|] == variants;
  }

  method ChooseDisplayName(norm: string, variants: seq<string>) returns (name: string)
    ensures name == DisplayName(norm, variants)
  {
    if |variants| == 0 {
      return TitleCaseFromNormalized(norm);
    }
    var counts, entries := TallyVariants(variants);
    name := Best(entries, counts);
  }
}
