/** Sequence operations standing for the JavaScript array idioms the grocery code
    uses: `filter`, `includes`/`push` de-duplication, `[...new Set(xs)]`, and the
    "remove if present, else append" toggle. */
module Seqs {

  datatype Option<+T> = None | Some(value: T) {
    /** `x ?? default` */
    function GetOr(default: T): T {
      if Some? then value else default
    }
  }

  /** The outcome of an action that may throw: `Fail` carries the error message. */
  datatype Outcome<+E> = Pass | Fail(error: E)

  /** `a` is obtained from `b` by deleting elements: order is kept, nothing is added. */
  predicate IsSubseq<T(==,!new)>(a: seq<T>, b: seq<T>) {
    if |a| == 0 then true
    else if |b| == 0 then false
    else if a[|a| - 1] == b[|b| - 1] then IsSubseq(a[..|a| - 1], b[..|b| - 1])
    else IsSubseq(a, b[..|b| - 1])
  }

  predicate NoDups<T(==,!new)>(s: seq<T>) {
    forall i, j :: 0 <= i < j < |s| ==> s[i] != s[j]
  }

  lemma NoDupsSnoc<T(!new)>(s: seq<T>, x: T)
    ensures NoDups(s + [x]) <==> NoDups(s) && x !in s
  {
    var t := s + [x];
    if NoDups(s) && x !in s {
      forall i, j | 0 <= i < j < |t| ensures t[i] != t[j] {
        if j == |s| { assert t[i] == s[i]; }
      }
    }
    if NoDups(t) {
      assert forall i, j :: 0 <= i < j < |s| ==> s[i] == t[i] && s[j] == t[j];
      forall k | 0 <= k < |s| ensures s[k] != x {
        assert t[k] == s[k] && t[|s|] == x;
      }
    }
  }

  lemma InitOfSnoc<T>(s: seq<T>, x: T)
    ensures (s + [x])[..|s|] == s
    ensures (s + [x])[|s|] == x
  {
  }

  lemma PrefixStep<T>(s: seq<T>, i: nat)
    requires i < |s|
    ensures s[..i + 1][..i] == s[..i]
    ensures s[..i + 1][i] == s[i]
    ensures |s[..i + 1]| == i + 1
  {
  }

  lemma AppendAssoc<T>(a: seq<T>, b: seq<T>, c: seq<T>)
    ensures a + (b + c) == (a + b) + c
  {
  }

  lemma AppendEmpty<T>(s: seq<T>)
    ensures s + [] == s
  {
  }

  lemma PrependEmpty<T>(s: seq<T>)
    ensures [] + s == s
  {
  }

  lemma InitOfAppend<T>(a: seq<T>, b: seq<T>)
    requires |b| > 0
    ensures (a + b)[..|a + b| - 1] == a + b[..|b| - 1]
    ensures (a + b)[|a + b| - 1] == b[|b| - 1]
  {
  }

  lemma AppendSlice<T>(done: seq<T>, more: seq<T>, j: nat)
    requires j < |more|
    ensures done + more[..j + 1] == (done + more[..j]) + [more[j]]
  {
    assert more[..j + 1] == more[..j] + [more[j]];
  }

  /** `s.filter(p)`. */
  function Filter<T(==,!new)>(s: seq<T>, p: T -> bool): (r: seq<T>)
    ensures |r| <= |s|
    ensures forall x :: x in r <==> x in s && p(x)
    ensures IsSubseq(r, s)
    ensures (forall x :: x in s ==> p(x)) ==> r == s
    ensures |r| == |s| ==> r == s
    ensures NoDups(s) ==> NoDups(r)
  {
    if |s| == 0 then []
    else
      var init, last := s[..|s| - 1], s[|s| - 1];
      assert s == init + [last];
      var rest := Filter(init, p);
      if p(last) then
        assert (rest + [last])[..|rest|] == rest;
        NoDupsSnoc(init, last);
        NoDupsSnoc(rest, last);
        rest + [last]
      else
        assert |rest| > 0 ==> rest[|rest| - 1] in rest;
        assert IsSubseq(rest, s) by { SubseqOfPrefix(rest, init, last); }
        rest
  }

  /** Filtering keeps every element that passes as often as it occurs, and no other. */
  lemma {:induction false} FilterCounts<T(!new)>(s: seq<T>, p: T -> bool)
    ensures forall x :: multiset(Filter(s, p))[x] == if p(x) then multiset(s)[x] else 0
  {
    if |s| > 0 {
      var init, last := s[..|s| - 1], s[|s| - 1];
      assert s == init + [last];
      FilterCounts(init, p);
    }
  }

  /** Filtering `s + [x]` filters `s` and keeps `x` when it passes. */
  lemma FilterSnoc<T(!new)>(s: seq<T>, x: T, p: T -> bool)
    ensures Filter(s + [x], p) == if p(x) then Filter(s, p) + [x] else Filter(s, p)
  {
    assert (s + [x])[..|s|] == s;
  }

  /** Filtering by a condition and then by a stronger one is filtering by the stronger
      one alone. */
  lemma {:induction false} FilterNarrower<T(!new)>(s: seq<T>, p: T -> bool, q: T -> bool)
    requires forall x :: q(x) ==> p(x)
    ensures Filter(Filter(s, p), q) == Filter(s, q)
  {
    if |s| > 0 {
      var init, last := s[..|s| - 1], s[|s| - 1];
      assert s == init + [last];
      FilterNarrower(init, p, q);
      if p(last) {
        FilterSnoc(Filter(init, p), last, q);
      }
    }
  }

  lemma SubseqOfPrefix<T(!new)>(a: seq<T>, b: seq<T>, x: T)
    requires IsSubseq(a, b)
    requires x !in a
    ensures IsSubseq(a, b + [x])
  {
    assert (b + [x])[..|b|] == b;
    if |a| > 0 {
      assert a[|a| - 1] in a;
    }
  }

  /** The elements of `s` with later repetitions dropped: every element is kept at its
      first occurrence, in the original order. This is what both the `includes`/`push`
      loop and `[...new Set(s)]` compute. */
  function Dedup<T(==,!new)>(s: seq<T>): (r: seq<T>)
    ensures NoDups(r)
    ensures forall x :: x in r <==> x in s
    ensures |r| <= |s|
  {
    if |s| == 0 then []
    else
      var init, last := s[..|s| - 1], s[|s| - 1];
      assert s == init + [last];
      var rest := Dedup(init);
      if last in init then rest
      else
        NoDupsSnoc(rest, last);
        rest + [last]
  }

  /** `s.indexOf(x)` for an element that occurs: its first position. */
  function IndexOf<T(==)>(s: seq<T>, x: T): (r: nat)
    requires x in s
    ensures r < |s| && s[r] == x
    ensures forall k :: 0 <= k < r ==> s[k] != x
  {
    if s[0] == x then 0 else 1 + IndexOf(s[1..], x)
  }

  lemma IndexOfSnoc<T>(s: seq<T>, last: T, x: T)
    requires x in s
    ensures IndexOf(s + [last], x) == IndexOf(s, x)
  {
    var t := s + [last];
    var a, b := IndexOf(t, x), IndexOf(s, x);
    assert t[b] == x;
  }

  /** De-duplication keeps every element at its first occurrence: the survivors come in
      the order of their first positions in `s`. */
  lemma {:induction false} DedupKeepsFirstOrder<T(!new)>(s: seq<T>)
    ensures forall i, j :: 0 <= i < j < |Dedup(s)| ==>
      IndexOf(s, Dedup(s)[i]) < IndexOf(s, Dedup(s)[j])
  {
    if |s| > 0 {
      var init, last := s[..|s| - 1], s[|s| - 1];
      assert s == init + [last];
      DedupKeepsFirstOrder(init);
      forall x | x in init ensures IndexOf(s, x) == IndexOf(init, x) {
        IndexOfSnoc(init, last, x);
      }
      if last !in init {
        NewLastComesLast(init, last, Dedup(init));
      }
    }
  }

  lemma NewLastComesLast<T(!new)>(init: seq<T>, last: T, rest: seq<T>)
    requires last !in init
    requires forall x :: x in rest ==> x in init
    requires forall x :: x in init ==> IndexOf(init + [last], x) == IndexOf(init, x)
    requires forall i, j :: 0 <= i < j < |rest| ==> IndexOf(init, rest[i]) < IndexOf(init, rest[j])
    ensures forall i, j :: 0 <= i < j < |rest + [last]| ==>
      IndexOf(init + [last], (rest + [last])[i]) < IndexOf(init + [last], (rest + [last])[j])
  {
    var s, r := init + [last], rest + [last];
    assert IndexOf(s, last) == |init|;
    forall i, j | 0 <= i < j < |r| ensures IndexOf(s, r[i]) < IndexOf(s, r[j]) {
      assert r[i] == rest[i] && r[i] in init;
      if j < |rest| { assert r[j] == rest[j]; }
    }
  }

  /** A list without repetitions is its own de-duplication. */
  lemma {:induction false} DedupOfNoDups<T(!new)>(s: seq<T>)
    requires NoDups(s)
    ensures Dedup(s) == s
  {
    if |s| > 0 {
      var init, last := s[..|s| - 1], s[|s| - 1];
      assert s == init + [last];
      NoDupsSnoc(init, last);
      DedupOfNoDups(init);
    }
  }

  /** De-duplicating twice is de-duplicating once. */
  lemma DedupIdempotent<T(!new)>(s: seq<T>)
    ensures Dedup(Dedup(s)) == Dedup(s)
  {
    DedupOfNoDups(Dedup(s));
  }

  /** The repeated occurrences of `s`: one entry for every occurrence of an element
      after its first one, in order. */
  function Dups<T(==,!new)>(s: seq<T>): (r: seq<T>)
    ensures |r| + |Dedup(s)| == |s|
    ensures forall x :: x in r ==> x in s
  {
    if |s| == 0 then []
    else
      var init, last := s[..|s| - 1], s[|s| - 1];
      Dups(init) + (if last in init then [last] else [])
  }

  /** The repeated occurrences and the de-duplicated list together hold every element
      exactly as often as `s` does. */
  lemma {:induction false} DupsCounts<T(!new)>(s: seq<T>)
    ensures multiset(Dups(s)) + multiset(Dedup(s)) == multiset(s)
  {
    if |s| > 0 {
      var init, last := s[..|s| - 1], s[|s| - 1];
      assert s == init + [last];
      DupsCounts(init);
    }
  }

  /** No repeated occurrence is reported exactly when the list has no repetitions. */
  lemma {:induction false} DupsEmptyIff<T(!new)>(s: seq<T>)
    ensures Dups(s) == [] <==> NoDups(s)
  {
    if |s| > 0 {
      var init, last := s[..|s| - 1], s[|s| - 1];
      assert s == init + [last];
      assert Dups(s) == Dups(init) + (if last in init then [last] else []);
      NoDupsSnoc(init, last);
      DupsEmptyIff(init);
    }
  }

  /** `s.map(f)` */
  function Map<A, B>(f: A -> B, s: seq<A>): (r: seq<B>)
    ensures |r| == |s|
    ensures forall i :: 0 <= i < |s| ==> r[i] == f(s[i])
  {
    seq(|s|, i requires 0 <= i < |s| => f(s[i]))
  }

  lemma MapAppend<A, B>(f: A -> B, a: seq<A>, b: seq<A>)
    ensures Map(f, a + b) == Map(f, a) + Map(f, b)
  {
  }

  lemma MapMember<A(!new), B(!new)>(f: A -> B, s: seq<A>, y: B)
    ensures y in Map(f, s) <==> exists x :: x in s && f(x) == y
  {
    if exists x :: x in s && f(x) == y {
      var x :| x in s && f(x) == y;
      var i :| 0 <= i < |s| && s[i] == x;
      assert Map(f, s)[i] == y;
    }
  }

  /** `s` with the elements at `i` and `j` exchanged. */
  function Swap<T>(s: seq<T>, i: nat, j: nat): (r: seq<T>)
    requires i < |s| && j < |s|
    ensures |r| == |s|
  {
    s[i := s[j]][j := s[i]]
  }

  lemma MapInsert<A, B>(f: A -> B, a: seq<A>, x: A, b: seq<A>)
    ensures Map(f, a + [x] + b) == Map(f, a) + [f(x)] + Map(f, b)
  {
    MapAppend(f, a + [x], b);
    MapAppend(f, a, [x]);
  }

  /** Exchanging the same two positions twice restores the sequence. */
  lemma SwapTwice<T>(s: seq<T>, i: nat, j: nat)
    requires i < |s| && j < |s|
    ensures Swap(Swap(s, i, j), i, j) == s
  {
  }

  lemma MapSwap<A, B>(f: A -> B, s: seq<A>, i: nat, j: nat)
    requires i < |s| && j < |s|
    ensures Map(f, Swap(s, i, j)) == Swap(Map(f, s), i, j)
  {
  }

  lemma SwapInLeft<T>(a: seq<T>, b: seq<T>, i: nat, j: nat)
    requires i < |a| && j < |a|
    ensures Swap(a, i, j) + b == Swap(a + b, i, j)
  {
  }

  lemma SwapInRight<T>(a: seq<T>, b: seq<T>, i: nat, j: nat)
    requires i < |b| && j < |b|
    ensures a + Swap(b, i, j) == Swap(a + b, |a| + i, |a| + j)
  {
  }

  /** Exchanging two elements neither adds nor removes one. */
  lemma SwapMultiset<T>(s: seq<T>, i: nat, j: nat)
    requires i < |s| && j < |s|
    ensures multiset(Swap(s, i, j)) == multiset(s)
  {
    if i != j {
      var t := s[i := s[j]];
      assert multiset(t) == multiset(s) - multiset{s[i]} + multiset{s[j]};
    }
  }

  lemma NoDupsSwap<T(!new)>(s: seq<T>, i: nat, j: nat)
    requires i < |s| && j < |s|
    requires NoDups(s)
    ensures NoDups(Swap(s, i, j))
  {
    var t := Swap(s, i, j);
    forall p, q | 0 <= p < q < |t| ensures t[p] != t[q] {
      var p' := if p == i then j else if p == j then i else p;
      var q' := if q == i then j else if q == j then i else q;
      assert t[p] == s[p'] && t[q] == s[q'] && p' != q';
    }
  }

  lemma NoDupsRemove<T(!new)>(s: seq<T>, k: nat)
    requires k < |s|
    requires NoDups(s)
    ensures NoDups(s[..k] + s[k + 1..])
  {
    var t := s[..k] + s[k + 1..];
    forall p, q | 0 <= p < q < |t| ensures t[p] != t[q] {
      var p' := if p < k then p else p + 1;
      var q' := if q < k then q else q + 1;
      assert t[p] == s[p'] && t[q] == s[q'];
    }
  }

  lemma MapRemove<A, B>(f: A -> B, s: seq<A>, k: nat)
    requires k < |s|
    ensures Map(f, s[..k] + s[k + 1..]) == Map(f, s)[..k] + Map(f, s)[k + 1..]
  {
  }

  /** Distinct images stay distinct when two elements of the left part are exchanged. */
  lemma MapNoDupsSwapLeft<A, B(!new)>(f: A -> B, a: seq<A>, b: seq<A>, i: nat, j: nat)
    requires i < |a| && j < |a|
    requires NoDups(Map(f, a + b))
    ensures NoDups(Map(f, Swap(a, i, j) + b))
  {
    SwapInLeft(a, b, i, j);
    MapSwap(f, a + b, i, j);
    NoDupsSwap(Map(f, a + b), i, j);
  }

  /** Distinct images stay distinct when two elements of the right part are exchanged. */
  lemma MapNoDupsSwapRight<A, B(!new)>(f: A -> B, a: seq<A>, b: seq<A>, i: nat, j: nat)
    requires i < |b| && j < |b|
    requires NoDups(Map(f, a + b))
    ensures NoDups(Map(f, a + Swap(b, i, j)))
  {
    SwapInRight(a, b, i, j);
    MapSwap(f, a + b, |a| + i, |a| + j);
    NoDupsSwap(Map(f, a + b), |a| + i, |a| + j);
  }

  /** Distinct images stay distinct when an element of the left part is removed. */
  lemma MapNoDupsRemoveLeft<A, B(!new)>(f: A -> B, a: seq<A>, b: seq<A>, k: nat)
    requires k < |a|
    requires NoDups(Map(f, a + b))
    ensures NoDups(Map(f, a[..k] + a[k + 1..] + b))
  {
    var all := a + b;
    assert a[..k] + a[k + 1..] + b == all[..k] + all[k + 1..];
    MapRemove(f, all, k);
    NoDupsRemove(Map(f, all), k);
  }

  /** Distinct images stay distinct when an element of the right part is removed. */
  lemma MapNoDupsRemoveRight<A, B(!new)>(f: A -> B, a: seq<A>, b: seq<A>, k: nat)
    requires k < |b|
    requires NoDups(Map(f, a + b))
    ensures NoDups(Map(f, a + (b[..k] + b[k + 1..])))
  {
    var all := a + b;
    assert a + (b[..k] + b[k + 1..]) == all[..|a| + k] + all[|a| + k + 1..];
    MapRemove(f, all, |a| + k);
    NoDupsRemove(Map(f, all), |a| + k);
  }

  /** No duplicates after inserting one element: the element is new and the rest had
      none. */
  lemma NoDupsInsert<T(!new)>(a: seq<T>, x: T, b: seq<T>)
    requires NoDups(a + b) && x !in a && x !in b
    ensures NoDups(a + [x] + b)
  {
    var s := a + [x] + b;
    forall i, j | 0 <= i < j < |s| ensures s[i] != s[j] {
      if j < |a| {
        assert s[i] == (a + b)[i] && s[j] == (a + b)[j];
      } else if i > |a| {
        assert s[i] == (a + b)[i - 1] && s[j] == (a + b)[j - 1];
      } else if i < |a| && j > |a| {
        assert s[i] == (a + b)[i] && s[j] == (a + b)[j - 1];
      } else if i == |a| {
        assert s[j] in b;
      } else {
        assert s[i] in a;
      }
    }
  }

  /** One more element: it is a repetition exactly when it occurred before. */
  lemma DupsStep<T(!new)>(s: seq<T>, i: nat)
    requires i < |s|
    ensures Dups(s[..i + 1]) == Dups(s[..i]) + if s[i] in s[..i] then [s[i]] else []
    ensures forall x :: x in s[..i + 1] <==> x in s[..i] || x == s[i]
  {
    PrefixStep(s, i);
    assert s[..i + 1] == s[..i] + [s[i]];
  }

  /** Flips the membership of `x`: every occurrence is removed if present,
      otherwise `x` is appended. */
  function Toggle<T(==,!new)>(s: seq<T>, x: T): (r: seq<T>)
    ensures x in r <==> x !in s
    ensures forall y :: y != x ==> (y in r <==> y in s)
    ensures x in s ==> IsSubseq(r, s) && |r| < |s|
    ensures x !in s ==> r == s + [x]
    ensures x in s ==> forall y :: multiset(r)[y] == if y == x then 0 else multiset(s)[y]
    ensures NoDups(s) ==> NoDups(r)
  {
    if x in s then
      var keep := y => y != x;
      FilterCounts(s, keep);
      var r := Filter(s, keep);
      assert |r| == |s| ==> r == s;
      r
    else
      NoDupsSnoc(s, x);
      s + [x]
  }

  /** Toggling an absent element twice restores the list. */
  lemma ToggleTwiceFromAbsent<T(!new)>(s: seq<T>, x: T)
    requires x !in s
    ensures Toggle(Toggle(s, x), x) == s
  {
    var t := s + [x];
    assert t[..|s|] == s;
    var f := Filter(s, y => y != x);
    assert f == s;
  }
}
