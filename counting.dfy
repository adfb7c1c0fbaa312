/** `Counter(xs).most_common(n)` of Python's `collections`: the `n` most
    frequent distinct values of `xs`, most frequent first. `most_common` sorts
    the counter's items by count, highest first, with a stable sort, and a
    counter lists its keys in the order they were first seen; so among equal
    counts the value that occurs first in `xs` comes first. */
module Counting {

  /** The values counted: activity names and one-word keywords. */
  type Item = string

  function Min(a: nat, b: nat): nat {
    if a <= b then a else b
  }

  predicate NoDups(s: seq<Item>) {
    forall i, j :: 0 <= i < j < |s| ==> s[i] != s[j]
  }

  /** `Counter(xs)[x]`. */
  function Count(xs: seq<Item>, x: Item): nat {
    multiset(xs)[x]
  }

  /** Where `x` first occurs in `xs`; `|xs|` when it does not occur. */
  function FirstIndex(xs: seq<Item>, x: Item): (i: nat)
    ensures i <= |xs|
    ensures i < |xs| <==> x in xs
    ensures i < |xs| ==> xs[i] == x
    ensures forall j :: 0 <= j < i ==> xs[j] != x
  {
    if xs == [] then 0 else if xs[0] == x then 0 else 1 + FirstIndex(xs[1..], x)
  }

  /** `a` is listed before `b` by `most_common`: a higher count, or the same
      count and an earlier first occurrence. */
  predicate Ahead(xs: seq<Item>, a: Item, b: Item) {
    Count(xs, a) > Count(xs, b)
    || (Count(xs, a) == Count(xs, b) && FirstIndex(xs, a) < FirstIndex(xs, b))
  }

  /** Any two different values of `xs` are ordered by `Ahead`, one way or the other. */
  lemma AheadTotal(xs: seq<Item>, a: Item, b: Item)
    requires a in xs && b in xs && a != b
    ensures Ahead(xs, a, b) || Ahead(xs, b, a)
  {
  }

  /** The distinct values of `xs` in the order they are first seen: the keys
      of `Counter(xs)`. */
  function Distinct(xs: seq<Item>): (d: seq<Item>)
    ensures NoDups(d)
    ensures forall x :: x in d <==> x in xs
  {
    if xs == [] then []
    else
      var d := Distinct(xs[..|xs| - 1]);
      var x := xs[|xs| - 1];
      assert xs == xs[..|xs| - 1] + [x];
      if x in d then d else d + [x]
  }

  /** `d` lists values in the order of their first occurrence in `xs`. */
  predicate InFirstSeenOrder(xs: seq<Item>, d: seq<Item>) {
    forall i, j :: 0 <= i < j < |d| ==> FirstIndex(xs, d[i]) < FirstIndex(xs, d[j])
  }

  /** `Distinct` lists the values in the order of their first occurrence. */
  lemma {:induction false} DistinctFirstSeen(xs: seq<Item>)
    ensures InFirstSeenOrder(xs, Distinct(xs))
    decreases |xs|
  {
    if xs != [] {
      var init := xs[..|xs| - 1];
      DistinctFirstSeen(init);
      var d := Distinct(xs);
      forall i, j | 0 <= i < j < |d| ensures FirstIndex(xs, d[i]) < FirstIndex(xs, d[j]) {
        DistinctFirstSeenStep(xs, init, i, j);
      }
    }
  }

  /** The step of `DistinctFirstSeen` for one pair of positions. */
  lemma DistinctFirstSeenStep(xs: seq<Item>, init: seq<Item>, i: nat, j: nat)
    requires xs != [] && init == xs[..|xs| - 1]
    requires InFirstSeenOrder(init, Distinct(init))
    requires i < j < |Distinct(xs)|
    ensures FirstIndex(xs, Distinct(xs)[i]) < FirstIndex(xs, Distinct(xs)[j])
  {
    var x := xs[|xs| - 1];
    var d', d := Distinct(init), Distinct(xs);
    assert d == if x in d' then d' else d' + [x];
    assert d[i] == d'[i] && d[i] in init;
    FirstIndexSnoc(xs, d[i]);
    if j < |d'| {
      assert d[j] == d'[j] && d[j] in init;
      assert FirstIndex(init, d'[i]) < FirstIndex(init, d'[j]);
      FirstIndexSnoc(xs, d[j]);
    } else {
      assert d[j] == x && x !in init;
      FirstIndexSnoc(xs, x);
    }
  }

  /** A value already in `xs` without its last element first occurs where it
      did there; the last element, when new, first occurs at the end. */
  lemma FirstIndexSnoc(xs: seq<Item>, y: Item)
    requires xs != []
    ensures var init := xs[..|xs| - 1];
      && (y in init ==> FirstIndex(xs, y) == FirstIndex(init, y) < |init|)
      && (y !in init && y == xs[|xs| - 1] ==> FirstIndex(xs, y) == |init|)
  {
    var init := xs[..|xs| - 1];
    assert forall j :: 0 <= j < |init| ==> xs[j] == init[j];
    var i, k := FirstIndex(xs, y), FirstIndex(init, y);
    if y in init {
      assert !(i < k) && !(k < i);
    }
  }

  /** The candidate that is ahead of every other candidate. */
  function Best(xs: seq<Item>, cands: seq<Item>): (b: Item)
    requires |cands| > 0
    requires forall c :: c in cands ==> c in xs
    ensures b in cands
    ensures forall c :: c in cands && c != b ==> Ahead(xs, b, c)
  {
    if |cands| == 1 then cands[0]
    else
      var b := Best(xs, cands[1..]);
      assert cands == [cands[0]] + cands[1..];
      if Ahead(xs, cands[0], b) then cands[0]
      else if cands[0] == b then b
      else
        AheadTotal(xs, cands[0], b);
        b
  }

  /** `s` without `x`. */
  function Remove(s: seq<Item>, x: Item): (r: seq<Item>)
    ensures forall y :: y in r <==> y in s && y != x
    ensures NoDups(s) ==> NoDups(r)
    ensures NoDups(s) && x in s ==> |r| == |s| - 1
    ensures x !in s ==> r == s
  {
    if s == [] then []
    else
      var rest := Remove(s[1..], x);
      assert s == [s[0]] + s[1..];
      if s[0] == x then rest
      else
        assert NoDups(s) ==> s[0] !in s[1..];
        [s[0]] + rest
  }

  /** `r` lists the first `n` of `pool` in `most_common` order: sorted by
      `Ahead`, and ahead of every candidate it leaves out. */
  predicate IsTopOf(xs: seq<Item>, pool: seq<Item>, n: nat, r: seq<Item>) {
    && |r| == Min(n, |pool|)
    && (forall x :: x in r ==> x in pool)
    && (forall i, j :: 0 <= i < j < |r| ==> Ahead(xs, r[i], r[j]))
    && (forall c, j :: c in pool && c !in r && 0 <= j < |r| ==> Ahead(xs, r[j], c))
  }

  /** Selection of the first `n` candidates, best first. */
  function TopK(xs: seq<Item>, pool: seq<Item>, n: nat): (r: seq<Item>)
    requires NoDups(pool)
    requires forall c :: c in pool ==> c in xs
    ensures IsTopOf(xs, pool, n, r)
    decreases n
  {
    if n == 0 || pool == [] then []
    else
      var b := Best(xs, pool);
      var rest := TopK(xs, Remove(pool, b), n - 1);
      [b] + rest
  }

  /** The head of any first-`n` list is the candidate ahead of all others. */
  lemma TopOfHead(xs: seq<Item>, pool: seq<Item>, n: nat, r1: seq<Item>, r2: seq<Item>)
    requires IsTopOf(xs, pool, n, r1) && IsTopOf(xs, pool, n, r2)
    requires forall c :: c in pool ==> c in xs
    requires |r1| > 0
    ensures r1[0] == r2[0]
  {
    if r1[0] != r2[0] {
      HeadAhead(xs, pool, n, r1, r2);
      HeadAhead(xs, pool, n, r2, r1);
      assert false;
    }
  }

  /** Of two first-`n` lists with different heads, the head of one is ahead of
      the head of the other. */
  lemma HeadAhead(xs: seq<Item>, pool: seq<Item>, n: nat, r1: seq<Item>, r2: seq<Item>)
    requires IsTopOf(xs, pool, n, r1) && IsTopOf(xs, pool, n, r2)
    requires |r1| > 0 && r1[0] != r2[0]
    ensures Ahead(xs, r1[0], r2[0])
  {
    var b := r2[0];
    if b in r1 {
      var j :| 0 <= j < |r1| && r1[j] == b;
    }
  }

  /** The first-`n` list of a pool is unique: whatever computes one computes
      this one. */
  lemma {:induction false} TopOfUnique(xs: seq<Item>, pool: seq<Item>, n: nat, r1: seq<Item>, r2: seq<Item>)
    requires NoDups(pool) && forall c :: c in pool ==> c in xs
    requires IsTopOf(xs, pool, n, r1) && IsTopOf(xs, pool, n, r2)
    ensures r1 == r2
    decreases n
  {
    if |r1| > 0 {
      TopOfHead(xs, pool, n, r1, r2);
      var h := r1[0];
      var pool' := Remove(pool, h);
      var t1, t2 := r1[1..], r2[1..];
      forall k | 0 <= k < |t1| ensures t1[k] != h { assert Ahead(xs, r1[0], r1[k + 1]); }
      forall k | 0 <= k < |t2| ensures t2[k] != h { assert Ahead(xs, r2[0], r2[k + 1]); }
      assert IsTopOf(xs, pool', n - 1, t1) by {
        forall c, j | c in pool' && c !in t1 && 0 <= j < |t1| ensures Ahead(xs, t1[j], c) {
          assert c !in r1 by { assert r1 == [h] + t1; }
          assert t1[j] == r1[j + 1];
        }
      }
      assert IsTopOf(xs, pool', n - 1, t2) by {
        forall c, j | c in pool' && c !in t2 && 0 <= j < |t2| ensures Ahead(xs, t2[j], c) {
          assert c !in r2 by { assert r2 == [h] + t2; }
          assert t2[j] == r2[j + 1];
        }
      }
      TopOfUnique(xs, pool', n - 1, t1, t2);
      assert r1 == [h] + t1 && r2 == [h] + t2;
    }
  }

  /** `Counter(xs).most_common(n)`. */
  function MostCommon(xs: seq<Item>, n: nat): (r: seq<Item>)
    ensures |r| == Min(n, |Distinct(xs)|)
    ensures forall x :: x in r ==> x in xs
    ensures forall i, j :: 0 <= i < j < |r| ==> Ahead(xs, r[i], r[j])
    ensures forall x, j :: x in xs && x !in r && 0 <= j < |r| ==> Ahead(xs, r[j], x)
  {
    TopK(xs, Distinct(xs), n)
  }

  /** Any list with the properties of `most_common`'s result is `MostCommon`'s. */
  lemma MostCommonUnique(xs: seq<Item>, n: nat, r: seq<Item>)
    requires IsTopOf(xs, Distinct(xs), n, r)
    ensures r == MostCommon(xs, n)
  {
    TopOfUnique(xs, Distinct(xs), n, r, MostCommon(xs, n));
  }

  /** Read as counts: no listed value has a smaller count than a later one, and
      equal counts are listed in order of first occurrence. */
  lemma MostCommonCounts(xs: seq<Item>, n: nat, i: nat, j: nat)
    requires i < j < |MostCommon(xs, n)|
    ensures var r := MostCommon(xs, n);
      Count(xs, r[i]) >= Count(xs, r[j])
      && (Count(xs, r[i]) == Count(xs, r[j]) ==> FirstIndex(xs, r[i]) < FirstIndex(xs, r[j]))
  {
  }
}
