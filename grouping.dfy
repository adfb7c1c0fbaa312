/** `group_by(entries, key)`: the entries sorted into buckets, one bucket per
    period key, each bucket a list the entries are appended to as they are met. */
module Grouping {
  import opened Calendar
  import opened Journal
  import opened PeriodKey
  import opened Counting

  /** Every `created` timestamp is a date `datetime` can hold. */
  predicate ValidEntries(es: seq<Entry>) {
    forall i :: 0 <= i < |es| ==> ValidDate(es[i].created)
  }

  /** The key of each entry, in entry order. */
  function Keys(es: seq<Entry>, period: Period): (ks: seq<string>)
    requires ValidEntries(es)
    ensures |ks| == |es|
    ensures forall i :: 0 <= i < |es| ==> ks[i] == Key(es[i].created, period)
  {
    seq(|es|, i requires 0 <= i < |es| && ValidDate(es[i].created) => Key(es[i].created, period))
  }

  /** The bucket of key `k` when the i-th entry has key `ks[i]`: the entries
      whose key is `k`, kept in order. */
  function Bucket(es: seq<Entry>, ks: seq<string>, k: string): (g: seq<Entry>)
    requires |ks| == |es|
    ensures |g| <= |es|
  {
    if es == [] then []
    else
      var init := Bucket(es[..|es| - 1], ks[..|ks| - 1], k);
      if ks[|ks| - 1] == k then init + [es[|es| - 1]] else init
  }

  lemma BucketStep(es: seq<Entry>, ks: seq<string>, e: Entry, k: string, k': string)
    requires |ks| == |es|
    ensures Bucket(es + [e], ks + [k], k') == Bucket(es, ks, k') + (if k == k' then [e] else [])
  {
    assert (es + [e])[..|es|] == es && (ks + [k])[..|ks|] == ks;
  }

  lemma DistinctStep(ks: seq<string>, k: string)
    ensures Distinct(ks + [k]) == if k in Distinct(ks) then Distinct(ks) else Distinct(ks) + [k]
  {
    assert (ks + [k])[..|ks|] == ks;
  }

  /** The bucket `group_by` builds for key `k`. */
  function Select(es: seq<Entry>, period: Period, k: string): (g: seq<Entry>)
    requires ValidEntries(es)
    ensures |g| <= |es|
  {
    Bucket(es, Keys(es, period), k)
  }

  /** The indices `i` with `ks[i] == k`, in increasing order. */
  function Positions(ks: seq<string>, k: string): (ps: seq<nat>)
  {
    if ks == [] then []
    else
      var init := Positions(ks[..|ks| - 1], k);
      if ks[|ks| - 1] == k then init + [|ks| - 1] else init
  }

  lemma {:induction false} BucketIsSubsequence(es: seq<Entry>, ks: seq<string>, k: string)
    requires |ks| == |es|
    ensures var g, ps := Bucket(es, ks, k), Positions(ks, k);
      && |g| == |ps|
      && (forall t :: 0 <= t < |ps| ==> ps[t] < |es| && g[t] == es[ps[t]])
      && (forall t, u :: 0 <= t < u < |ps| ==> ps[t] < ps[u])
      && (forall i :: 0 <= i < |ks| ==> (i in ps <==> ks[i] == k))
    decreases |es|
  {
    if es != [] {
      var n := |es| - 1;
      var es', ks' := es[..n], ks[..n];
      BucketIsSubsequence(es', ks', k);
      var g', ps' := Bucket(es', ks', k), Positions(ks', k);
      var g, ps := Bucket(es, ks, k), Positions(ks, k);
      assert forall i :: 0 <= i < n ==> es'[i] == es[i] && ks'[i] == ks[i];
      assert forall t :: 0 <= t < |ps'| ==> ps'[t] < n;
      if ks[n] == k {
        assert g == g' + [es[n]] && ps == ps' + [n];
      } else {
        assert g == g' && ps == ps';
      }
    }
  }

  /** A bucket is exactly the subsequence of the entries at the positions
      whose key is `k`: nothing is lost, nothing is added, and the entries
      keep their original relative order. */
  lemma SelectIsSubsequence(es: seq<Entry>, period: Period, k: string)
    requires ValidEntries(es)
    ensures var g, ps := Select(es, period, k), Positions(Keys(es, period), k);
      && |g| == |ps|
      && (forall t :: 0 <= t < |ps| ==> ps[t] < |es| && g[t] == es[ps[t]])
      && (forall t, u :: 0 <= t < u < |ps| ==> ps[t] < ps[u])
      && (forall i :: 0 <= i < |es| ==> (i in ps <==> Key(es[i].created, period) == k))
  {
    BucketIsSubsequence(es, Keys(es, period), k);
  }

  /** Every entry lands in the bucket of its own key and in no other. */
  lemma ExactlyOneBucket(es: seq<Entry>, period: Period, i: nat, k: string)
    requires ValidEntries(es) && i < |es|
    ensures i in Positions(Keys(es, period), k) <==> k == Key(es[i].created, period)
  {
    BucketIsSubsequence(es, Keys(es, period), k);
  }

  lemma BucketAbsent(es: seq<Entry>, ks: seq<string>, k: string)
    requires |ks| == |es| && k !in ks
    ensures Bucket(es, ks, k) == []
  {
    BucketIsSubsequence(es, ks, k);
  }

  /** The sum of the sizes of the buckets named in `names`. */
  function SizeSum(es: seq<Entry>, ks: seq<string>, names: seq<string>): nat
    requires |ks| == |es|
  {
    if names == [] then 0
    else SizeSum(es, ks, names[..|names| - 1]) + |Bucket(es, ks, names[|names| - 1])|
  }

  /** One more entry adds one to the bucket of its key and nothing elsewhere. */
  lemma {:induction false} SizeSumStep(es: seq<Entry>, ks: seq<string>, e: Entry, k: string, names: seq<string>)
    requires |ks| == |es|
    ensures SizeSum(es + [e], ks + [k], names) == SizeSum(es, ks, names) + Count(names, k)
    decreases |names|
  {
    assert (es + [e])[..|es|] == es && (ks + [k])[..|ks|] == ks;
    if names != [] {
      var names' := names[..|names| - 1];
      SizeSumStep(es, ks, e, k, names');
      assert names == names' + [names[|names| - 1]];
    }
  }

  lemma {:induction false} BucketSizesAddUpBy(es: seq<Entry>, ks: seq<string>)
    requires |ks| == |es|
    ensures SizeSum(es, ks, Distinct(ks)) == |es|
    decreases |es|
  {
    if es != [] {
      var es', ks' := es[..|es| - 1], ks[..|ks| - 1];
      var e, k := es[|es| - 1], ks[|ks| - 1];
      assert es == es' + [e] && ks == ks' + [k];
      BucketSizesAddUpBy(es', ks');
      var d' := Distinct(ks');
      DistinctStep(ks', k);
      if k in d' {
        SizeSumStep(es', ks', e, k, d');
        DistinctCountOne(d', k);
      } else {
        var d := d' + [k];
        assert d[..|d| - 1] == d' && d[|d| - 1] == k;
        assert SizeSum(es, ks, d) == SizeSum(es, ks, d') + |Bucket(es, ks, k)|;
        SizeSumStep(es', ks', e, k, d');
        assert Count(d', k) == 0;
        BucketAbsent(es', ks', k);
        BucketStep(es', ks', e, k, k);
      }
    }
  }

  /** The buckets partition the entries: over the distinct keys their sizes
      add up to the number of entries. */
  lemma BucketSizesAddUp(es: seq<Entry>, period: Period)
    requires ValidEntries(es)
    ensures SizeSum(es, Keys(es, period), Distinct(Keys(es, period))) == |es|
  {
    BucketSizesAddUpBy(es, Keys(es, period));
  }

  lemma DistinctCountOne(d: seq<string>, k: string)
    requires NoDups(d) && k in d
    ensures Count(d, k) == 1
  {
    var i :| 0 <= i < |d| && d[i] == k;
    assert d == d[..i] + [k] + d[i + 1..];
    assert k !in d[..i] && k !in d[i + 1..];
    assert multiset(d) == multiset(d[..i]) + multiset{k} + multiset(d[i + 1..]);
  }

  /** `group_by(entries, key)`. A Python dict remembers the order its keys
      were inserted in; `order` is that order. */
  method GroupBy(es: seq<Entry>, period: Period) returns (groups: map<string, seq<Entry>>, order: seq<string>)
    requires ValidEntries(es)
    ensures order == Distinct(Keys(es, period))
    ensures forall k :: k in groups <==> k in order
    ensures forall k :: k in groups ==> groups[k] == Select(es, period, k)
  {
    groups, order := map[], [];
    ghost var ks: seq<string> := [];
    for i := 0 to |es|
      invariant ks == Keys(es[..i], period)
      invariant order == Distinct(ks)
      invariant forall k :: k in groups <==> k in order
      invariant forall k :: Bucket(es[..i], ks, k) == if k in groups then groups[k] else []
    {
      var e := es[i];
      var k := Key(e.created, period);
      KeysStep(es, i, period);
      GroupStep(es[..i], ks, e, k, groups, order);
      // `groups[k]` of a `defaultdict(list)` first inserts an empty list
      var bucket := if k in groups then groups[k] else [];
      if k !in groups {
        order := order + [k];
      }
      groups := groups[k := bucket + [e]];
      ks := ks + [k];
    }
    assert es[..|es|] == es;
  }

  lemma KeysStep(es: seq<Entry>, i: nat, period: Period)
    requires ValidEntries(es) && i < |es|
    ensures ValidEntries(es[..i]) && ValidEntries(es[..i + 1])
    ensures es[..i + 1] == es[..i] + [es[i]]
    ensures Keys(es[..i + 1], period) == Keys(es[..i], period) + [Key(es[i].created, period)]
  {
    assert forall j :: 0 <= j < i + 1 ==> es[..i + 1][j] == es[j];
  }

  /** One pass of the loop of `group_by`: appending `e` to the bucket of its
      key keeps the buckets, the key order and the key set in step. */
  lemma GroupStep(es: seq<Entry>, ks: seq<string>, e: Entry, k: string,
                  groups: map<string, seq<Entry>>, order: seq<string>)
    requires |ks| == |es|
    requires order == Distinct(ks)
    requires forall k' :: k' in groups <==> k' in order
    requires forall k' :: Bucket(es, ks, k') == if k' in groups then groups[k'] else []
    ensures var bucket := if k in groups then groups[k] else [];
      var groups' := groups[k := bucket + [e]];
      var order' := if k in groups then order else order + [k];
      && order' == Distinct(ks + [k])
      && (forall k' :: k' in groups' <==> k' in order')
      && (forall k' :: Bucket(es + [e], ks + [k], k') == if k' in groups' then groups'[k'] else [])
  {
    GroupOrderStep(ks, k, groups, order, e);
    var bucket := if k in groups then groups[k] else [];
    var groups' := groups[k := bucket + [e]];
    forall k' ensures Bucket(es + [e], ks + [k], k') == if k' in groups' then groups'[k'] else [] {
      BucketStep(es, ks, e, k, k');
      GroupEntryStep(Bucket(es, ks, k'), groups, k, k', e);
    }
  }

  /** The key order and the key set after `groups[k].append(e)`. */
  lemma GroupOrderStep(ks: seq<string>, k: string, groups: map<string, seq<Entry>>, order: seq<string>, e: Entry)
    requires order == Distinct(ks)
    requires forall k' :: k' in groups <==> k' in order
    ensures var groups' := groups[k := (if k in groups then groups[k] else []) + [e]];
      var order' := if k in groups then order else order + [k];
      && order' == Distinct(ks + [k])
      && (forall k' :: k' in groups' <==> k' in order')
  {
    DistinctStep(ks, k);
  }

  /** The bucket of `k'` after `groups[k].append(e)`, for a map mirroring `before`. */
  lemma GroupEntryStep(before: seq<Entry>, groups: map<string, seq<Entry>>, k: string, k': string, e: Entry)
    requires before == if k' in groups then groups[k'] else []
    ensures var groups' := groups[k := (if k in groups then groups[k] else []) + [e]];
      before + (if k == k' then [e] else []) == if k' in groups' then groups'[k'] else []
  {
  }
}
