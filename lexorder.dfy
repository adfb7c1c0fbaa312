/** Python's ordering of `str` values: lexicographic by code point, a proper
    prefix sorting first. Dafny's own `<` on sequences means "proper prefix",
    so the order `sorted(...)` uses is defined here. */
module LexOrder {

  /** `a <= b` on Python strings. */
  predicate LexLe(a: string, b: string)
    decreases |a|
  {
    |a| == 0 || (|b| > 0 && (a[0] < b[0] || (a[0] == b[0] && LexLe(a[1..], b[1..]))))
  }

  lemma {:induction false} LexLeReflexive(a: string)
    ensures LexLe(a, a)
    decreases |a|
  {
    if |a| > 0 { LexLeReflexive(a[1..]); }
  }

  lemma {:induction false} LexLeTotal(a: string, b: string)
    ensures LexLe(a, b) || LexLe(b, a)
    decreases |a|
  {
    if |a| > 0 && |b| > 0 && a[0] == b[0] { LexLeTotal(a[1..], b[1..]); }
  }

  lemma {:induction false} LexLeAntisymmetric(a: string, b: string)
    requires LexLe(a, b) && LexLe(b, a)
    ensures a == b
    decreases |a|
  {
    if |a| > 0 {
      LexLeAntisymmetric(a[1..], b[1..]);
      assert a == [a[0]] + a[1..] && b == [b[0]] + b[1..];
    }
  }

  lemma {:induction false} LexLeTransitive(a: string, b: string, c: string)
    requires LexLe(a, b) && LexLe(b, c)
    ensures LexLe(a, c)
    decreases |a|
  {
    if |a| > 0 && a[0] == b[0] && b[0] == c[0] { LexLeTransitive(a[1..], b[1..], c[1..]); }
  }

  /** Comparing two strings whose first parts have the same length: the first
      parts decide unless they are equal, and then the rest decides. */
  lemma {:induction false} LexLeConcat(p: string, s: string, q: string, t: string)
    requires |p| == |q|
    ensures LexLe(p + s, q + t) == if p == q then LexLe(s, t) else LexLe(p, q)
    decreases |p|
  {
    if |p| > 0 {
      assert (p + s)[0] == p[0] && (q + t)[0] == q[0];
      assert (p + s)[1..] == p[1..] + s && (q + t)[1..] == q[1..] + t;
      LexLeConcat(p[1..], s, q[1..], t);
      if p[0] == q[0] {
        assert p == [p[0]] + p[1..] && q == [q[0]] + q[1..];
        assert (p[1..] == q[1..]) == (p == q);
      }
    } else {
      assert p + s == s && q + t == t;
    }
  }

  /** `sorted(keys)[-1]`: the greatest key under Python's string order. */
  function Latest(keys: seq<string>): (r: string)
    requires |keys| > 0
    ensures r in keys
    ensures forall k :: k in keys ==> LexLe(k, r)
  {
    if |keys| == 1 then LexLeReflexive(keys[0]); keys[0]
    else
      var m := Latest(keys[..|keys| - 1]);
      var last := keys[|keys| - 1];
      assert keys == keys[..|keys| - 1] + [last];
      LexLeReflexive(last);
      LexLeTotal(m, last);
      if LexLe(m, last) then
        assert forall k :: k in keys[..|keys| - 1] ==> LexLe(k, last) by {
          forall k | k in keys[..|keys| - 1] ensures LexLe(k, last) { LexLeTransitive(k, m, last); }
        }
        last
      else
        m
  }

  /** The greatest key is unique: any key of `keys` that is at least every
      key is the one `Latest` returns (so the order of the keys does not matter). */
  lemma LatestUnique(keys: seq<string>, x: string)
    requires x in keys
    requires forall k :: k in keys ==> LexLe(k, x)
    ensures Latest(keys) == x
  {
    var r := Latest(keys);
    LexLeAntisymmetric(r, x);
  }
}
