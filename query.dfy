/** The two query operations the handlers ask of the store: `filter(...)` and
    `order_by(key)`, over rows held in any storage order. */
module Query {

  predicate SortedBy<T>(s: seq<T>, key: T -> int) {
    forall i, j :: 0 <= i < j < |s| ==> key(s[i]) <= key(s[j])
  }

  predicate StrictlySortedBy<T>(s: seq<T>, key: T -> int) {
    forall i, j :: 0 <= i < j < |s| ==> key(s[i]) < key(s[j])
  }

  /** The rows of `s` that `keep` accepts, in their original order. */
  function Filter<T>(s: seq<T>, keep: T -> bool): (r: seq<T>)
    ensures |r| <= |s|
    ensures forall x :: x in r ==> x in s && keep(x)
    ensures forall x :: x in s && keep(x) ==> x in r
  {
    if s == [] then []
    else
      var rest := Filter(s[1..], keep);
      assert s == [s[0]] + s[1..];
      if keep(s[0]) then [s[0]] + rest else rest
  }

  /** Every row of `s` has key `b` or more. */
  predicate KeysAtLeast<T>(s: seq<T>, b: int, key: T -> int) {
    forall i :: 0 <= i < |s| ==> b <= key(s[i])
  }

  /** Each accepted row is kept as often as it occurs, and no other row. */
  lemma {:induction false} FilterMultiplicity<T>(s: seq<T>, keep: T -> bool, x: T)
    ensures multiset(Filter(s, keep))[x] == if keep(x) then multiset(s)[x] else 0
  {
    if s != [] {
      FilterMultiplicity(s[1..], keep, x);
      assert s == [s[0]] + s[1..];
      assert Filter(s, keep) == if keep(s[0]) then [s[0]] + Filter(s[1..], keep) else Filter(s[1..], keep);
    }
  }

  /** A filter that accepts every row keeps the rows as they are. */
  lemma {:induction false} FilterAll<T>(s: seq<T>, keep: T -> bool)
    requires forall x :: x in s ==> keep(x)
    ensures Filter(s, keep) == s
  {
    if s != [] {
      assert s[0] in s;
      assert forall x :: x in s[1..] ==> x in s;
      FilterAll(s[1..], keep);
      assert Filter(s, keep) == [s[0]] + Filter(s[1..], keep);
      assert s == [s[0]] + s[1..];
    }
  }

  /** A filter that accepts no row of `s` keeps nothing. */
  lemma FilterNone<T>(s: seq<T>, keep: T -> bool)
    requires forall x :: x in s ==> !keep(x)
    ensures Filter(s, keep) == []
  {
    if Filter(s, keep) != [] {
      assert Filter(s, keep)[0] in Filter(s, keep);
    }
  }

  /** Filters that agree on every row keep the same rows. */
  lemma {:induction false} FilterAgrees<T>(s: seq<T>, f: T -> bool, g: T -> bool)
    requires forall x :: f(x) == g(x)
    ensures Filter(s, f) == Filter(s, g)
  {
    if s != [] {
      FilterAgrees(s[1..], f, g);
    }
  }

  /** Every row of `s` has a key above `b`. */
  predicate KeysAbove<T>(s: seq<T>, b: int, key: T -> int) {
    forall i :: 0 <= i < |s| ==> b < key(s[i])
  }

  lemma ConsStrictlySorted<T>(x: T, s: seq<T>, key: T -> int)
    requires StrictlySortedBy(s, key) && KeysAbove(s, key(x), key)
    ensures StrictlySortedBy([x] + s, key)
  {
    forall i, j | 0 <= i < j < |[x] + s| ensures key(([x] + s)[i]) < key(([x] + s)[j]) {
      if i > 0 {
        assert ([x] + s)[i] == s[i - 1];
      }
      assert ([x] + s)[j] == s[j - 1];
    }
  }

  lemma TailKeysAbove<T>(s: seq<T>, b: int, key: T -> int)
    requires s != [] && KeysAbove(s, b, key)
    ensures KeysAbove(s[1..], b, key)
  {
    forall i | 0 <= i < |s[1..]| ensures b < key(s[1..][i]) {
      assert s[1..][i] == s[i + 1];
    }
  }

  /** Filtering keeps a lower bound on the keys. */
  lemma {:induction false} FilterKeepsKeysAbove<T>(s: seq<T>, keep: T -> bool, key: T -> int, b: int)
    requires KeysAbove(s, b, key)
    ensures KeysAbove(Filter(s, keep), b, key)
  {
    if s != [] {
      TailKeysAbove(s, b, key);
      FilterKeepsKeysAbove(s[1..], keep, key, b);
      var rest := Filter(s[1..], keep);
      if keep(s[0]) {
        assert Filter(s, keep) == [s[0]] + rest;
        assert forall i :: 0 < i < |[s[0]] + rest| ==> ([s[0]] + rest)[i] == rest[i - 1];
      } else {
        assert Filter(s, keep) == rest;
      }
    }
  }

  /** Filtering keeps a strictly ascending sequence strictly ascending. */
  lemma {:induction false} FilterKeepsStrictOrder<T>(s: seq<T>, keep: T -> bool, key: T -> int)
    requires StrictlySortedBy(s, key)
    ensures StrictlySortedBy(Filter(s, keep), key)
  {
    if s != [] {
      var rest := Filter(s[1..], keep);
      FilterKeepsStrictOrder(s[1..], keep, key);
      assert KeysAbove(s[1..], key(s[0]), key);
      FilterKeepsKeysAbove(s[1..], keep, key, key(s[0]));
      if keep(s[0]) {
        assert Filter(s, keep) == [s[0]] + rest;
        ConsStrictlySorted(s[0], rest, key);
      } else {
        assert Filter(s, keep) == rest;
      }
    }
  }

  /** Dropping the rows with one key from a sequence with distinct keys, where
      that key occurs, removes exactly one row. */
  lemma {:induction false} FilterDropsOne<T>(s: seq<T>, keep: T -> bool, key: T -> int, k: int)
    requires StrictlySortedBy(s, key)
    requires exists i :: 0 <= i < |s| && key(s[i]) == k
    requires forall x :: keep(x) <==> key(x) != k
    ensures |Filter(s, keep)| == |s| - 1
  {
    if key(s[0]) == k {
      forall x | x in s[1..] ensures keep(x) {
        var j :| 0 <= j < |s[1..]| && s[1..][j] == x;
        assert x == s[j + 1];
      }
      FilterAll(s[1..], keep);
    } else {
      var i :| 0 <= i < |s| && key(s[i]) == k;
      assert key(s[1..][i - 1]) == k;
      FilterDropsOne(s[1..], keep, key, k);
    }
  }

  lemma ConsSorted<T>(x: T, s: seq<T>, key: T -> int)
    requires SortedBy(s, key) && KeysAtLeast(s, key(x), key)
    ensures SortedBy([x] + s, key)
  {
    forall i, j | 0 <= i < j < |[x] + s| ensures key(([x] + s)[i]) <= key(([x] + s)[j]) {
      if i > 0 {
        assert ([x] + s)[i] == s[i - 1];
      }
      assert ([x] + s)[j] == s[j - 1];
    }
  }

  lemma ConsKeysAtLeast<T>(x: T, s: seq<T>, b: int, key: T -> int)
    requires b <= key(x) && KeysAtLeast(s, b, key)
    ensures KeysAtLeast([x] + s, b, key)
  {
    forall i | 0 < i < |[x] + s| ensures b <= key(([x] + s)[i]) {
      assert ([x] + s)[i] == s[i - 1];
    }
  }

  lemma TailKeysAtLeast<T>(s: seq<T>, b: int, key: T -> int)
    requires s != [] && KeysAtLeast(s, b, key)
    ensures KeysAtLeast(s[1..], b, key)
  {
    forall i | 0 <= i < |s[1..]| ensures b <= key(s[1..][i]) {
      assert s[1..][i] == s[i + 1];
    }
  }

  lemma SortedTail<T>(s: seq<T>, key: T -> int)
    requires s != [] && SortedBy(s, key)
    ensures SortedBy(s[1..], key) && KeysAtLeast(s, key(s[0]), key)
  {
    forall i | 0 <= i < |s[1..]| ensures s[1..][i] == s[i + 1] {
    }
  }

  /** Places `x` in front of the first element of `s` whose key is not smaller. */
  function InsertBy<T>(x: T, s: seq<T>, key: T -> int): (r: seq<T>)
    requires SortedBy(s, key)
    ensures SortedBy(r, key)
    ensures forall b :: b <= key(x) && KeysAtLeast(s, b, key) ==> KeysAtLeast(r, b, key)
    ensures multiset(r) == multiset(s) + multiset{x}
  {
    if s == [] then [x]
    else if key(x) <= key(s[0]) then
      SortedTail(s, key);
      ConsSorted(x, s, key);
      assert forall b :: b <= key(x) && KeysAtLeast(s, b, key) ==> KeysAtLeast([x] + s, b, key) by {
        forall b | b <= key(x) && KeysAtLeast(s, b, key) ensures KeysAtLeast([x] + s, b, key) {
          ConsKeysAtLeast(x, s, b, key);
        }
      }
      [x] + s
    else
      SortedTail(s, key);
      var rest := InsertBy(x, s[1..], key);
      assert KeysAtLeast(rest, key(s[0]), key);
      ConsSorted(s[0], rest, key);
      assert forall b :: b <= key(x) && KeysAtLeast(s, b, key) ==> KeysAtLeast([s[0]] + rest, b, key) by {
        forall b | b <= key(x) && KeysAtLeast(s, b, key) ensures KeysAtLeast([s[0]] + rest, b, key) {
          TailKeysAtLeast(s, b, key);
          ConsKeysAtLeast(s[0], rest, b, key);
        }
      }
      assert s == [s[0]] + s[1..];
      [s[0]] + rest
  }

  /** `order_by(key)`: the same rows, ascending by key. */
  function SortBy<T>(s: seq<T>, key: T -> int): (r: seq<T>)
    ensures SortedBy(r, key)
    ensures multiset(r) == multiset(s)
    ensures |r| == |s|
  {
    if s == [] then []
    else
      assert s == [s[0]] + s[1..];
      InsertBy(s[0], SortBy(s[1..], key), key)
  }

  /** Ordering rows that are already in key order leaves them where they are. */
  lemma {:induction false} SortByOfSorted<T>(s: seq<T>, key: T -> int)
    requires SortedBy(s, key)
    ensures SortBy(s, key) == s
  {
    if s != [] {
      SortByOfSorted(s[1..], key);
      assert s == [s[0]] + s[1..];
    }
  }

  /** A stronger filter keeps no more rows, and strictly fewer when some row
      passes the weaker filter only. */
  lemma {:induction false} FilterShrinks<T>(s: seq<T>, weak: T -> bool, strong: T -> bool, x: T)
    requires forall y :: strong(y) ==> weak(y)
    ensures |Filter(s, strong)| <= |Filter(s, weak)|
    ensures x in s && weak(x) && !strong(x) ==> |Filter(s, strong)| < |Filter(s, weak)|
  {
    if s != [] {
      var t := s[1..];
      FilterShrinks(t, weak, strong, x);
      assert Filter(s, weak) == if weak(s[0]) then [s[0]] + Filter(t, weak) else Filter(t, weak);
      assert Filter(s, strong) == if strong(s[0]) then [s[0]] + Filter(t, strong) else Filter(t, strong);
      assert x in s ==> x == s[0] || x in t;
    }
  }
}
