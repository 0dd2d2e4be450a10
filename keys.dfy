/**
 * Group-by keys. A pandas `groupby` (with its default `sort=True`) yields one
 * group per distinct key, in ascending key order. `Distinct` computes that key
 * list for any strict total order `less`; `Count` is the size of one group.
 */
module Keys {

  /** `less` is irreflexive, transitive and total on distinct values. */
  ghost predicate StrictTotalOrder<K(!new)>(less: (K, K) -> bool) {
    && (forall a :: !less(a, a))
    && (forall a, b, c :: less(a, b) && less(b, c) ==> less(a, c))
    && (forall a, b :: a != b ==> less(a, b) || less(b, a))
  }

  ghost predicate Increasing<K>(less: (K, K) -> bool, s: seq<K>) {
    forall i, j :: 0 <= i < j < |s| ==> less(s[i], s[j])
  }

  ghost predicate NoDuplicates<K>(s: seq<K>) {
    forall i, j :: 0 <= i < j < |s| ==> s[i] != s[j]
  }

  /** Inserts `x` into the ascending key list `s` unless it is already there. */
  function Insert<K(==,!new)>(less: (K, K) -> bool, x: K, s: seq<K>): (r: seq<K>)
    ensures forall k :: k in r <==> k == x || k in s
  {
    if s == [] then [x]
    else if x == s[0] then s
    else if less(x, s[0]) then [x] + s
    else [s[0]] + Insert(less, x, s[1..])
  }

  /** The distinct values of `xs`, in ascending order (pandas' sorted group keys). */
  function Distinct<K(==,!new)>(less: (K, K) -> bool, xs: seq<K>): (r: seq<K>)
    ensures forall k :: k in r <==> k in xs
  {
    if xs == [] then [] else Insert(less, xs[0], Distinct(less, xs[1..]))
  }

  lemma {:induction false} InsertIncreasing<K(!new)>(less: (K, K) -> bool, x: K, s: seq<K>)
    requires StrictTotalOrder(less) && Increasing(less, s)
    ensures Increasing(less, Insert(less, x, s))
  {
    if s == [] || x == s[0] {
    } else if less(x, s[0]) {
      var r := [x] + s;
      forall i, j | 0 <= i < j < |r| ensures less(r[i], r[j]) {
        if i > 0 {
          assert r[i] == s[i - 1] && r[j] == s[j - 1];
        } else if j > 1 {
          assert less(s[0], s[j - 1]);
        }
      }
    } else {
      assert less(s[0], x);
      InsertIncreasing(less, x, s[1..]);
      var t := Insert(less, x, s[1..]);
      forall k | 0 <= k < |t| ensures less(s[0], t[k]) {
        assert t[k] in t;
        if t[k] != x {
          var m :| 0 <= m < |s[1..]| && s[1..][m] == t[k];
          assert s[m + 1] == t[k];
        }
      }
      var r := [s[0]] + t;
      forall i, j | 0 <= i < j < |r| ensures less(r[i], r[j]) {
        if i > 0 {
          assert r[i] == t[i - 1] && r[j] == t[j - 1];
        } else {
          assert r[j] == t[j - 1];
        }
      }
    }
  }

  /** The group keys come out strictly ascending. */
  lemma {:induction false} DistinctIncreasing<K(!new)>(less: (K, K) -> bool, xs: seq<K>)
    requires StrictTotalOrder(less)
    ensures Increasing(less, Distinct(less, xs))
    ensures NoDuplicates(Distinct(less, xs))
  {
    if xs != [] {
      DistinctIncreasing(less, xs[1..]);
      InsertIncreasing(less, xs[0], Distinct(less, xs[1..]));
    }
    var r := Distinct(less, xs);
    forall i, j | 0 <= i < j < |r| ensures r[i] != r[j] {
      assert less(r[i], r[j]);
    }
  }

  /** The number of occurrences of `k` in `xs`: the size of group `k`. */
  function Count<K(==)>(xs: seq<K>, k: K): (n: nat)
    ensures n <= |xs|
    ensures n > 0 <==> k in xs
  {
    if xs == [] then 0
    else (if xs[0] == k then 1 else 0) + Count(xs[1..], k)
  }

  /** The sum of the group sizes of `keys`. */
  function SumCounts<K(==)>(xs: seq<K>, keys: seq<K>): nat {
    if keys == [] then 0 else Count(xs, keys[0]) + SumCounts(xs, keys[1..])
  }

  /** The tail of a duplicate-free sequence is duplicate-free and lacks the head. */
  lemma NoDuplicatesTail<K>(s: seq<K>)
    requires s != [] && NoDuplicates(s)
    ensures NoDuplicates(s[1..]) && s[0] !in s[1..]
  {
    forall i, j | 0 <= i < j < |s[1..]| ensures s[1..][i] != s[1..][j] {
      assert s[1..][i] == s[i + 1] && s[1..][j] == s[j + 1];
    }
    forall k | 0 <= k < |s[1..]| ensures s[1..][k] != s[0] {
      assert s[1..][k] == s[k + 1];
    }
  }

  lemma {:induction false} CountOfUnique<K>(keys: seq<K>, x: K)
    requires NoDuplicates(keys) && x in keys
    ensures Count(keys, x) == 1
  {
    if keys[0] == x {
      assert x !in keys[1..] by {
        forall m | 0 <= m < |keys[1..]| ensures keys[1..][m] != x {
          assert keys[1..][m] == keys[m + 1];
        }
      }
    } else {
      assert x in keys[1..];
      CountOfUnique(keys[1..], x);
    }
  }

  lemma {:induction false} SumCountsCons<K>(x: K, xs: seq<K>, keys: seq<K>)
    ensures SumCounts([x] + xs, keys) == SumCounts(xs, keys) + Count(keys, x)
  {
    if keys != [] {
      assert ([x] + xs)[1..] == xs;
      SumCountsCons(x, xs, keys[1..]);
    }
  }

  /** Group sizes over a duplicate-free key list that covers every value add up to the whole. */
  lemma {:induction false} SumCountsCover<K>(xs: seq<K>, keys: seq<K>)
    requires NoDuplicates(keys)
    requires forall x :: x in xs ==> x in keys
    ensures SumCounts(xs, keys) == |xs|
  {
    if xs == [] {
      SumCountsEmpty(keys);
    } else {
      assert xs == [xs[0]] + xs[1..];
      SumCountsCons(xs[0], xs[1..], keys);
      CountOfUnique(keys, xs[0]);
      SumCountsCover(xs[1..], keys);
    }
  }

  lemma {:induction false} SumCountsEmpty<K>(keys: seq<K>)
    ensures SumCounts([], keys) == 0
  {
    if keys != [] {
      SumCountsEmpty(keys[1..]);
    }
  }

  /** Python's `str` order: lexicographic by code point, a proper prefix first. */
  predicate StrLess(a: string, b: string) {
    if |a| == 0 then |b| > 0
    else if |b| == 0 then false
    else if a[0] == b[0] then StrLess(a[1..], b[1..])
    else a[0] < b[0]
  }

  lemma {:induction false} StrLessIrreflexive(a: string)
    ensures !StrLess(a, a)
  {
    if |a| > 0 {
      StrLessIrreflexive(a[1..]);
    }
  }

  lemma {:induction false} StrLessTransitive(a: string, b: string, c: string)
    requires StrLess(a, b) && StrLess(b, c)
    ensures StrLess(a, c)
  {
    if |a| > 0 && a[0] == b[0] && b[0] == c[0] {
      StrLessTransitive(a[1..], b[1..], c[1..]);
    }
  }

  lemma {:induction false} StrLessTotal(a: string, b: string)
    requires a != b
    ensures StrLess(a, b) || StrLess(b, a)
  {
    if |a| > 0 && |b| > 0 && a[0] == b[0] {
      assert a == [a[0]] + a[1..] && b == [b[0]] + b[1..];
      StrLessTotal(a[1..], b[1..]);
    }
  }

  lemma StrLessIsStrictTotalOrder()
    ensures StrictTotalOrder(StrLess)
  {
    forall a ensures !StrLess(a, a) {
      StrLessIrreflexive(a);
    }
    forall a, b, c | StrLess(a, b) && StrLess(b, c) ensures StrLess(a, c) {
      StrLessTransitive(a, b, c);
    }
    forall a, b | a != b ensures StrLess(a, b) || StrLess(b, a) {
      StrLessTotal(a, b);
    }
  }

  predicate NatLess(a: nat, b: nat) {
    a < b
  }

  lemma NatLessIsStrictTotalOrder()
    ensures StrictTotalOrder(NatLess)
  {
  }

  /** The sorted distinct strings of `xs`, strictly ascending in `str` order. */
  lemma StrDistinct(xs: seq<string>)
    ensures Increasing(StrLess, Distinct(StrLess, xs))
    ensures NoDuplicates(Distinct(StrLess, xs))
  {
    StrLessIsStrictTotalOrder();
    DistinctIncreasing(StrLess, xs);
  }

  lemma NatDistinct(xs: seq<nat>)
    ensures Increasing(NatLess, Distinct(NatLess, xs))
    ensures NoDuplicates(Distinct(NatLess, xs))
  {
    NatLessIsStrictTotalOrder();
    DistinctIncreasing(NatLess, xs);
  }
}
