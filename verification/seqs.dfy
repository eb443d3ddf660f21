/** The list operations the store and the client views are built from:
    filtering, mapping, the subsequence relation, and the stable sort by a
    numeric key, largest key first. */
module Seqs {
  /** `a` is obtained from `b` by deleting elements, keeping the order. */
  predicate IsSubsequence<T(==)>(a: seq<T>, b: seq<T>)
    decreases |b|
  {
    if a == [] then true
    else if b == [] then false
    else (a[0] == b[0] && IsSubsequence(a[1..], b[1..])) || IsSubsequence(a, b[1..])
  }

  /** The elements of `s` that satisfy `keep`, in their original order. */
  function Filter<T(==)>(s: seq<T>, keep: T -> bool): (r: seq<T>)
    ensures |r| <= |s|
    ensures forall i | 0 <= i < |r| :: keep(r[i])
    ensures IsSubsequence(r, s)
  {
    if s == [] then []
    else
      var rest := Filter(s[1..], keep);
      assert s == [s[0]] + s[1..];
      if keep(s[0]) then [s[0]] + rest else rest
  }

  /** `Filter` keeps exactly the elements of `s` that satisfy `keep`. */
  lemma {:induction false} FilterMembership<T>(s: seq<T>, keep: T -> bool)
    ensures forall i | 0 <= i < |Filter(s, keep)| :: Filter(s, keep)[i] in s
    ensures forall i | 0 <= i < |s| && keep(s[i]) :: s[i] in Filter(s, keep)
  {
    SubsequenceMembership(Filter(s, keep), s);
    if s != [] {
      FilterMembership(s[1..], keep);
      assert s == [s[0]] + s[1..];
      forall i | 0 <= i < |s| && keep(s[i])
        ensures s[i] in Filter(s, keep)
      {
        if i > 0 { assert s[i] == s[1..][i - 1]; }
      }
    }
  }

  /** `Filter` keeps every kept value exactly as often as `s` holds it and
      drops every other value altogether. */
  lemma {:induction false} FilterMultiset<T>(s: seq<T>, keep: T -> bool)
    ensures forall x :: multiset(Filter(s, keep))[x] == if keep(x) then multiset(s)[x] else 0
  {
    if s != [] {
      FilterMultiset(s[1..], keep);
      FilterCons(s, keep);
      assert s == [s[0]] + s[1..];
    }
  }

  /** `s` with every occurrence of `x` removed, the rest in order. */
  function RemoveAll<T(==)>(s: seq<T>, x: T): (r: seq<T>)
    ensures x !in r
    ensures forall y | y in s && y != x :: y in r
    ensures forall y | y in r :: y in s
    ensures IsSubsequence(r, s)
  {
    FilterMembership(s, y => y != x);
    Filter(s, y => y != x)
  }

  /** `RemoveAll` keeps every other value as often as `s` holds it. */
  lemma RemoveAllCount<T>(s: seq<T>, x: T, y: T)
    requires y != x
    ensures multiset(RemoveAll(s, x))[y] == multiset(s)[y]
  {
    FilterMultiset(s, z => z != x);
  }

  lemma {:induction false} SubsequenceMembership<T>(a: seq<T>, b: seq<T>)
    requires IsSubsequence(a, b)
    ensures forall x | x in a :: x in b
    ensures |a| <= |b|
    decreases |b|
  {
    if a != [] {
      if a[0] == b[0] && IsSubsequence(a[1..], b[1..]) {
        SubsequenceMembership(a[1..], b[1..]);
        assert a == [a[0]] + a[1..];
      } else {
        SubsequenceMembership(a, b[1..]);
      }
    }
  }

  lemma {:induction false} SubsequenceTransitive<T>(a: seq<T>, b: seq<T>, c: seq<T>)
    requires IsSubsequence(a, b) && IsSubsequence(b, c)
    ensures IsSubsequence(a, c)
    decreases |c|
  {
    if a != [] {
      SubsequenceMembership(b, c);
      if b[0] == c[0] && IsSubsequence(b[1..], c[1..]) {
        if a[0] == b[0] && IsSubsequence(a[1..], b[1..]) {
          SubsequenceTransitive(a[1..], b[1..], c[1..]);
        } else {
          SubsequenceTransitive(a, b[1..], c[1..]);
        }
      } else {
        SubsequenceTransitive(a, b, c[1..]);
      }
    }
  }

  lemma {:induction false} SubsequenceMultiset<T>(a: seq<T>, b: seq<T>)
    requires IsSubsequence(a, b)
    ensures multiset(a) <= multiset(b)
    decreases |b|
  {
    if a != [] {
      assert b == [b[0]] + b[1..];
      if a[0] == b[0] && IsSubsequence(a[1..], b[1..]) {
        SubsequenceMultiset(a[1..], b[1..]);
        assert a == [a[0]] + a[1..];
      } else {
        SubsequenceMultiset(a, b[1..]);
      }
    }
  }

  lemma AppendAssoc<T>(a: seq<T>, b: seq<T>, c: seq<T>)
    ensures a + (b + c) == (a + b) + c
  {
  }

  /** One step of `Filter`: the head, when kept, followed by the filtered tail. */
  lemma FilterCons<T>(s: seq<T>, keep: T -> bool)
    requires s != []
    ensures Filter(s, keep) == (if keep(s[0]) then [s[0]] else []) + Filter(s[1..], keep)
  {
  }

  /** Filtering distributes over concatenation. */
  lemma {:induction false} FilterAppend<T>(s: seq<T>, t: seq<T>, keep: T -> bool)
    ensures Filter(s + t, keep) == Filter(s, keep) + Filter(t, keep)
  {
    if s == [] {
      assert s + t == t;
    } else {
      var h := if keep(s[0]) then [s[0]] else [];
      assert (s + t)[0] == s[0];
      assert (s + t)[1..] == s[1..] + t;
      calc {
        Filter(s + t, keep);
        { FilterCons(s + t, keep); }
        h + Filter(s[1..] + t, keep);
        { FilterAppend(s[1..], t, keep); }
        h + (Filter(s[1..], keep) + Filter(t, keep));
        { AppendAssoc(h, Filter(s[1..], keep), Filter(t, keep)); }
        (h + Filter(s[1..], keep)) + Filter(t, keep);
        { FilterCons(s, keep); }
        Filter(s, keep) + Filter(t, keep);
      }
    }
  }

  /** Two successive filters, the second one stricter, are the second alone. */
  lemma {:induction false} FilterThenStricter<T>(s: seq<T>, weak: T -> bool, strong: T -> bool)
    requires forall x :: strong(x) ==> weak(x)
    ensures Filter(Filter(s, weak), strong) == Filter(s, strong)
  {
    if s != [] {
      FilterThenStricter(s[1..], weak, strong);
      if weak(s[0]) {
        var f := Filter(s, weak);
        assert f[0] == s[0] && f[1..] == Filter(s[1..], weak);
      }
    }
  }

  /** A filter and its complement split `s` into two parts that together
      hold every element exactly as often as `s` does. */
  lemma {:induction false} FilterPartition<T>(s: seq<T>, keep: T -> bool, drop: T -> bool)
    requires forall i | 0 <= i < |s| :: drop(s[i]) == !keep(s[i])
    ensures multiset(Filter(s, keep)) + multiset(Filter(s, drop)) == multiset(s)
  {
    if s != [] {
      var h, t := s[0], s[1..];
      var a, b := Filter(t, keep), Filter(t, drop);
      assert forall i | 0 <= i < |t| :: t[i] == s[i + 1];
      FilterPartition(t, keep, drop);
      FilterCons(s, keep);
      FilterCons(s, drop);
      assert s == [h] + t;
      assert multiset(s) == multiset([h]) + multiset(t);
      if keep(h) {
        assert Filter(s, keep) == [h] + a && Filter(s, drop) == b;
        assert multiset([h] + a) == multiset([h]) + multiset(a);
      } else {
        assert Filter(s, keep) == a && Filter(s, drop) == [h] + b;
        assert multiset([h] + b) == multiset([h]) + multiset(b);
      }
    }
  }

  /** Appending elements the filter rejects does not change its result. */
  lemma FilterAppendNone<T>(s: seq<T>, t: seq<T>, keep: T -> bool)
    requires forall i | 0 <= i < |t| :: !keep(t[i])
    ensures Filter(s + t, keep) == Filter(s, keep)
  {
    FilterAppend(s, t, keep);
    FilterKeepsNone(t, keep);
    assert Filter(s, keep) + [] == Filter(s, keep);
  }

  /** A filter that rejects nothing in `s` returns `s` itself. */
  lemma {:induction false} FilterKeepsAll<T>(s: seq<T>, keep: T -> bool)
    requires forall i | 0 <= i < |s| :: keep(s[i])
    ensures Filter(s, keep) == s
  {
    if s != [] {
      FilterKeepsAll(s[1..], keep);
      assert s == [s[0]] + s[1..];
    }
  }

  /** A filter that accepts nothing in `s` returns the empty list. */
  lemma {:induction false} FilterKeepsNone<T>(s: seq<T>, keep: T -> bool)
    requires forall i | 0 <= i < |s| :: !keep(s[i])
    ensures Filter(s, keep) == []
  {
    if s != [] {
      FilterKeepsNone(s[1..], keep);
    }
  }

  /** Appending `x` and then removing every `x` gives back a list without `x`. */
  lemma RemoveAfterAppend<T>(s: seq<T>, x: T)
    requires x !in s
    ensures RemoveAll(s + [x], x) == s
  {
    FilterAppend(s, [x], y => y != x);
    FilterKeepsAll(s, y => y != x);
  }

  // ---------------------------------------------------------------------------
  // Map

  /** `f` applied to each element of `s`, in order. */
  function Map<A, B>(s: seq<A>, f: A -> B): (r: seq<B>)
    ensures |r| == |s|
    ensures forall i | 0 <= i < |s| :: r[i] == f(s[i])
  {
    seq(|s|, i requires 0 <= i < |s| => f(s[i]))
  }

  lemma MapAppend<A, B>(s: seq<A>, t: seq<A>, f: A -> B)
    ensures Map(s + t, f) == Map(s, f) + Map(t, f)
  {
  }

  /** Mapping two permutations of each other gives permutations of each other. */
  lemma {:induction false} MapPermutation<A, B>(a: seq<A>, b: seq<A>, f: A -> B)
    requires multiset(a) == multiset(b)
    ensures multiset(Map(a, f)) == multiset(Map(b, f))
    decreases |a|
  {
    if a == [] {
      assert |b| == |multiset(b)| == 0;
    } else {
      var x := a[0];
      assert x in multiset(b);
      var j :| 0 <= j < |b| && b[j] == x;
      var b' := b[..j] + b[j + 1..];
      RemoveAt(b, j);
      assert a == [x] + a[1..];
      assert multiset(a) == multiset(a[1..]) + multiset{x};
      CancelOne(multiset(a[1..]), multiset(b'), x);
      calc {
        multiset(Map(a, f));
        { MapAppend([x], a[1..], f); assert Map([x], f) == [f(x)]; }
        multiset([f(x)] + Map(a[1..], f));
        multiset(Map(a[1..], f)) + multiset{f(x)};
        { MapPermutation(a[1..], b', f); }
        multiset(Map(b', f)) + multiset{f(x)};
        { MapRemoveAt(b, j, f); }
        multiset(Map(b, f));
      }
    }
  }

  lemma CancelOne<A>(m: multiset<A>, n: multiset<A>, x: A)
    requires m + multiset{x} == n + multiset{x}
    ensures m == n
  {
    assert m == (m + multiset{x}) - multiset{x};
    assert n == (n + multiset{x}) - multiset{x};
  }

  /** Taking out the element at `j` takes one copy of it out of the multiset. */
  lemma RemoveAt<A>(b: seq<A>, j: nat)
    requires j < |b|
    ensures multiset(b) == multiset(b[..j] + b[j + 1..]) + multiset{b[j]}
  {
    assert b == b[..j] + [b[j]] + b[j + 1..];
  }

  lemma MapRemoveAt<A, B>(b: seq<A>, j: nat, f: A -> B)
    requires j < |b|
    ensures multiset(Map(b, f)) == multiset(Map(b[..j] + b[j + 1..], f)) + multiset{f(b[j])}
  {
    MapAppend(b[..j], b[j + 1..], f);
    var m := Map(b, f);
    RemoveAt(m, j);
    assert m[..j] == Map(b[..j], f);
    assert m[j + 1..] == Map(b[j + 1..], f);
  }

  // ---------------------------------------------------------------------------
  // Stable sort, descending by an integer key.

  predicate SortedDesc<T>(s: seq<T>, key: T -> int) {
    forall i, j | 0 <= i < j < |s| :: key(s[i]) >= key(s[j])
  }

  /** `x` placed before the first element whose key is not larger than its own. */
  function InsertDesc<T(==)>(x: T, s: seq<T>, key: T -> int): (r: seq<T>)
    requires SortedDesc(s, key)
    ensures SortedDesc(r, key)
    ensures multiset(r) == multiset(s) + multiset{x}
    ensures |r| == |s| + 1
  {
    if s == [] || key(s[0]) <= key(x) then
      InsertFront(x, s, key);
      [x] + s
    else
      SortedTail(s, key);
      var rest := InsertDesc(x, s[1..], key);
      InsertBehind(x, s, rest, key);
      [s[0]] + rest
  }

  /** `x` goes in front when its key is at least the head's. */
  lemma InsertFront<T>(x: T, s: seq<T>, key: T -> int)
    requires SortedDesc(s, key)
    requires s == [] || key(s[0]) <= key(x)
    ensures SortedDesc([x] + s, key)
  {
    forall j | 0 <= j < |s|
      ensures key(s[j]) <= key(x)
    {
      if j > 0 { assert key(s[0]) >= key(s[j]); }
    }
    SortedCons(x, s, key);
  }

  /** Otherwise the head stays in front of `x` inserted into the tail. */
  lemma InsertBehind<T>(x: T, s: seq<T>, rest: seq<T>, key: T -> int)
    requires s != [] && SortedDesc(s, key) && key(x) < key(s[0])
    requires SortedDesc(rest, key)
    requires multiset(rest) == multiset(s[1..]) + multiset{x}
    ensures SortedDesc([s[0]] + rest, key)
    ensures multiset([s[0]] + rest) == multiset(s) + multiset{x}
  {
    assert s == [s[0]] + s[1..];
    assert multiset(s[1..] + [x]) == multiset(s[1..]) + multiset{x};
    forall j | 0 <= j < |s[1..] + [x]|
      ensures key((s[1..] + [x])[j]) <= key(s[0])
    {
      if j < |s| - 1 { assert (s[1..] + [x])[j] == s[j + 1]; }
    }
    BoundedByPermutation(rest, s[1..] + [x], key, key(s[0]));
    SortedCons(s[0], rest, key);
  }

  lemma SortedTail<T>(s: seq<T>, key: T -> int)
    requires s != [] && SortedDesc(s, key)
    ensures SortedDesc(s[1..], key)
  {
    var t := s[1..];
    forall i, j | 0 <= i < j < |t|
      ensures key(t[i]) >= key(t[j])
    {
      assert t[i] == s[i + 1] && t[j] == s[j + 1];
    }
  }

  /** A head whose key is at least every key of a sorted tail keeps it sorted. */
  lemma SortedCons<T>(h: T, s: seq<T>, key: T -> int)
    requires SortedDesc(s, key)
    requires forall j | 0 <= j < |s| :: key(s[j]) <= key(h)
    ensures SortedDesc([h] + s, key)
  {
    var r := [h] + s;
    forall i, j | 0 <= i < j < |r|
      ensures key(r[i]) >= key(r[j])
    {
      assert r[j] == s[j - 1];
      if i > 0 { assert r[i] == s[i - 1]; }
    }
  }

  /** A bound on the keys of every element carries over to any permutation. */
  lemma BoundedByPermutation<T>(r: seq<T>, pool: seq<T>, key: T -> int, bound: int)
    requires multiset(r) == multiset(pool)
    requires forall j | 0 <= j < |pool| :: key(pool[j]) <= bound
    ensures forall j | 0 <= j < |r| :: key(r[j]) <= bound
  {
    forall j | 0 <= j < |r|
      ensures key(r[j]) <= bound
    {
      assert r[j] in multiset(pool);
      var k :| 0 <= k < |pool| && pool[k] == r[j];
    }
  }

  /** Insertion sort; equal keys keep their relative input order, as the
      stable `Array.prototype.sort` does. */
  function SortDesc<T(==)>(s: seq<T>, key: T -> int): (r: seq<T>)
    ensures SortedDesc(r, key)
    ensures multiset(r) == multiset(s)
    ensures |r| == |s|
  {
    if s == [] then []
    else
      assert s == [s[0]] + s[1..];
      InsertDesc(s[0], SortDesc(s[1..], key), key)
  }

  /** The elements whose key is `k`. */
  function KeyIs<T>(key: T -> int, k: int): T -> bool {
    x => key(x) == k
  }

  lemma {:induction false} InsertDescStable<T>(x: T, s: seq<T>, key: T -> int, k: int)
    requires SortedDesc(s, key)
    ensures Filter(InsertDesc(x, s, key), KeyIs(key, k))
         == (if key(x) == k then [x] else []) + Filter(s, KeyIs(key, k))
  {
    var eq := KeyIs(key, k);
    if s == [] || key(s[0]) <= key(x) {
      var r := [x] + s;
      assert r[0] == x && r[1..] == s;
    } else {
      var rest := InsertDesc(x, s[1..], key);
      InsertDescStable(x, s[1..], key, k);
      var r := [s[0]] + rest;
      assert r[0] == s[0] && r[1..] == rest;
      assert Filter(s, eq) == (if key(s[0]) == k then [s[0]] else []) + Filter(s[1..], eq);
    }
  }

  /** Stability: for every key value, the elements carrying it come out of
      the sort in the order they went in. */
  lemma {:induction false} SortDescStable<T>(s: seq<T>, key: T -> int, k: int)
    ensures Filter(SortDesc(s, key), KeyIs(key, k)) == Filter(s, KeyIs(key, k))
  {
    if s != [] {
      SortDescStable(s[1..], key, k);
      InsertDescStable(s[0], SortDesc(s[1..], key), key, k);
    }
  }
}
