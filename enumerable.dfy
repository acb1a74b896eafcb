/**
 * The Ruby Array and Enumerable operations the deployer is built from
 * (`map`, `Array#-`, `uniq`, `to_h`, `group_by`), as functions over
 * sequences. Each is defined by recursion on the LAST element, which is
 * the order in which Ruby visits and accumulates elements.
 */
module Enumerable {
  import opened Wrappers

  /** No element occurs twice. */
  ghost predicate Distinct<T>(xs: seq<T>) {
    forall i, j :: 0 <= i < j < |xs| ==> xs[i] != xs[j]
  }

  /** `a` can be obtained from `b` by deleting elements (order kept). */
  ghost predicate IsSubsequence<T>(a: seq<T>, b: seq<T>)
    decreases |b|
  {
    if a == [] then true
    else if b == [] then false
    else if a[|a| - 1] == b[|b| - 1] then IsSubsequence(a[..|a| - 1], b[..|b| - 1])
    else IsSubsequence(a, b[..|b| - 1])
  }

  /** Index of the first occurrence of `x` in `xs`. */
  function FirstIndex<T(==)>(xs: seq<T>, x: T): (i: nat)
    requires x in xs
    ensures i < |xs| && xs[i] == x && x !in xs[..i]
  {
    if xs[0] == x then 0 else 1 + FirstIndex(xs[1..], x)
  }

  lemma {:induction false} FirstIndexOfPrefix<T>(xs: seq<T>, y: T, x: T)
    requires x in xs
    ensures x in xs + [y] && FirstIndex(xs + [y], x) == FirstIndex(xs, x)
  {
    if xs[0] != x {
      assert (xs + [y])[1..] == xs[1..] + [y];
      FirstIndexOfPrefix(xs[1..], y, x);
    }
  }

  lemma {:induction false} FirstIndexOfNew<T>(xs: seq<T>, y: T)
    requires y !in xs
    ensures y in xs + [y] && FirstIndex(xs + [y], y) == |xs|
  {
    if xs != [] {
      assert (xs + [y])[1..] == xs[1..] + [y];
      FirstIndexOfNew(xs[1..], y);
    }
  }

  /** Ruby `xs.map(&f)`. */
  function Map<T, U>(f: T -> U, xs: seq<T>): (r: seq<U>)
    ensures |r| == |xs|
    ensures forall i :: 0 <= i < |xs| ==> r[i] == f(xs[i])
  {
    if xs == [] then [] else Map(f, xs[..|xs| - 1]) + [f(xs[|xs| - 1])]
  }

  /** Ruby `xs - ys`: the elements of `xs` that do not occur in `ys`, in
      their order in `xs`, duplicates kept. */
  function Difference<T(==, !new)>(xs: seq<T>, ys: seq<T>): (r: seq<T>)
    ensures forall x :: x in r <==> x in xs && x !in ys
    ensures forall x :: multiset(r)[x] == if x in ys then 0 else multiset(xs)[x]
    ensures IsSubsequence(r, xs)
  {
    if xs == [] then []
    else
      var init, last := xs[..|xs| - 1], xs[|xs| - 1];
      assert xs == init + [last];
      var rest := Difference(init, ys);
      if last in ys then
        assert rest != [] ==> rest[|rest| - 1] in rest;
        rest
      else
        assert (rest + [last])[..|rest|] == rest;
        rest + [last]
  }

  /** Removing elements keeps a list free of repeats. */
  lemma {:induction false} DifferenceDistinct<T(!new)>(xs: seq<T>, ys: seq<T>)
    requires Distinct(xs)
    ensures Distinct(Difference(xs, ys))
  {
    if xs != [] {
      var init, last := xs[..|xs| - 1], xs[|xs| - 1];
      assert Distinct(init);
      DifferenceDistinct(init, ys);
      if last !in ys {
        assert last !in init;
        DistinctSnoc(Difference(init, ys), last);
      }
    }
  }

  /** Ruby `xs.uniq`: the first occurrence of each element, in order. */
  function Uniq<T(==, !new)>(xs: seq<T>): (r: seq<T>)
    ensures Distinct(r)
    ensures forall x :: x in r <==> x in xs
    ensures |r| <= |xs|
  {
    if xs == [] then []
    else
      var init, last := xs[..|xs| - 1], xs[|xs| - 1];
      assert xs == init + [last];
      var u := Uniq(init);
      if last in init then u else u + [last]
  }

  /** `uniq` lists the elements in the order of their first occurrence. */
  lemma {:induction false} UniqOrder<T(!new)>(xs: seq<T>)
    ensures forall i, j :: 0 <= i < j < |Uniq(xs)| ==> FirstIndex(xs, Uniq(xs)[i]) < FirstIndex(xs, Uniq(xs)[j])
  {
    if xs != [] {
      var init, last := xs[..|xs| - 1], xs[|xs| - 1];
      assert xs == init + [last];
      var u := Uniq(init);
      UniqOrder(init);
      forall i | 0 <= i < |u| ensures FirstIndex(xs, u[i]) == FirstIndex(init, u[i]) < |init| {
        FirstIndexOfPrefix(init, last, u[i]);
      }
      if last !in init {
        FirstIndexOfNew(init, last);
      }
    }
  }

  /** `uniq` loses nothing exactly when there was no duplicate. */
  lemma {:induction false} UniqLength<T(!new)>(xs: seq<T>)
    ensures |Uniq(xs)| == |xs| <==> Distinct(xs)
  {
    if xs != [] {
      var init, last := xs[..|xs| - 1], xs[|xs| - 1];
      assert xs == init + [last];
      UniqLength(init);
      if last in init {
        var k :| 0 <= k < |init| && init[k] == last;
        assert xs[k] == xs[|xs| - 1];
      } else {
        if Distinct(init) {
          forall i, j | 0 <= i < j < |xs| ensures xs[i] != xs[j] {
            if j == |xs| - 1 { assert xs[i] in init; } else { assert init[i] != init[j]; }
          }
        }
        if Distinct(xs) {
          forall i, j | 0 <= i < j < |init| ensures init[i] != init[j] {
            assert xs[i] != xs[j];
          }
        }
      }
    }
  }

  /** The key of a key/value pair. */
  function PairKey<K, V>(p: (K, V)): K { p.0 }

  /** The key of the pair at `i` does not occur again later in `pairs`. */
  ghost predicate LastWithKey<K, V>(pairs: seq<(K, V)>, i: nat)
    requires i < |pairs|
  {
    forall j :: i < j < |pairs| ==> pairs[j].0 != pairs[i].0
  }

  /** Ruby `pairs.to_h`: a later pair overwrites an earlier one with the same key. */
  function ToH<K(!new), V>(pairs: seq<(K, V)>): (m: map<K, V>)
    ensures forall k :: k in m <==> k in Map(PairKey, pairs)
    ensures forall i {:trigger LastWithKey(pairs, i)} ::
      0 <= i < |pairs| && LastWithKey(pairs, i) ==> pairs[i].0 in m && m[pairs[i].0] == pairs[i].1
  {
    if pairs == [] then map[]
    else
      var init, last := pairs[..|pairs| - 1], pairs[|pairs| - 1];
      var m := ToH(init);
      var r := m[last.0 := last.1];
      assert Map(PairKey, pairs) == Map(PairKey, init) + [last.0];
      forall i | 0 <= i < |pairs| && LastWithKey(pairs, i)
        ensures pairs[i].0 in r && r[pairs[i].0] == pairs[i].1
      {
        if i < |init| {
          assert init[i] == pairs[i];
          assert pairs[|pairs| - 1].0 != pairs[i].0;
          assert LastWithKey(init, i) by {
            forall j | i < j < |init| ensures init[j].0 != init[i].0 {
              assert init[j] == pairs[j];
            }
          }
          assert m[init[i].0] == init[i].1;
        } else {
          assert pairs[i] == last;
        }
      }
      r
  }

  /** Without repeated keys `to_h` keeps every pair. */
  lemma ToHOfDistinctKeys<K(!new), V>(pairs: seq<(K, V)>)
    requires forall i, j :: 0 <= i < j < |pairs| ==> pairs[i].0 != pairs[j].0
    ensures forall i :: 0 <= i < |pairs| ==> pairs[i].0 in ToH(pairs) && ToH(pairs)[pairs[i].0] == pairs[i].1
  {
    forall i | 0 <= i < |pairs| ensures pairs[i].0 in ToH(pairs) && ToH(pairs)[pairs[i].0] == pairs[i].1 {
      DistinctKeyIsLast(pairs, i);
    }
  }

  /** With distinct keys every pair is the last one with its key. */
  lemma DistinctKeyIsLast<K(!new), V>(pairs: seq<(K, V)>, i: nat)
    requires forall i, j :: 0 <= i < j < |pairs| ==> pairs[i].0 != pairs[j].0
    requires i < |pairs|
    ensures LastWithKey(pairs, i)
    ensures pairs[i].0 in ToH(pairs) && ToH(pairs)[pairs[i].0] == pairs[i].1
  {
    if !LastWithKey(pairs, i) {
      assert false;
    }
  }

  /** `to_h` keeps one entry per pair exactly when no key is repeated. */
  lemma {:induction false} ToHSize<K(!new), V>(pairs: seq<(K, V)>)
    ensures |ToH(pairs)| <= |pairs|
    ensures |ToH(pairs)| == |pairs| <==> Distinct(Map(PairKey, pairs))
  {
    if pairs != [] {
      var init, last := pairs[..|pairs| - 1], pairs[|pairs| - 1];
      ToHSize(init);
      var m := ToH(init);
      var ks, ks' := Map(PairKey, init), Map(PairKey, pairs);
      assert ks' == ks + [last.0];
      assert ToH(pairs) == m[last.0 := last.1];
      if last.0 in m {
        var k :| 0 <= k < |ks| && ks[k] == last.0;
        assert ks'[k] == ks'[|ks| ];
      } else {
        assert |ToH(pairs)| == |m| + 1;
        DistinctSnoc(ks, last.0);
      }
    }
  }

  lemma DistinctSnoc<T>(xs: seq<T>, y: T)
    requires y !in xs
    ensures Distinct(xs + [y]) <==> Distinct(xs)
  {
    var ys := xs + [y];
    if Distinct(xs) {
      forall i, j | 0 <= i < j < |ys| ensures ys[i] != ys[j] {
        if j < |xs| { assert ys[i] == xs[i] && ys[j] == xs[j]; } else { assert ys[i] in xs; }
      }
    }
    if Distinct(ys) {
      forall i, j | 0 <= i < j < |xs| ensures xs[i] != xs[j] {
        assert ys[i] == xs[i] && ys[j] == xs[j];
      }
    }
  }

  /** The elements of `xs` whose key is `k`, in order. */
  function WithKey<T(==, !new), K(==)>(xs: seq<T>, key: T -> K, k: K): (r: seq<T>)
    ensures forall x :: x in r <==> x in xs && key(x) == k
    ensures IsSubsequence(r, xs)
  {
    if xs == [] then []
    else
      var init, last := xs[..|xs| - 1], xs[|xs| - 1];
      assert xs == init + [last];
      var rest := WithKey(init, key, k);
      if key(last) == k then
        assert (rest + [last])[..|rest|] == rest;
        rest + [last]
      else
        assert rest != [] ==> rest[|rest| - 1] in rest;
        rest
  }

  /** The key of a group. */
  function GroupKey<K, T>(g: (K, seq<T>)): K { g.0 }

  /** Position of the group with key `k`, if there is one. */
  function FindGroup<K(==), T>(gs: seq<(K, seq<T>)>, k: K): (r: Option<nat>)
    ensures r.Some? ==> r.value < |gs| && gs[r.value].0 == k
    ensures r.None? ==> forall i :: 0 <= i < |gs| ==> gs[i].0 != k
  {
    if gs == [] then None
    else if gs[|gs| - 1].0 == k then Some(|gs| - 1)
    else FindGroup(gs[..|gs| - 1], k)
  }

  /** One step of `group_by`: append `x` to the group of `k`, opening a
      new group at the end when `k` is new. */
  function AddToGroup<K(==), T>(gs: seq<(K, seq<T>)>, k: K, x: T): seq<(K, seq<T>)>
  {
    match FindGroup(gs, k)
    case Some(j) => gs[j := (k, gs[j].1 + [x])]
    case None => gs + [(k, [x])]
  }

  /** `gs` is what `group_by` makes of `xs`: one group per distinct key,
      keys in order of first occurrence, and each group holding exactly
      the elements with its key, in listing order. */
  ghost predicate GroupsOf<T(!new), K(!new)>(gs: seq<(K, seq<T>)>, xs: seq<T>, key: T -> K) {
    && Map(GroupKey, gs) == Uniq(Map(key, xs))
    && forall i :: 0 <= i < |gs| ==> gs[i].1 == WithKey(xs, key, gs[i].0)
  }

  /** Ruby `xs.group_by(&key)` as an ordered list of (key, members). */
  function GroupBy<T(==, !new), K(==, !new)>(xs: seq<T>, key: T -> K): (gs: seq<(K, seq<T>)>)
  {
    if xs == [] then [] else AddToGroup(GroupBy(xs[..|xs| - 1], key), key(xs[|xs| - 1]), xs[|xs| - 1])
  }

  lemma MapSnoc<T, U>(f: T -> U, xs: seq<T>, x: T)
    ensures Map(f, xs + [x]) == Map(f, xs) + [f(x)]
  {
    assert (xs + [x])[..|xs|] == xs;
  }

  lemma DifferenceSnoc<T(!new)>(xs: seq<T>, ys: seq<T>, x: T)
    ensures Difference(xs + [x], ys) == Difference(xs, ys) + (if x in ys then [] else [x])
  {
    assert (xs + [x])[..|xs|] == xs;
  }

  lemma UniqSnoc<T(!new)>(xs: seq<T>, x: T)
    ensures Uniq(xs + [x]) == if x in xs then Uniq(xs) else Uniq(xs) + [x]
  {
    assert (xs + [x])[..|xs|] == xs;
  }

  lemma WithKeySnoc<T(!new), K>(xs: seq<T>, key: T -> K, k: K, x: T)
    ensures WithKey(xs + [x], key, k) == WithKey(xs, key, k) + (if key(x) == k then [x] else [])
  {
    assert (xs + [x])[..|xs|] == xs;
  }

  lemma WithAbsentKey<T(!new), K>(xs: seq<T>, key: T -> K, k: K)
    requires k !in Map(key, xs)
    ensures WithKey(xs, key, k) == []
  {
  }

  /** A `group_by` step that appends to an existing group keeps the grouping exact. */
  lemma AddToExistingGroup<T(!new), K(!new)>(gs: seq<(K, seq<T>)>, xs: seq<T>, key: T -> K, x: T, j: nat)
    requires GroupsOf(gs, xs, key)
    requires j < |gs| && gs[j].0 == key(x)
    ensures GroupsOf(gs[j := (key(x), gs[j].1 + [x])], xs + [x], key)
  {
    var r := gs[j := (key(x), gs[j].1 + [x])];
    ExistingGroupKeys(gs, xs, key, x, j);
    forall i | 0 <= i < |r| ensures r[i].1 == WithKey(xs + [x], key, r[i].0) {
      ExistingGroupMembers(gs, xs, key, x, j, i);
    }
  }

  /** Appending to an existing group leaves the group keys as they were. */
  lemma ExistingGroupKeys<T(!new), K(!new)>(gs: seq<(K, seq<T>)>, xs: seq<T>, key: T -> K, x: T, j: nat)
    requires Map(GroupKey, gs) == Uniq(Map(key, xs))
    requires j < |gs| && gs[j].0 == key(x)
    ensures Map(GroupKey, gs[j := (key(x), gs[j].1 + [x])]) == Uniq(Map(key, xs + [x]))
  {
    var r := gs[j := (key(x), gs[j].1 + [x])];
    MapSnoc(key, xs, x);
    assert Map(GroupKey, gs)[j] == key(x);
    assert key(x) in Map(key, xs);
    UniqSnoc(Map(key, xs), key(x));
    assert Map(GroupKey, r) == Map(GroupKey, gs);
  }

  /** Appending to an existing group keeps every group exact. */
  lemma ExistingGroupMembers<T(!new), K(!new)>(gs: seq<(K, seq<T>)>, xs: seq<T>, key: T -> K, x: T, j: nat, i: nat)
    requires GroupsOf(gs, xs, key)
    requires j < |gs| && gs[j].0 == key(x) && i < |gs|
    ensures gs[j := (key(x), gs[j].1 + [x])][i].1 == WithKey(xs + [x], key, gs[i].0)
  {
    WithKeySnoc(xs, key, gs[i].0, x);
    if i != j {
      assert Map(GroupKey, gs)[i] != Map(GroupKey, gs)[j];
    }
  }

  /** A `group_by` step that opens a new group keeps the grouping exact. */
  lemma AddNewGroup<T(!new), K(!new)>(gs: seq<(K, seq<T>)>, xs: seq<T>, key: T -> K, x: T)
    requires GroupsOf(gs, xs, key)
    requires forall i :: 0 <= i < |gs| ==> gs[i].0 != key(x)
    ensures GroupsOf(gs + [(key(x), [x])], xs + [x], key)
  {
    var ks := Map(key, xs);
    var r := gs + [(key(x), [x])];
    MapSnoc(key, xs, x);
    assert key(x) !in Uniq(ks);
    UniqSnoc(ks, key(x));
    MapSnoc(GroupKey, gs, (key(x), [x]));
    WithAbsentKey(xs, key, key(x));
    forall i | 0 <= i < |r| ensures r[i].1 == WithKey(xs + [x], key, r[i].0) {
      WithKeySnoc(xs, key, r[i].0, x);
    }
  }

  /** `group_by` groups exactly: see `GroupsOf`. */
  lemma {:induction false} GroupByExact<T(!new), K(!new)>(xs: seq<T>, key: T -> K)
    ensures GroupsOf(GroupBy(xs, key), xs, key)
  {
    if xs != [] {
      var init := xs[..|xs| - 1];
      assert xs == init + [xs[|xs| - 1]];
      GroupByExact(init, key);
      var x := xs[|xs| - 1];
      match FindGroup(GroupBy(init, key), key(x))
      case Some(j) => AddToExistingGroup(GroupBy(init, key), init, key, x, j);
      case None => AddNewGroup(GroupBy(init, key), init, key, x);
    }
  }

  /** Sum of the group sizes. */
  function TotalSize<K, T>(gs: seq<(K, seq<T>)>): nat
  {
    if gs == [] then 0 else TotalSize(gs[..|gs| - 1]) + |gs[|gs| - 1].1|
  }

  lemma {:induction false} TotalSizeAppendToGroup<K, T>(gs: seq<(K, seq<T>)>, j: nat, k: K, x: T)
    requires j < |gs|
    ensures TotalSize(gs[j := (k, gs[j].1 + [x])]) == TotalSize(gs) + 1
  {
    var gs' := gs[j := (k, gs[j].1 + [x])];
    if j < |gs| - 1 {
      assert gs'[..|gs| - 1] == gs[..|gs| - 1][j := (k, gs[j].1 + [x])];
      TotalSizeAppendToGroup(gs[..|gs| - 1], j, k, x);
    } else {
      assert gs'[..|gs| - 1] == gs[..|gs| - 1];
    }
  }

  /** Every element lands in exactly one group, so the group sizes add up
      to the length of the listing. */
  lemma {:induction false} GroupBySizes<T(!new), K(!new)>(xs: seq<T>, key: T -> K)
    ensures TotalSize(GroupBy(xs, key)) == |xs|
  {
    if xs != [] {
      var init, x := xs[..|xs| - 1], xs[|xs| - 1];
      var gs := GroupBy(init, key);
      GroupBySizes(init, key);
      match FindGroup(gs, key(x))
      case Some(j) =>
        TotalSizeAppendToGroup(gs, j, key(x), x);
      case None =>
        assert (gs + [(key(x), [x])])[..|gs|] == gs;
    }
  }

  /** Every element's key has a group, and no key has two. */
  lemma GroupByKeys<T(!new), K(!new)>(xs: seq<T>, key: T -> K)
    ensures var gs := GroupBy(xs, key);
      && (forall x :: x in xs ==> key(x) in Map(GroupKey, gs))
      && (forall i, j :: 0 <= i < j < |gs| ==> gs[i].0 != gs[j].0)
  {
    var gs := GroupBy(xs, key);
    var ks := Map(key, xs);
    GroupByExact(xs, key);
    forall x | x in xs ensures key(x) in Map(GroupKey, gs) {
      var n :| 0 <= n < |xs| && xs[n] == x;
      assert ks[n] == key(x);
    }
    forall i, j | 0 <= i < j < |gs| ensures gs[i].0 != gs[j].0 {
      assert Map(GroupKey, gs)[i] == gs[i].0 && Map(GroupKey, gs)[j] == gs[j].0;
    }
  }

  /** `GroupByMembers` for one group and one element. */
  lemma GroupByMember<T(!new), K(!new)>(xs: seq<T>, key: T -> K, i: nat, x: T)
    requires i < |GroupBy(xs, key)|
    ensures x in GroupBy(xs, key)[i].1 <==> x in xs && GroupBy(xs, key)[i].0 == key(x)
  {
    GroupByMembers(xs, key);
  }

  /** A group holds exactly the listed elements that carry its key, so
      each element is in the group of its key and in no other. */
  lemma GroupByMembers<T(!new), K(!new)>(xs: seq<T>, key: T -> K)
    ensures var gs := GroupBy(xs, key);
      forall i, x :: 0 <= i < |gs| ==> (x in gs[i].1 <==> x in xs && gs[i].0 == key(x))
  {
    GroupByExact(xs, key);
  }

  /** No group is empty. */
  lemma GroupByNonEmpty<T(!new), K(!new)>(xs: seq<T>, key: T -> K)
    ensures var gs := GroupBy(xs, key);
      forall i :: 0 <= i < |gs| ==> gs[i].1 != []
  {
    var gs := GroupBy(xs, key);
    var ks := Map(key, xs);
    GroupByExact(xs, key);
    forall i | 0 <= i < |gs| ensures gs[i].1 != [] {
      assert Map(GroupKey, gs)[i] == gs[i].0;
      assert gs[i].0 in ks;
      var n :| 0 <= n < |ks| && ks[n] == gs[i].0;
      assert xs[n] in gs[i].1;
    }
  }
}
