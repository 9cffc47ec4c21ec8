/**
 * The specification side of SortKeysByValue in handlers.go: the keys carrying a value, how
 * often a value occurs, and what each round of the function's outer loop has built.
 */
module KeyOrder {
  import opened Strings
  import Discovery

  /** The values of the keys `ks`, in that order. */
  function ValuesIn(m: map<string, string>, ks: seq<string>): (vs: seq<string>)
    requires KeysIn(m, ks)
    ensures |vs| == |ks|
    ensures forall i :: 0 <= i < |ks| ==> vs[i] == m[ks[i]]
  {
    seq(|ks|, i requires 0 <= i < |ks| => m[ks[i]])
  }

  /** The keys among `ks` whose value is `v`, in the order of `ks`. */
  function KeysWithValue(m: map<string, string>, ks: seq<string>, v: string): (r: seq<string>)
    requires KeysIn(m, ks)
    ensures forall i :: 0 <= i < |r| ==> r[i] in m && m[r[i]] == v
  {
    if ks == [] then []
    else
      var last := ks[|ks| - 1];
      KeysWithValue(m, ks[..|ks| - 1], v) + if m[last] == v then [last] else []
  }

  /** The number of keys that carry the value `v`. */
  ghost function Multiplicity(m: map<string, string>, v: string): nat
  {
    |set k | k in m && m[k] == v|
  }

  /** No two keys carry the same value. */
  ghost predicate Injective(m: map<string, string>)
  {
    forall a, b :: a in m && b in m && m[a] == m[b] ==> a == b
  }

  /** `ks` lists every key of `m` exactly once. */
  ghost predicate Enumerates(m: map<string, string>, ks: seq<string>)
  {
    Discovery.Distinct(ks) && KeysIn(m, ks) && (forall k :: k in m ==> k in ks)
  }

  lemma MultiplicityRemove(m: map<string, string>, last: string, v: string)
    requires last in m
    ensures Multiplicity(m, v) == Multiplicity(m - {last}, v) + if m[last] == v then 1 else 0
  {
    var rest := m - {last};
    var with := set k | k in m && m[k] == v;
    var without := set k | k in rest && rest[k] == v;
    if m[last] == v {
      assert with == without + {last};
    } else {
      assert with == without;
    }
  }

  lemma ValuesInLast(m: map<string, string>, ks: seq<string>)
    requires ks != [] && Enumerates(m, ks)
    ensures var init, last := ks[..|ks| - 1], ks[|ks| - 1];
      Enumerates(m - {last}, init) && ValuesIn(m, ks) == ValuesIn(m - {last}, init) + [m[last]]
  {
    var init, last := ks[..|ks| - 1], ks[|ks| - 1];
    assert ks == init + [last];
    assert last !in init;
    forall k | k in m - {last}
      ensures k in init
    {
      assert k in ks;
    }
  }

  lemma MultiplicityWithin(m: map<string, string>, v: string)
    ensures Multiplicity(m, v) <= |m.Keys|
  {
    var with := set k | k in m && m[k] == v;
    assert with <= m.Keys;
    SubsetCard(with, m.Keys);
  }

  lemma SubsetCard(a: set<string>, b: set<string>)
    requires a <= b
    ensures |a| <= |b|
  {
    assert b == a + (b - a);
  }

  /** Keys with value `v` among `ks` followed by `k`. */
  lemma KeysWithValueNext(m: map<string, string>, ks: seq<string>, k: string, v: string)
    requires forall i :: 0 <= i < |ks| ==> ks[i] in m
    requires k in m
    ensures KeysWithValue(m, ks + [k], v) == KeysWithValue(m, ks, v) + if m[k] == v then [k] else []
  {
    assert (ks + [k])[..|ks|] == ks;
  }

  /** In a list without repetitions every member occurs once. */
  lemma {:induction false} DistinctOnce(s: seq<string>, x: string)
    requires Discovery.Distinct(s)
    ensures multiset(s)[x] == if x in s then 1 else 0
  {
    if s != [] {
      var init := s[..|s| - 1];
      assert s == init + [s[|s| - 1]];
      assert Discovery.Distinct(init);
      DistinctOnce(init, x);
      assert s[|s| - 1] !in init;
    }
  }

  /** Among distinct keys, each key with value `v` is selected exactly once. */
  lemma {:induction false} KeysWithValueOnce(m: map<string, string>, ks: seq<string>, v: string, k: string)
    requires forall i :: 0 <= i < |ks| ==> ks[i] in m
    requires Discovery.Distinct(ks)
    ensures multiset(KeysWithValue(m, ks, v))[k] == if k in ks && m[k] == v then 1 else 0
  {
    if ks != [] {
      var init := ks[..|ks| - 1];
      var last := ks[|ks| - 1];
      assert Discovery.Distinct(init);
      KeysWithValueOnce(m, init, v, k);
      assert ks == init + [last];
      KeysWithValueNext(m, init, last, v);
      assert last !in init;
    }
  }

  /**
   * Listing the values of an enumeration of all keys lists each value as often as keys
   * carry it.
   */
  lemma {:induction false} ValuesMultiplicity(m: map<string, string>, ks: seq<string>, v: string)
    requires Enumerates(m, ks)
    ensures multiset(ValuesIn(m, ks))[v] == Multiplicity(m, v)
  {
    if ks == [] {
      MultiplicityWithin(m, v);
      assert m.Keys == {};
    } else {
      var init, last := ks[..|ks| - 1], ks[|ks| - 1];
      ValuesInLast(m, ks);
      ValuesMultiplicity(m - {last}, init, v);
      MultiplicityRemove(m, last, v);
    }
  }

  /** Every member of `s` is a key of `m`. */
  predicate KeysIn(m: map<string, string>, s: seq<string>)
  {
    forall p :: 0 <= p < |s| ==> s[p] in m
  }

  /** Each key occurs in `s` as often as its value occurs in `vs`. */
  ghost predicate CountsMatch(m: map<string, string>, s: seq<string>, vs: seq<string>)
  {
    forall k :: k in m ==> multiset(s)[k] == multiset(vs)[m[k]]
  }

  /** The keys of `s` are in ascending order of their values. */
  ghost predicate ValueOrdered(m: map<string, string>, s: seq<string>)
    requires KeysIn(m, s)
  {
    forall p, q :: 0 <= p < q < |s| ==> LexLessEq(m[s[p]], m[s[q]])
  }

  /** No key of `s` carries a value above `v`. */
  ghost predicate ValuesBelow(m: map<string, string>, s: seq<string>, v: string)
    requires KeysIn(m, s)
  {
    forall p :: 0 <= p < |s| ==> LexLessEq(m[s[p]], v)
  }

  /** What the outer loop has built after handling the first `i` sorted values. */
  ghost predicate BlocksUpTo(m: map<string, string>, vals: seq<string>, i: nat, sorted: seq<string>)
  {
    i <= |vals|
    && (i == 0 ==> sorted == [])
    && KeysIn(m, sorted)
    && CountsMatch(m, sorted, vals[..i])
    && ValueOrdered(m, sorted)
    && (i > 0 ==> ValuesBelow(m, sorted, vals[i - 1]))
  }

  /** Before the outer loop nothing is built. */
  lemma BlocksStart(m: map<string, string>, vals: seq<string>)
    ensures BlocksUpTo(m, vals, 0, [])
  {
    assert vals[..0] == [];
  }

  /** Appending the block of the next value adds one occurrence of each key carrying it. */
  lemma BlockCounts(m: map<string, string>, vals: seq<string>, i: nat, sorted: seq<string>, seen: seq<string>)
    requires i < |vals| && Enumerates(m, seen)
    requires forall k :: k in m ==> multiset(sorted)[k] == multiset(vals[..i])[m[k]]
    ensures forall k :: k in m ==>
      multiset(sorted + KeysWithValue(m, seen, vals[i]))[k] == multiset(vals[..i + 1])[m[k]]
  {
    assert vals[..i + 1] == vals[..i] + [vals[i]];
    forall k | k in m
      ensures multiset(sorted + KeysWithValue(m, seen, vals[i]))[k] == multiset(vals[..i + 1])[m[k]]
    {
      KeysWithValueOnce(m, seen, vals[i], k);
    }
  }

  /** The block of the next value sorts after everything before it. */
  lemma BlockOrder(m: map<string, string>, vals: seq<string>, i: nat, sorted: seq<string>, seen: seq<string>)
    requires i < |vals| && (i > 0 ==> LexLessEq(vals[i - 1], vals[i])) && Enumerates(m, seen)
    requires forall p :: 0 <= p < |sorted| ==> sorted[p] in m
    requires forall p, q :: 0 <= p < q < |sorted| ==> LexLessEq(m[sorted[p]], m[sorted[q]])
    requires i > 0 ==> forall p :: 0 <= p < |sorted| ==> LexLessEq(m[sorted[p]], vals[i - 1])
    requires i == 0 ==> sorted == []
    ensures var r := sorted + KeysWithValue(m, seen, vals[i]);
      (forall p :: 0 <= p < |r| ==> r[p] in m)
      && (forall p, q :: 0 <= p < q < |r| ==> LexLessEq(m[r[p]], m[r[q]]))
      && (forall p :: 0 <= p < |r| ==> LexLessEq(m[r[p]], vals[i]))
  {
    var s := vals[i];
    if i > 0 {
      forall p | 0 <= p < |sorted|
        ensures LexLessEq(m[sorted[p]], s)
      {
        LexLessEqTransitive(m[sorted[p]], vals[i - 1], s);
      }
    }
    ConcatOrdered(m, sorted, KeysWithValue(m, seen, s), s);
  }

  /** Keys ordered by value, then keys that all carry a value no smaller, stay ordered. */
  lemma ConcatOrdered(m: map<string, string>, sorted: seq<string>, block: seq<string>, s: string)
    requires forall p :: 0 <= p < |sorted| ==> sorted[p] in m
    requires forall p, q :: 0 <= p < q < |sorted| ==> LexLessEq(m[sorted[p]], m[sorted[q]])
    requires forall p :: 0 <= p < |sorted| ==> LexLessEq(m[sorted[p]], s)
    requires forall p :: 0 <= p < |block| ==> block[p] in m && m[block[p]] == s
    ensures var r := sorted + block;
      (forall p :: 0 <= p < |r| ==> r[p] in m)
      && (forall p, q :: 0 <= p < q < |r| ==> LexLessEq(m[r[p]], m[r[q]]))
      && (forall p :: 0 <= p < |r| ==> LexLessEq(m[r[p]], s))
  {
    var r := sorted + block;
    forall p | 0 <= p < |r|
      ensures r[p] in m && LexLessEq(m[r[p]], s)
    {
      if p >= |sorted| {
        assert r[p] == block[p - |sorted|];
      }
    }
    forall p, q | 0 <= p < q < |r|
      ensures LexLessEq(m[r[p]], m[r[q]])
    {
      if q < |sorted| {
        assert r[p] == sorted[p] && r[q] == sorted[q];
      } else if p < |sorted| {
        assert r[p] == sorted[p] && r[q] == block[q - |sorted|];
      } else {
        assert r[p] == block[p - |sorted|] && r[q] == block[q - |sorted|];
      }
    }
  }

  /** One round of the outer loop keeps what it has built so far well-formed. */
  lemma BlockStep(m: map<string, string>, vals: seq<string>, i: nat, sorted: seq<string>, seen: seq<string>)
    requires i < |vals| && (i > 0 ==> LexLessEq(vals[i - 1], vals[i])) && Enumerates(m, seen)
    requires BlocksUpTo(m, vals, i, sorted)
    ensures BlocksUpTo(m, vals, i + 1, sorted + KeysWithValue(m, seen, vals[i]))
  {
    BlockCounts(m, vals, i, sorted, seen);
    BlockOrder(m, vals, i, sorted, seen);
  }

  /** BlockStep with its conditions as a hypothesis, so that callers need not re-establish them one by one. */
  lemma BlockStepIf(m: map<string, string>, vals: seq<string>, i: nat, sorted: seq<string>, seen: seq<string>,
                    next: seq<string>)
    requires i < |vals| && KeysIn(m, seen)
    ensures (i > 0 ==> LexLessEq(vals[i - 1], vals[i])) && Enumerates(m, seen)
            && BlocksUpTo(m, vals, i, sorted) && next == sorted + KeysWithValue(m, seen, vals[i])
            ==> BlocksUpTo(m, vals, i + 1, next)
  {
    if && (i > 0 ==> LexLessEq(vals[i - 1], vals[i])) && Enumerates(m, seen)
       && BlocksUpTo(m, vals, i, sorted) && next == sorted + KeysWithValue(m, seen, vals[i])
    {
      BlockStep(m, vals, i, sorted, seen);
    }
  }

  /**
   * The keys the outer loop appends for the sorted values `vals`: block `j` lists the keys
   * carrying `vals[j]` in the map iteration order `orders[j]` of that round.
   */
  ghost function Blocks(m: map<string, string>, vals: seq<string>, orders: seq<seq<string>>): seq<string>
    requires |orders| == |vals| && forall j :: 0 <= j < |orders| ==> Enumerates(m, orders[j])
    decreases |vals|
  {
    if vals == [] then []
    else
      var n := |vals| - 1;
      assert forall j :: 0 <= j < n ==> orders[..n][j] == orders[j];
      assert Enumerates(m, orders[n]);
      Blocks(m, vals[..n], orders[..n]) + KeysWithValue(m, orders[n], vals[n])
  }

  /** One more round appends the block of the next value. */
  lemma BlocksNext(m: map<string, string>, vals: seq<string>, orders: seq<seq<string>>, i: nat, seen: seq<string>)
    requires i < |vals| && |orders| == i && Enumerates(m, seen)
    requires forall j :: 0 <= j < |orders| ==> Enumerates(m, orders[j])
    ensures Blocks(m, vals[..i + 1], orders + [seen]) == Blocks(m, vals[..i], orders) + KeysWithValue(m, seen, vals[i])
  {
    assert vals[..i + 1][..i] == vals[..i];
    assert (orders + [seen])[..i] == orders;
  }

  /** Each value is no greater than the one after it. */
  ghost predicate Adjacent(vals: seq<string>)
  {
    forall j :: 0 < j < |vals| ==> LexLessEq(vals[j - 1], vals[j])
  }

  lemma SortedAdjacent(vals: seq<string>)
    requires Sorted(vals)
    ensures Adjacent(vals)
  {
    forall j | 0 < j < |vals|
      ensures LexLessEq(vals[j - 1], vals[j])
    {
      assert 0 <= j - 1 < j < |vals|;
    }
  }

  lemma InitLast<T>(s: seq<T>)
    requires s != []
    ensures s[..|s| - 1] + [s[|s| - 1]] == s
  {
  }

  /**
   * The blocks of the first `i` ascending values, each listed from an enumeration of all
   * keys, are ordered by value and hold each key as often as its value occurs among them.
   */
  lemma {:induction false} BlocksInvariant(m: map<string, string>, vals: seq<string>, orders: seq<seq<string>>, i: nat)
    requires Adjacent(vals) && i <= |vals| && |orders| == i
    requires forall j :: 0 <= j < |orders| ==> Enumerates(m, orders[j])
    ensures BlocksUpTo(m, vals, i, Blocks(m, vals[..i], orders))
  {
    if i == 0 {
      BlocksStart(m, vals);
    } else {
      var n := i - 1;
      var prior := orders[..n];
      assert forall j :: 0 <= j < n ==> prior[j] == orders[j];
      BlocksInvariant(m, vals, prior, n);
      var prev := Blocks(m, vals[..n], prior);
      BlocksNext(m, vals, prior, n, orders[n]);
      InitLast(orders);
      if n > 0 {
        assert LexLessEq(vals[n - 1], vals[n]);
      }
      BlockStepIf(m, vals, n, prev, orders[n], Blocks(m, vals[..i], orders));
    }
  }

  /** Once all values are handled, every key occurs as often as keys share its value. */
  lemma BlocksCount(m: map<string, string>, keys: seq<string>, vals: seq<string>, sorted: seq<string>)
    requires Enumerates(m, keys)
    requires multiset(vals) == multiset(ValuesIn(m, keys))
    requires BlocksUpTo(m, vals, |vals|, sorted)
    ensures forall k :: k in m ==> k in sorted
    ensures forall k :: k in m ==> multiset(sorted)[k] == Multiplicity(m, m[k])
  {
    assert vals[..|vals|] == vals;
    forall k | k in m
      ensures multiset(sorted)[k] == Multiplicity(m, m[k])
      ensures k in sorted
    {
      ValuesMultiplicity(m, keys, m[k]);
      assert k in set x | x in m && m[x] == m[k];
    }
  }

  /** With distinct values every key occurs once, so the result is a permutation of the keys. */
  lemma BlocksPermutation(m: map<string, string>, keys: seq<string>, sorted: seq<string>)
    requires Enumerates(m, keys) && |keys| == |m| && Injective(m)
    requires forall i :: 0 <= i < |sorted| ==> sorted[i] in m
    requires forall k :: k in m ==> multiset(sorted)[k] == Multiplicity(m, m[k])
    ensures |sorted| == |m| && forall k :: k in m ==> multiset(sorted)[k] == 1
  {
    forall k | k in m
      ensures multiset(sorted)[k] == 1
    {
      assert (set x | x in m && m[x] == m[k]) == {k};
    }
    forall x
      ensures multiset(sorted)[x] == multiset(keys)[x]
    {
      DistinctOnce(keys, x);
      if x !in m {
        assert x !in sorted;
      }
    }
    assert multiset(sorted) == multiset(keys);
    assert |sorted| == |multiset(sorted)|;
  }

  /** The postcondition of SortKeysByValue, from what the outer loop built. */
  lemma BlocksFinal(m: map<string, string>, keys: seq<string>, vals: seq<string>, sorted: seq<string>)
    requires Enumerates(m, keys) && |keys| == |m|
    requires multiset(vals) == multiset(ValuesIn(m, keys))
    requires BlocksUpTo(m, vals, |vals|, sorted)
    ensures forall i :: 0 <= i < |sorted| ==> sorted[i] in m
    ensures forall k :: k in m ==> k in sorted
    ensures forall i, j :: 0 <= i < j < |sorted| ==> LexLessEq(m[sorted[i]], m[sorted[j]])
    ensures forall k :: k in m ==> multiset(sorted)[k] == Multiplicity(m, m[k])
    ensures Injective(m) ==> |sorted| == |m| && forall k :: k in m ==> multiset(sorted)[k] == 1
  {
    BlocksCount(m, keys, vals, sorted);
    if Injective(m) {
      BlocksPermutation(m, keys, sorted);
    }
  }
}
