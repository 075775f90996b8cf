/**
 * Rust's stable `sort_by` on byte-string keys.
 *
 * `Sort` is one algorithm; `SortIsStable` and `StableSortIsUnique` say that any
 * other stable sort gives the same result, so nothing below depends on which
 * algorithm the standard library uses.
 */
module StableSort {
  import opened Bytes

  datatype Keyed<+T> = Keyed(key: bytes, item: T)

  function Insert<T>(x: Keyed<T>, xs: seq<Keyed<T>>): (r: seq<Keyed<T>>)
    ensures |r| == |xs| + 1
  {
    if xs == [] || Leq(x.key, xs[0].key) then [x] + xs
    else [xs[0]] + Insert(x, xs[1..])
  }

  function Sort<T>(xs: seq<Keyed<T>>): (r: seq<Keyed<T>>)
    ensures |r| == |xs|
  {
    if xs == [] then [] else Insert(xs[0], Sort(xs[1..]))
  }

  ghost predicate Sorted<T>(xs: seq<Keyed<T>>) {
    forall i, j :: 0 <= i < j < |xs| ==> Leq(xs[i].key, xs[j].key)
  }

  /** The elements carrying `key`, in their order of appearance. */
  ghost function WithKey<T>(xs: seq<Keyed<T>>, key: bytes): seq<Keyed<T>> {
    if xs == [] then []
    else if xs[0].key == key then [xs[0]] + WithKey(xs[1..], key)
    else WithKey(xs[1..], key)
  }

  lemma {:induction false} WithKeyMembers<T>(xs: seq<Keyed<T>>, key: bytes, x: Keyed<T>)
    ensures x in WithKey(xs, key) <==> x in xs && x.key == key
  {
    if xs != [] {
      assert xs == [xs[0]] + xs[1..];
      WithKeyMembers(xs[1..], key, x);
    }
  }

  /** Same elements for every key, and equal keys keep their relative order. */
  ghost predicate StablyPermuted<T(!new)>(xs: seq<Keyed<T>>, ys: seq<Keyed<T>>) {
    forall key :: WithKey(xs, key) == WithKey(ys, key)
  }

  lemma {:induction false} InsertSorted<T>(x: Keyed<T>, xs: seq<Keyed<T>>)
    requires Sorted(xs)
    ensures Sorted(Insert(x, xs))
    ensures forall y :: y in Insert(x, xs) ==> y == x || y in xs
  {
    if xs == [] {
    } else if Leq(x.key, xs[0].key) {
      forall j | 0 <= j < |xs| ensures Leq(x.key, xs[j].key) {
        if j > 0 { LeqTransitive(x.key, xs[0].key, xs[j].key); }
      }
    } else {
      InsertSorted(x, xs[1..]);
      LessAsymmetric(xs[0].key, x.key);
      var r := Insert(x, xs[1..]);
      forall j | 0 <= j < |r| ensures Leq(xs[0].key, r[j].key) {
        assert r[j] in r;
      }
    }
  }

  lemma {:induction false} InsertWithKey<T>(x: Keyed<T>, xs: seq<Keyed<T>>, key: bytes)
    ensures WithKey(Insert(x, xs), key) == WithKey([x] + xs, key)
  {
    assert ([x] + xs)[1..] == xs;
    if xs != [] && !Leq(x.key, xs[0].key) {
      InsertWithKey(x, xs[1..], key);
      LessIrreflexive(x.key);
      assert ([x] + xs[1..])[1..] == xs[1..];
      assert Insert(x, xs)[1..] == Insert(x, xs[1..]);
    }
  }

  lemma {:induction false} SortIsSorted<T>(xs: seq<Keyed<T>>)
    ensures Sorted(Sort(xs))
  {
    if xs != [] {
      SortIsSorted(xs[1..]);
      InsertSorted(xs[0], Sort(xs[1..]));
    }
  }

  lemma {:induction false} SortWithKey<T>(xs: seq<Keyed<T>>, key: bytes)
    ensures WithKey(Sort(xs), key) == WithKey(xs, key)
  {
    if xs != [] {
      var t := Sort(xs[1..]);
      SortWithKey(xs[1..], key);
      InsertWithKey(xs[0], t, key);
      assert ([xs[0]] + t)[1..] == t;
    }
  }

  lemma SortIsStable<T(!new)>(xs: seq<Keyed<T>>)
    ensures Sorted(Sort(xs)) && StablyPermuted(Sort(xs), xs)
  {
    SortIsSorted(xs);
    forall key ensures WithKey(Sort(xs), key) == WithKey(xs, key) {
      SortWithKey(xs, key);
    }
  }

  lemma PermutedMembers<T(!new)>(xs: seq<Keyed<T>>, ys: seq<Keyed<T>>, x: Keyed<T>)
    requires StablyPermuted(xs, ys)
    ensures x in xs <==> x in ys
  {
    assert WithKey(xs, x.key) == WithKey(ys, x.key);
    WithKeyMembers(xs, x.key, x);
    WithKeyMembers(ys, x.key, x);
  }

  /** Two sorted sequences that agree key by key are the same sequence. */
  lemma {:induction false} StableSortIsUnique<T(!new)>(xs: seq<Keyed<T>>, ys: seq<Keyed<T>>)
    requires Sorted(xs) && Sorted(ys) && StablyPermuted(xs, ys)
    ensures xs == ys
  {
    if xs != [] { PermutedMembers(xs, ys, xs[0]); }
    if ys != [] { PermutedMembers(xs, ys, ys[0]); }
    if xs != [] {
      LeastKey(xs, ys);
      LeastKey(ys, xs);
      LessTotal(xs[0].key, ys[0].key);
      assert WithKey(xs, xs[0].key)[0] == xs[0];
      assert WithKey(ys, xs[0].key)[0] == ys[0];
      forall key ensures WithKey(xs[1..], key) == WithKey(ys[1..], key) {
        assert WithKey(xs, key) == WithKey(ys, key);
        if key == xs[0].key {
          assert WithKey(xs, key)[1..] == WithKey(xs[1..], key);
          assert WithKey(ys, key)[1..] == WithKey(ys[1..], key);
        } else {
          assert WithKey(xs, key) == WithKey(xs[1..], key);
          assert WithKey(ys, key) == WithKey(ys[1..], key);
        }
      }
      StableSortIsUnique(xs[1..], ys[1..]);
      assert xs == [xs[0]] + xs[1..] && ys == [ys[0]] + ys[1..];
    }
  }

  lemma LeastKey<T(!new)>(xs: seq<Keyed<T>>, ys: seq<Keyed<T>>)
    requires xs != [] && ys != [] && Sorted(ys) && StablyPermuted(xs, ys)
    ensures Leq(ys[0].key, xs[0].key)
  {
    PermutedMembers(xs, ys, xs[0]);
    var j :| 0 <= j < |ys| && ys[j] == xs[0];
    if j == 0 { LessIrreflexive(xs[0].key); }
  }

  /** What sorting forgets: exactly the relative order of elements with different keys. */
  lemma SortEqualIff<T(!new)>(xs: seq<Keyed<T>>, ys: seq<Keyed<T>>)
    ensures Sort(xs) == Sort(ys) <==> StablyPermuted(xs, ys)
  {
    SortIsStable(xs);
    SortIsStable(ys);
    if StablyPermuted(xs, ys) {
      forall key ensures WithKey(Sort(xs), key) == WithKey(Sort(ys), key) {
        assert WithKey(xs, key) == WithKey(ys, key);
      }
      StableSortIsUnique(Sort(xs), Sort(ys));
    }
    if Sort(xs) == Sort(ys) {
      forall key ensures WithKey(xs, key) == WithKey(ys, key) {
        assert WithKey(Sort(xs), key) == WithKey(xs, key);
      }
    }
  }

  /** A sorted sequence is left alone. */
  lemma SortOfSorted<T(!new)>(xs: seq<Keyed<T>>)
    requires Sorted(xs)
    ensures Sort(xs) == xs
  {
    SortIsStable(xs);
    StableSortIsUnique(Sort(xs), xs);
  }

  lemma {:induction false} SortMembers<T>(xs: seq<Keyed<T>>)
    ensures forall x :: x in Sort(xs) <==> x in xs
  {
    forall x ensures x in Sort(xs) <==> x in xs {
      SortWithKey(xs, x.key);
      WithKeyMembers(xs, x.key, x);
      WithKeyMembers(Sort(xs), x.key, x);
    }
  }

  // ---------- keys that do not repeat ----------

  ghost predicate Distinct<T>(xs: seq<Keyed<T>>) {
    forall i, j :: 0 <= i < j < |xs| ==> xs[i].key != xs[j].key
  }

  ghost predicate Increasing<T>(xs: seq<Keyed<T>>) {
    forall i, j :: 0 <= i < j < |xs| ==> Less(xs[i].key, xs[j].key)
  }

  lemma {:induction false} DistinctHasOne<T>(xs: seq<Keyed<T>>, key: bytes)
    requires Distinct(xs)
    ensures |WithKey(xs, key)| <= 1
  {
    if xs != [] {
      DistinctHasOne(xs[1..], key);
      if xs[0].key == key && WithKey(xs[1..], key) != [] {
        WithKeyMembers(xs[1..], key, WithKey(xs[1..], key)[0]);
        assert false;
      }
    }
  }

  lemma {:induction false} RepeatedHasTwo<T>(xs: seq<Keyed<T>>, i: nat, j: nat)
    requires i < j < |xs| && xs[i].key == xs[j].key
    ensures |WithKey(xs, xs[i].key)| >= 2
  {
    if i == 0 {
      WithKeyMembers(xs[1..], xs[0].key, xs[1..][j - 1]);
    } else {
      RepeatedHasTwo(xs[1..], i - 1, j - 1);
    }
  }

  /** Sorting neither makes nor removes a repeated key; without one, it gives a strictly increasing sequence. */
  lemma SortDistinct<T>(xs: seq<Keyed<T>>)
    ensures Distinct(xs) <==> Increasing(Sort(xs))
  {
    var s := Sort(xs);
    SortIsSorted(xs);
    if Distinct(xs) {
      forall i, j | 0 <= i < j < |s| ensures Less(s[i].key, s[j].key) {
        if s[i].key == s[j].key {
          RepeatedHasTwo(s, i, j);
          SortWithKey(xs, s[i].key);
          DistinctHasOne(xs, s[i].key);
          assert false;
        }
        LessTotal(s[i].key, s[j].key);
      }
    }
    if Increasing(s) {
      forall i, j | 0 <= i < j < |s| ensures s[i].key != s[j].key {
        LessIrreflexive(s[i].key);
      }
      forall i, j | 0 <= i < j < |xs| ensures xs[i].key != xs[j].key {
        if xs[i].key == xs[j].key {
          RepeatedHasTwo(xs, i, j);
          SortWithKey(xs, xs[i].key);
          DistinctHasOne(s, xs[i].key);
          assert false;
        }
      }
    }
  }

  /** Without repeated keys, a stable permutation is just the same set of elements. */
  lemma DistinctPermutedIff<T(!new)>(xs: seq<Keyed<T>>, ys: seq<Keyed<T>>)
    requires Distinct(xs) && Distinct(ys)
    ensures StablyPermuted(xs, ys) <==> forall x :: x in xs <==> x in ys
  {
    if StablyPermuted(xs, ys) {
      forall x ensures x in xs <==> x in ys {
        PermutedMembers(xs, ys, x);
      }
    }
    if forall x :: x in xs <==> x in ys {
      forall key ensures WithKey(xs, key) == WithKey(ys, key) {
        DistinctHasOne(xs, key);
        DistinctHasOne(ys, key);
        var a, b := WithKey(xs, key), WithKey(ys, key);
        if a != [] {
          WithKeyMembers(xs, key, a[0]);
          WithKeyMembers(ys, key, a[0]);
        }
        if b != [] {
          WithKeyMembers(xs, key, b[0]);
          WithKeyMembers(ys, key, b[0]);
        }
      }
    }
  }

  /** A strictly increasing sequence is determined by its set of elements. */
  lemma IncreasingIsDetermined<T(!new)>(xs: seq<Keyed<T>>, ys: seq<Keyed<T>>)
    requires Increasing(xs) && Increasing(ys)
    requires forall x :: x in xs <==> x in ys
    ensures xs == ys
  {
    IncreasingIsSortedDistinct(xs);
    IncreasingIsSortedDistinct(ys);
    DistinctPermutedIff(xs, ys);
    StableSortIsUnique(xs, ys);
  }

  lemma IncreasingIsSortedDistinct<T>(xs: seq<Keyed<T>>)
    requires Increasing(xs)
    ensures Sorted(xs) && Distinct(xs)
  {
    forall i, j | 0 <= i < j < |xs| ensures Leq(xs[i].key, xs[j].key) && xs[i].key != xs[j].key {
      LessAsymmetric(xs[i].key, xs[j].key);
      LessIrreflexive(xs[i].key);
    }
  }
}
