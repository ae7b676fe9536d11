/** The collection helpers of KB.java (`remove`, `add`, `addFront`, `addAll`)
    on sequences, plus filtering. A source `HashSet` is modelled as a sequence
    without duplicates. */
module Lists {

  predicate NoDups<T(==,!new)>(s: seq<T>) {
    forall i, j :: 0 <= i < j < |s| ==> s[i] != s[j]
  }

  /** A sub-multiset of a sequence has its elements among those of the sequence. */
  lemma MultisetMembers<T>(xs: seq<T>, ys: seq<T>)
    requires multiset(xs) <= multiset(ys)
    ensures forall x :: x in xs ==> x in ys
  {
    forall x | x in xs ensures x in ys {
      assert x in multiset(xs);
    }
  }

  /** A sub-multiset of a sequence without duplicates has none either. */
  lemma NoDupsSub<T(!new)>(xs: seq<T>, ys: seq<T>)
    requires NoDups(ys) && multiset(xs) <= multiset(ys)
    ensures NoDups(xs)
  {
    forall i, j | 0 <= i < j < |xs| ensures xs[i] != xs[j] {
      if xs[i] == xs[j] {
        var x := xs[i];
        assert xs == xs[..j] + [x] + xs[j + 1..];
        assert x in xs[..j];
        assert multiset(xs)[x] >= 2 by {
          assert multiset(xs) == multiset(xs[..j]) + multiset{x} + multiset(xs[j + 1..]);
        }
        NoDupsCount(ys, x);
      }
    }
  }

  /** The tail of a sequence without duplicates has none, nor its head. */
  lemma NoDupsTail<T(!new)>(ys: seq<T>)
    requires NoDups(ys) && ys != []
    ensures NoDups(ys[1..]) && ys[0] !in ys[1..]
  {
    forall i, j | 0 <= i < j < |ys[1..]| ensures ys[1..][i] != ys[1..][j] {
      assert ys[1..][i] == ys[i + 1] && ys[1..][j] == ys[j + 1];
    }
  }

  /** Without duplicates, every element occurs at most once. */
  lemma {:induction false} NoDupsCount<T(!new)>(ys: seq<T>, x: T)
    requires NoDups(ys)
    ensures multiset(ys)[x] <= 1
  {
    if ys != [] {
      MultisetCons(ys);
      NoDupsTail(ys);
      NoDupsCount(ys[1..], x);
    }
  }

  /** A non-empty sequence counts its head once more than its tail. */
  lemma MultisetCons<T>(xs: seq<T>)
    requires xs != []
    ensures multiset(xs) == multiset{xs[0]} + multiset(xs[1..])
  {
    assert xs == [xs[0]] + xs[1..];
  }

  /** Moving the head of `b` to the end of `a` keeps the concatenation. */
  lemma ShiftHead<T>(a: seq<T>, b: seq<T>)
    requires b != []
    ensures a + b == (a + [b[0]]) + b[1..]
  {
    assert b == [b[0]] + b[1..];
  }

  /** Removes every occurrence of `x`, keeping the order of the rest. */
  function Remove<T(==,!new)>(xs: seq<T>, x: T): (r: seq<T>)
    ensures multiset(r) == multiset(xs)[x := 0]
    ensures NoDups(xs) ==> NoDups(r)
  {
    var r := RemoveAll(xs, x);
    if NoDups(xs) then
      NoDupsSub(r, xs);
      r
    else r
  }

  function RemoveAll<T(==)>(xs: seq<T>, x: T): (r: seq<T>)
    ensures multiset(r) == multiset(xs)[x := 0]
  {
    if xs == [] then []
    else
      assert multiset(xs) == multiset{xs[0]} + multiset(xs[1..]) by {
        assert xs == [xs[0]] + xs[1..];
      }
      var rest := RemoveAll(xs[1..], x);
      if xs[0] == x then rest else [xs[0]] + rest
  }

  lemma RemoveMembers<T(!new)>(xs: seq<T>, x: T)
    ensures x !in Remove(xs, x)
    ensures forall y :: y in Remove(xs, x) <==> y in xs && y != x
  {
    var r := Remove(xs, x);
    assert forall y :: y in r <==> y in multiset(r);
    assert forall y :: y in xs <==> y in multiset(xs);
  }

  /** Appends `x` unless it is already present. */
  function Add<T(==,!new)>(xs: seq<T>, x: T): (r: seq<T>)
    ensures x in r && xs <= r
    ensures forall y :: y in r <==> y in xs || y == x
    ensures NoDups(xs) ==> NoDups(r)
    ensures x in xs ==> r == xs
  {
    if x in xs then xs else xs + [x]
  }

  /** Prepends `x` unless it is already present. */
  function AddFront<T(==,!new)>(xs: seq<T>, x: T): (r: seq<T>)
    ensures x in r
    ensures forall y :: y in r <==> y in xs || y == x
    ensures NoDups(xs) ==> NoDups(r)
    ensures x !in xs ==> r[0] == x && r[1..] == xs
    ensures x in xs ==> r == xs
  {
    if x in xs then xs else [x] + xs
  }

  /** Adds every element of `ys`, in order, each unless already present. */
  function AddAll<T(==,!new)>(xs: seq<T>, ys: seq<T>): (r: seq<T>)
    ensures xs <= r
    ensures forall y :: y in r <==> y in xs || y in ys
    ensures NoDups(xs) ==> NoDups(r)
    decreases ys
  {
    if ys == [] then xs
    else
      var r := AddAll(Add(xs, ys[0]), ys[1..]);
      assert forall y :: y in ys <==> y == ys[0] || y in ys[1..];
      r
  }

  /** The elements satisfying `p`, in order. */
  function Filter<T(!new)>(xs: seq<T>, p: T -> bool): (r: seq<T>)
    ensures forall x :: multiset(r)[x] == if p(x) then multiset(xs)[x] else 0
  {
    if xs == [] then []
    else
      assert multiset(xs) == multiset{xs[0]} + multiset(xs[1..]) by {
        assert xs == [xs[0]] + xs[1..];
      }
      var rest := Filter(xs[1..], p);
      if p(xs[0]) then [xs[0]] + rest else rest
  }

  /** Whatever occurs in a filtered sequence passes the filter. */
  lemma FilterMember<T(!new)>(xs: seq<T>, p: T -> bool, x: T)
    requires x in multiset(Filter(xs, p))
    ensures p(x) && x in xs
  {
  }

  /** Filtering by a predicate and by its negation splits the sequence. */
  lemma FilterSplit<T(!new)>(xs: seq<T>, p: T -> bool, q: T -> bool)
    requires forall x :: q(x) == !p(x)
    ensures multiset(Filter(xs, p)) + multiset(Filter(xs, q)) == multiset(xs)
  {
    var a, b := multiset(Filter(xs, p)), multiset(Filter(xs, q));
    forall x ensures (a + b)[x] == multiset(xs)[x] {
      assert q(x) == !p(x);
    }
  }

  /** Filtering keeps the relative order: it is the identity on sequences
      whose elements all pass. */
  lemma {:induction false} FilterAll<T(!new)>(xs: seq<T>, p: T -> bool)
    requires forall i :: 0 <= i < |xs| ==> p(xs[i])
    ensures Filter(xs, p) == xs
  {
    if xs != [] {
      FilterAll(xs[1..], p);
    }
  }
}

/** `sortByStrLen`'s comparator: shorter rendering first, then lexicographic
    order of the renderings. The rendering itself (`toString`) is a parameter. */
module Sorting {
  import opened Lists

  /** `String.compareTo` < 0: the first differing character decides, else the
      shorter string comes first. */
  predicate LexLess(a: string, b: string) {
    if a == [] then b != []
    else if b == [] then false
    else if a[0] != b[0] then a[0] < b[0]
    else LexLess(a[1..], b[1..])
  }

  predicate KeyLess(a: string, b: string) {
    |a| < |b| || (|a| == |b| && LexLess(a, b))
  }

  /** The comparator's "not greater". */
  predicate KeyLe(a: string, b: string) {
    !KeyLess(b, a)
  }

  lemma {:induction false} LexAsymmetric(a: string, b: string)
    ensures LexLess(a, b) ==> !LexLess(b, a)
  {
    if a != [] && b != [] && a[0] == b[0] {
      LexAsymmetric(a[1..], b[1..]);
    }
  }

  lemma {:induction false} LexTotal(a: string, b: string)
    ensures a == b || LexLess(a, b) || LexLess(b, a)
  {
    if a != [] && b != [] && a[0] == b[0] {
      LexTotal(a[1..], b[1..]);
      if a[1..] == b[1..] {
        assert a == [a[0]] + a[1..] && b == [b[0]] + b[1..];
      }
    }
  }

  /** The comparator is a total order on renderings. */
  lemma KeyTotal(a: string, b: string)
    ensures KeyLe(a, b) || KeyLe(b, a)
    ensures KeyLe(a, b) && KeyLe(b, a) ==> a == b
  {
    LexAsymmetric(a, b);
    LexTotal(a, b);
  }

  predicate SortedBy<T>(xs: seq<T>, key: T -> string) {
    forall i :: 0 <= i < |xs| - 1 ==> KeyLe(key(xs[i]), key(xs[i + 1]))
  }

  /** Puts `x` before the first element it does not exceed. */
  function Insert<T>(x: T, xs: seq<T>, key: T -> string): (r: seq<T>)
    requires SortedBy(xs, key)
    ensures SortedBy(r, key)
    ensures multiset(r) == multiset(xs) + multiset{x}
    ensures |r| > 0 && (r[0] == x || (xs != [] && r[0] == xs[0]))
  {
    if xs == [] then [x]
    else if KeyLe(key(x), key(xs[0])) then [x] + xs
    else
      KeyTotal(key(x), key(xs[0]));
      var rest := Insert(x, xs[1..], key);
      assert xs == [xs[0]] + xs[1..];
      [xs[0]] + rest
  }

  /** A stable insertion sort by rendering. */
  function SortByKey<T>(xs: seq<T>, key: T -> string): (r: seq<T>)
    ensures SortedBy(r, key)
    ensures multiset(r) == multiset(xs)
  {
    if xs == [] then []
    else
      assert xs == [xs[0]] + xs[1..];
      Insert(xs[0], SortByKey(xs[1..], key), key)
  }

  /** The elements of `xs` whose key is `k`, in order. */
  function KeyClass<T>(xs: seq<T>, key: T -> string, k: string): (r: seq<T>)
    ensures forall i :: 0 <= i < |r| ==> key(r[i]) == k
    decreases xs
  {
    if xs == [] then []
    else if key(xs[0]) == k then [xs[0]] + KeyClass(xs[1..], key, k)
    else KeyClass(xs[1..], key, k)
  }

  /** `x` goes in front of every element with the same key. */
  lemma {:induction false} InsertClass<T>(x: T, xs: seq<T>, key: T -> string, k: string)
    requires SortedBy(xs, key)
    ensures KeyClass(Insert(x, xs, key), key, k) ==
            (if key(x) == k then [x] + KeyClass(xs, key, k) else KeyClass(xs, key, k))
    decreases xs
  {
    if xs == [] {
      assert Insert(x, xs, key) == [x];
    } else if KeyLe(key(x), key(xs[0])) {
      var r := Insert(x, xs, key);
      assert r == [x] + xs && r[0] == x && r[1..] == xs;
    } else {
      LexAsymmetric(key(x), key(x));
      assert key(xs[0]) != key(x);
      var rest := Insert(x, xs[1..], key);
      InsertClass(x, xs[1..], key, k);
      var r := Insert(x, xs, key);
      assert r == [xs[0]] + rest && r[0] == xs[0] && r[1..] == rest;
    }
  }

  /** The sort is stable: elements with equal keys keep their order. */
  lemma {:induction false} SortByKeyStable<T>(xs: seq<T>, key: T -> string, k: string)
    ensures KeyClass(SortByKey(xs, key), key, k) == KeyClass(xs, key, k)
    decreases xs
  {
    if xs != [] {
      SortByKeyStable(xs[1..], key, k);
      InsertClass(xs[0], SortByKey(xs[1..], key), key, k);
    }
  }

  lemma {:induction false} KeyClassAppend<T>(xs: seq<T>, ys: seq<T>, key: T -> string, k: string)
    ensures KeyClass(xs + ys, key, k) == KeyClass(xs, key, k) + KeyClass(ys, key, k)
    decreases xs
  {
    if xs == [] {
      assert xs + ys == ys;
    } else {
      assert (xs + ys)[0] == xs[0] && (xs + ys)[1..] == xs[1..] + ys;
      KeyClassAppend(xs[1..], ys, key, k);
    }
  }
}
