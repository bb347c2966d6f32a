/**
 * lodash `sortBy` (ascending) and `orderBy(..., 'desc')`: both are stable sorts on one numeric key.
 * They are modelled by one insertion sort that takes the direction as a parameter.
 */
module Sorting {
  import opened Seqs

  datatype Direction = Asc | Desc

  /** Key `a` may stand before key `b` in a sequence sorted in direction `dir`. */
  predicate InOrder(a: nat, b: nat, dir: Direction)
  {
    match dir
    case Asc => a <= b
    case Desc => a >= b
  }

  ghost predicate Ordered<T>(s: seq<T>, key: T -> nat, dir: Direction)
  {
    forall i, j :: 0 <= i < j < |s| ==> InOrder(key(s[i]), key(s[j]), dir)
  }

  function HasKey<T>(key: T -> nat, k: nat): T -> bool
  {
    x => key(x) == k
  }

  /** The elements of `s` whose key is `k`, in the order of `s`. */
  function WithKey<T>(s: seq<T>, key: T -> nat, k: nat): (r: seq<T>)
    ensures forall i :: 0 <= i < |r| ==> key(r[i]) == k
  {
    Filter(s, HasKey(key, k))
  }

  /** Inserts `x` before the first element that `x` may precede: after every element of equal key. */
  function Insert<T>(x: T, s: seq<T>, key: T -> nat, dir: Direction): (r: seq<T>)
    ensures |r| == |s| + 1
  {
    if s == [] || InOrder(key(x), key(s[0]), dir) then [x] + s
    else [s[0]] + Insert(x, s[1..], key, dir)
  }

  /** The stable sort: inserting the head into the sorted tail keeps the head before its equals. */
  function SortBy<T>(s: seq<T>, key: T -> nat, dir: Direction): (r: seq<T>)
    ensures |r| == |s|
  {
    if s == [] then [] else Insert(s[0], SortBy(s[1..], key, dir), key, dir)
  }

  lemma {:induction false} InsertPermutes<T>(x: T, s: seq<T>, key: T -> nat, dir: Direction)
    ensures multiset(Insert(x, s, key, dir)) == multiset(s) + multiset{x}
  {
    if !(s == [] || InOrder(key(x), key(s[0]), dir)) {
      InsertPermutes(x, s[1..], key, dir);
      assert s == [s[0]] + s[1..];
    }
  }

  /** The sort is a permutation of its input. */
  lemma {:induction false} SortByPermutes<T>(s: seq<T>, key: T -> nat, dir: Direction)
    ensures multiset(SortBy(s, key, dir)) == multiset(s)
  {
    if s != [] {
      SortByPermutes(s[1..], key, dir);
      InsertPermutes(s[0], SortBy(s[1..], key, dir), key, dir);
      assert s == [s[0]] + s[1..];
    }
  }

  lemma {:induction false} InsertOrdered<T>(x: T, s: seq<T>, key: T -> nat, dir: Direction)
    requires Ordered(s, key, dir)
    ensures Ordered(Insert(x, s, key, dir), key, dir)
  {
    var r := Insert(x, s, key, dir);
    if s == [] || InOrder(key(x), key(s[0]), dir) {
      forall i, j | 0 <= i < j < |r| ensures InOrder(key(r[i]), key(r[j]), dir) {
        if i == 0 && j > 1 {
          assert InOrder(key(s[0]), key(s[j - 1]), dir);
        }
      }
    } else {
      var t := Insert(x, s[1..], key, dir);
      InsertOrdered(x, s[1..], key, dir);
      InsertPermutes(x, s[1..], key, dir);
      forall j | 0 <= j < |t| ensures InOrder(key(s[0]), key(t[j]), dir) {
        assert t[j] in multiset(t);
        if t[j] != x {
          assert t[j] in multiset(s[1..]);
          var k :| 0 <= k < |s[1..]| && s[1..][k] == t[j];
          assert s[k + 1] == t[j];
        }
      }
      assert r == [s[0]] + t;
    }
  }

  lemma {:induction false} SortByOrdered<T>(s: seq<T>, key: T -> nat, dir: Direction)
    ensures Ordered(SortBy(s, key, dir), key, dir)
  {
    if s != [] {
      SortByOrdered(s[1..], key, dir);
      InsertOrdered(s[0], SortBy(s[1..], key, dir), key, dir);
    }
  }

  /** Insertion passes only elements of another key, so among equal keys `x` still comes first. */
  lemma {:induction false} InsertWithKey<T>(x: T, s: seq<T>, key: T -> nat, dir: Direction, k: nat)
    ensures WithKey(Insert(x, s, key, dir), key, k) == WithKey([x] + s, key, k)
  {
    if !(s == [] || InOrder(key(x), key(s[0]), dir)) {
      var t := Insert(x, s[1..], key, dir);
      InsertWithKey(x, s[1..], key, dir, k);
      SwapHeads(x, s[0], s[1..], t, HasKey(key, k));
      assert [s[0]] + s[1..] == s;
    }
  }

  /** Stability: the elements of each key keep their input order. */
  lemma {:induction false} SortByStable<T>(s: seq<T>, key: T -> nat, dir: Direction, k: nat)
    ensures WithKey(SortBy(s, key, dir), key, k) == WithKey(s, key, k)
  {
    if s != [] {
      var p := HasKey(key, k);
      var t := SortBy(s[1..], key, dir);
      assert SortBy(s, key, dir) == Insert(s[0], t, key, dir);
      InsertWithKey(s[0], t, key, dir, k);
      SortByStable(s[1..], key, dir, k);
      FilterConcat([s[0]], t, p);
      FilterConcat([s[0]], s[1..], p);
      assert [s[0]] + s[1..] == s;
    }
  }

  /** Reversing a sequence sorted one way gives one sorted the other way. */
  lemma ReverseOrdered<T>(s: seq<T>, key: T -> nat)
    requires Ordered(s, key, Asc)
    ensures Ordered(Reverse(s), key, Desc)
  {
    var r := Reverse(s);
    forall i, j | 0 <= i < j < |r| ensures InOrder(key(r[i]), key(r[j]), Desc) {
      assert r[i] == s[|s| - 1 - i] && r[j] == s[|s| - 1 - j];
    }
  }

  /** `orderBy(s, key, 'desc').slice(0, limit)`: the `limit` elements of largest key. */
  function Top<T>(s: seq<T>, key: T -> nat, limit: int): (r: seq<T>)
    ensures 0 <= limit ==> |r| == Min(limit, |s|)
  {
    Slice(SortBy(s, key, Desc), limit)
  }

  /**
   * The top elements are sorted by non-increasing key, keep the input order among equal keys,
   * and no element left out has a larger key than one kept.
   */
  lemma TopRanked<T>(s: seq<T>, key: T -> nat, limit: int)
    ensures multiset(Top(s, key, limit)) <= multiset(s)
    ensures Ordered(Top(s, key, limit), key, Desc)
    ensures forall k: nat :: WithKey(Top(s, key, limit), key, k) <= WithKey(s, key, k)
    ensures forall x, i :: x in multiset(s) - multiset(Top(s, key, limit)) && 0 <= i < |Top(s, key, limit)|
              ==> key(x) <= key(Top(s, key, limit)[i])
  {
    TopOrdered(s, key, limit);
    TopStable(s, key, limit);
    TopLeftOut(s, key, limit);
  }

  lemma TopOrdered<T>(s: seq<T>, key: T -> nat, limit: int)
    ensures Ordered(Top(s, key, limit), key, Desc)
  {
    var sorted := SortBy(s, key, Desc);
    SortByOrdered(s, key, Desc);
    var r := Top(s, key, limit);
    forall i, j | 0 <= i < j < |r| ensures InOrder(key(r[i]), key(r[j]), Desc) {
      assert r[i] == sorted[i] && r[j] == sorted[j];
    }
  }

  lemma TopStable<T>(s: seq<T>, key: T -> nat, limit: int)
    ensures forall k: nat :: WithKey(Top(s, key, limit), key, k) <= WithKey(s, key, k)
  {
    var sorted := SortBy(s, key, Desc);
    var r := Top(s, key, limit);
    var rest := sorted[|r|..];
    assert sorted == r + rest;
    forall k: nat ensures WithKey(r, key, k) <= WithKey(s, key, k) {
      SortByStable(s, key, Desc, k);
      FilterConcat(r, rest, HasKey(key, k));
    }
  }

  /** The top is a sub-multiset of the input, and what it leaves out has keys no larger than its own. */
  lemma TopLeftOut<T>(s: seq<T>, key: T -> nat, limit: int)
    ensures multiset(Top(s, key, limit)) <= multiset(s)
    ensures forall x, i :: x in multiset(s) - multiset(Top(s, key, limit)) && 0 <= i < |Top(s, key, limit)|
              ==> key(x) <= key(Top(s, key, limit)[i])
  {
    var sorted := SortBy(s, key, Desc);
    var n := |Top(s, key, limit)|;
    assert Top(s, key, limit) == sorted[..n];
    SortByPermutes(s, key, Desc);
    SortByOrdered(s, key, Desc);
    SplitMultiset(sorted, n);
    TailBelowHead(sorted, key, n);
  }

  lemma SplitMultiset<T>(s: seq<T>, n: nat)
    requires n <= |s|
    ensures multiset(s[..n]) <= multiset(s)
    ensures multiset(s) - multiset(s[..n]) == multiset(s[n..])
  {
    assert s == s[..n] + s[n..];
  }

  /** In a sequence sorted by non-increasing key, nothing after position `n` outranks what precedes it. */
  lemma TailBelowHead<T>(s: seq<T>, key: T -> nat, n: nat)
    requires Ordered(s, key, Desc) && n <= |s|
    ensures forall x, i :: x in multiset(s[n..]) && 0 <= i < n ==> key(x) <= key(s[..n][i])
  {
    forall x, i | x in multiset(s[n..]) && 0 <= i < n ensures key(x) <= key(s[..n][i]) {
      var j :| n <= j < |s| && s[j] == x;
      assert InOrder(key(s[i]), key(s[j]), Desc);
    }
  }
}
