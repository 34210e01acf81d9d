/**
 * `processed_players.sort(key=lambda x: int(x['rating']), reverse=True)`:
 * a stable sort by descending key. Python keeps elements with equal keys in
 * their original order even with `reverse=True`. The sort is stated for any
 * key, as `list.sort` takes one; `RatingKey` is the script's.
 */
module Ordering {
  import opened Numeric
  import opened Records

  /** The script's sort key: the rating compared as an integer, not as a string. */
  function RatingKey(p: Player): int {
    ParseInt(p.stats.rating)
  }

  predicate Descending<T>(s: seq<T>, key: T -> int) {
    forall i, j :: 0 <= i < j < |s| ==> key(s[i]) >= key(s[j])
  }

  /** `x` goes after every trailing element of `t` whose key is at least its own. */
  function InsertLast<T>(t: seq<T>, x: T, key: T -> int): (r: seq<T>)
    ensures |r| == |t| + 1
    ensures multiset(r) == multiset(t) + multiset{x}
  {
    if t == [] || key(t[|t| - 1]) >= key(x) then t + [x]
    else
      assert t == t[..|t| - 1] + [t[|t| - 1]];
      InsertLast(t[..|t| - 1], x, key) + [t[|t| - 1]]
  }

  /**
   * The list a stable descending sort leaves: each element in turn goes
   * behind the already sorted ones it does not outrank.
   */
  function SortDescending<T>(s: seq<T>, key: T -> int): (r: seq<T>)
    ensures |r| == |s|
    ensures multiset(r) == multiset(s)
  {
    if s == [] then []
    else
      assert s == s[..|s| - 1] + [s[|s| - 1]];
      InsertLast(SortDescending(s[..|s| - 1], key), s[|s| - 1], key)
  }

  lemma {:induction false} InsertLastDescending<T>(t: seq<T>, x: T, key: T -> int)
    requires Descending(t, key)
    ensures Descending(InsertLast(t, x, key), key)
  {
    if !(t == [] || key(t[|t| - 1]) >= key(x)) {
      var t' := t[..|t| - 1];
      InsertLastDescending(t', x, key);
      var r := InsertLast(t', x, key);
      // every element of r is x or an element of t', and all outrank the last of t
      forall k | 0 <= k < |r|
        ensures key(r[k]) >= key(t[|t| - 1])
      {
        assert r[k] in multiset(t') + multiset{x};
        if r[k] != x {
          assert r[k] in multiset(t');
          var m :| 0 <= m < |t'| && t'[m] == r[k];
          assert t[m] == r[k];
        }
      }
    }
  }

  /** The sorted list is non-increasing by key. */
  lemma {:induction false} SortIsDescending<T>(s: seq<T>, key: T -> int)
    ensures Descending(SortDescending(s, key), key)
  {
    if s != [] {
      SortIsDescending(s[..|s| - 1], key);
      InsertLastDescending(SortDescending(s[..|s| - 1], key), s[|s| - 1], key);
    }
  }

  /** The elements of `s` whose key is `v`, in order. */
  function WithKey<T>(s: seq<T>, key: T -> int, v: int): seq<T> {
    if s == [] then []
    else WithKey(s[..|s| - 1], key, v) + (if key(s[|s| - 1]) == v then [s[|s| - 1]] else [])
  }

  lemma {:induction false} InsertLastWithKey<T>(t: seq<T>, x: T, key: T -> int, v: int)
    ensures WithKey(InsertLast(t, x, key), key, v) == WithKey(t, key, v) + (if key(x) == v then [x] else [])
  {
    if t == [] || key(t[|t| - 1]) >= key(x) {
      WithKeyAppend(t, x, key, v);
    } else {
      var t', last := t[..|t| - 1], t[|t| - 1];
      InsertLastWithKey(t', x, key, v);
      WithKeyAppend(InsertLast(t', x, key), last, key, v);
      assert t == t' + [last];
      WithKeyAppend(t', last, key, v);
    }
  }

  lemma WithKeyAppend<T>(s: seq<T>, y: T, key: T -> int, v: int)
    ensures WithKey(s + [y], key, v) == WithKey(s, key, v) + (if key(y) == v then [y] else [])
  {
    assert (s + [y])[..|s|] == s;
  }

  /** Stability: for every key value, the elements with that key keep their relative order. */
  lemma {:induction false} SortIsStable<T>(s: seq<T>, key: T -> int, v: int)
    ensures WithKey(SortDescending(s, key), key, v) == WithKey(s, key, v)
  {
    if s != [] {
      var s' := s[..|s| - 1];
      SortIsStable(s', key, v);
      InsertLastWithKey(SortDescending(s', key), s[|s| - 1], key, v);
    }
  }

  /** Ratings compare as integers: "10" sorts above "9", which a string comparison would reverse. */
  lemma TenSortsAboveNine(p: Player, q: Player)
    requires p.stats.rating == "10" && q.stats.rating == "9"
    ensures SortDescending([q, p], RatingKey) == [p, q]
  {
    RatingOfDecimal(p, 10);
    RatingOfDecimal(q, 9);
    SortTwo(q, p, RatingKey);
  }

  lemma RatingOfDecimal(p: Player, n: int)
    requires 0 <= n <= 10 && p.stats.rating == (if n == 10 then "10" else [Digit(n)])
    ensures RatingKey(p) == n
  {
    if n == 10 {
      TwoDigitDecimal(1);
    }
    ParseIntOfIntToString(n);
  }

  lemma SortTwo<T>(x: T, y: T, key: T -> int)
    requires key(x) < key(y)
    ensures SortDescending([x, y], key) == [y, x]
  {
    assert [x, y][..1] == [x];
    assert SortDescending([x], key) == [x];
  }

  /** Two elements already in descending order stay as they are. */
  lemma SortTwoInOrder<T>(s: seq<T>, key: T -> int)
    requires |s| == 2 && key(s[0]) >= key(s[1])
    ensures SortDescending(s, key) == s
  {
    assert s[..1][..0] == [];
    assert s == s[..1] + [s[1]];
  }

  /** `InsertLast` splits `t` behind the last element that `x` does not outrank. */
  lemma {:induction false} InsertLastAt<T>(t: seq<T>, x: T, key: T -> int, j: nat)
    requires j <= |t|
    requires forall k :: j <= k < |t| ==> key(t[k]) < key(x)
    requires j == 0 || key(t[j - 1]) >= key(x)
    ensures InsertLast(t, x, key) == t[..j] + [x] + t[j..]
    decreases |t|
  {
    if j == |t| {
      assert t[..j] == t && t[j..] == [];
    } else {
      var t', last := t[..|t| - 1], t[|t| - 1];
      assert InsertLast(t, x, key) == InsertLast(t', x, key) + [last] by {
        assert key(last) < key(x);
      }
      InsertLastAt(t', x, key, j);
      SplitBeforeLast(t, j);
    }
  }

  lemma SplitBeforeLast<T>(t: seq<T>, j: nat)
    requires j < |t|
    ensures t[..j] == t[..|t| - 1][..j]
    ensures t[j..] == t[..|t| - 1][j..] + [t[|t| - 1]]
  {
  }

  lemma Spliced<T>(b: seq<T>, t: seq<T>, x: T, j: nat)
    requires j <= |t| && |b| == |t| + 1
    requires forall k :: 0 <= k < j ==> b[k] == t[k]
    requires b[j] == x
    requires forall k :: j < k < |b| ==> b[k] == t[k - 1]
    ensures b == t[..j] + [x] + t[j..]
  {
    var c := t[..j] + [x] + t[j..];
    forall k | 0 <= k < |b|
      ensures b[k] == c[k]
    {
      if k > j {
        assert c[k] == t[j..][k - j - 1];
      }
    }
  }

  /** Moves `a[i]` left past the larger-keyed elements before it. */
  method InsertInPlace<T>(a: array<T>, i: nat, key: T -> int)
    requires i < a.Length
    modifies a
    ensures a[..i + 1] == InsertLast(old(a[..i]), old(a[i]), key)
    ensures forall k :: i < k < a.Length ==> a[k] == old(a[k])
  {
    ghost var t := a[..i];
    var x := a[i];
    var j := i;
    while j > 0 && key(a[j - 1]) < key(x)
      invariant 0 <= j <= i
      invariant forall k :: 0 <= k < j ==> a[k] == t[k]
      invariant forall k :: j < k <= i ==> a[k] == t[k - 1]
      invariant forall k :: j <= k < i ==> key(t[k]) < key(x)
      invariant forall k :: i < k < a.Length ==> a[k] == old(a[k])
    {
      a[j] := a[j - 1];
      j := j - 1;
    }
    a[j] := x;
    Inserted(a[..i + 1], t, x, key, j);
  }

  /** The state `InsertInPlace` leaves is `x` inserted into `t` by `InsertLast`. */
  lemma Inserted<T>(b: seq<T>, t: seq<T>, x: T, key: T -> int, j: nat)
    requires j <= |t| && |b| == |t| + 1
    requires forall k :: 0 <= k < j ==> b[k] == t[k]
    requires b[j] == x
    requires forall k :: j < k < |b| ==> b[k] == t[k - 1]
    requires forall k :: j <= k < |t| ==> key(t[k]) < key(x)
    requires j == 0 || key(t[j - 1]) >= key(x)
    ensures b == InsertLast(t, x, key)
  {
    InsertLastAt(t, x, key, j);
    Spliced(b, t, x, j);
  }

  /** Insertion sort in place: the array ends as `SortDescending` of its old contents. */
  method SortInPlace<T>(a: array<T>, key: T -> int)
    modifies a
    ensures a[..] == SortDescending(old(a[..]), key)
  {
    ghost var s := a[..];
    for i := 0 to a.Length
      invariant a[..i] == SortDescending(s[..i], key)
      invariant forall k :: i <= k < a.Length ==> a[k] == s[k]
    {
      InsertInPlace(a, i, key);
      SortPrefixStep(s, i, key);
    }
    assert a[..] == a[..a.Length] && s == s[..a.Length];
  }

  /** Sorting one more element of `s` inserts it into the sorted prefix. */
  lemma SortPrefixStep<T>(s: seq<T>, i: nat, key: T -> int)
    requires i < |s|
    ensures SortDescending(s[..i + 1], key) == InsertLast(SortDescending(s[..i], key), s[i], key)
  {
    assert s[..i + 1][..i] == s[..i];
  }
}
