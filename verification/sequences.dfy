/** Generic sequence vocabulary used throughout the model: duplicate-free
    sequences, first positions, first-seen de-duplication, flattening and
    order-preserving filters. */
module Sequences {

  predicate NoDup<T(==)>(s: seq<T>) {
    forall i, j :: 0 <= i < j < |s| ==> s[i] != s[j]
  }

  function Elems<T>(s: seq<T>): set<T> {
    set x | x in s
  }

  lemma ConcatAssoc<T>(a: seq<T>, b: seq<T>, c: seq<T>)
    ensures a + b + c == a + (b + c)
  {
  }

  lemma ElemsCons<T>(s: seq<T>)
    requires |s| > 0
    ensures Elems(s) == {s[0]} + Elems(s[1..])
  {
    assert s == [s[0]] + s[1..];
  }

  /** The position of the first occurrence of `x` in `s` (Python's `list.index`). */
  function IndexOf<T(==)>(s: seq<T>, x: T): (i: nat)
    requires x in s
    ensures i < |s| && s[i] == x
    ensures forall k :: 0 <= k < i ==> s[k] != x
  {
    if s[0] == x then 0 else 1 + IndexOf(s[1..], x)
  }

  lemma IndexOfPrefix<T>(s: seq<T>, n: nat, x: T)
    requires n <= |s| && x in s[..n]
    ensures IndexOf(s, x) == IndexOf(s[..n], x)
  {
    var i := IndexOf(s[..n], x);
    var j := IndexOf(s, x);
    assert s[i] == x;
    assert j <= i;
    assert s[..n][j] == x;
  }

  /** The elements of `s` without repetition, each at the place where it is
      first seen. Defined by scanning `s` from the front and appending every
      element not yet collected. */
  function Distinct<T(==,!new)>(s: seq<T>): (r: seq<T>)
    ensures NoDup(r)
    ensures forall x :: x in r <==> x in s
    ensures |r| <= |s|
  {
    if |s| == 0 then []
    else
      var d := Distinct(s[..|s| - 1]);
      var last := s[|s| - 1];
      assert forall x :: x in s <==> x in s[..|s| - 1] || x == last by {
        assert s == s[..|s| - 1] + [last];
      }
      if last in d then d else d + [last]
  }

  /** The first-seen order of `Distinct`: earlier results were first seen earlier. */
  lemma {:induction false} DistinctFirstSeenOrder<T(!new)>(s: seq<T>)
    ensures forall i, j :: 0 <= i < j < |Distinct(s)| ==>
      IndexOf(s, Distinct(s)[i]) < IndexOf(s, Distinct(s)[j])
  {
    if |s| > 0 {
      var init := s[..|s| - 1];
      var last := s[|s| - 1];
      var d := Distinct(init);
      DistinctFirstSeenOrder(init);
      forall x | x in d
        ensures IndexOf(s, x) == IndexOf(init, x) && IndexOf(s, x) < |s| - 1
      {
        IndexOfPrefix(s, |s| - 1, x);
      }
      if last !in d {
        assert last !in init;
        assert IndexOf(s, last) == |s| - 1 by {
          assert forall m :: 0 <= m < |s| - 1 ==> s[m] == init[m];
        }
        var r := d + [last];
        assert Distinct(s) == r;
        forall i, j | 0 <= i < j < |r|
          ensures IndexOf(s, r[i]) < IndexOf(s, r[j])
        {
          if j < |d| {
            assert r[i] == d[i] && r[j] == d[j];
          } else {
            assert r[i] == d[i] && r[j] == last;
          }
        }
      }
    }
  }

  /** A duplicate-free sequence has as many distinct elements as positions. */
  lemma {:induction false} NoDupCard<T>(s: seq<T>)
    requires NoDup(s)
    ensures |Elems(s)| == |s|
  {
    if |s| > 0 {
      var t := s[1..];
      NoDupCard(t);
      assert s[0] !in t;
      assert Elems(s) == Elems(t) + {s[0]} by {
        assert s == [s[0]] + t;
      }
    }
  }

  lemma {:induction false} SubsetCard<T>(a: set<T>, b: set<T>)
    requires a <= b
    ensures |a| <= |b|
  {
    if a != {} {
      var x :| x in a;
      SubsetCard(a - {x}, b - {x});
    }
  }

  /** Concatenation of a sequence of sequences, outer order first. */
  function Flatten<T>(xss: seq<seq<T>>): (r: seq<T>)
    ensures |r| == TotalLength(xss)
  {
    if |xss| == 0 then [] else xss[0] + Flatten(xss[1..])
  }

  function TotalLength<T>(xss: seq<seq<T>>): nat {
    if |xss| == 0 then 0 else |xss[0]| + TotalLength(xss[1..])
  }

  /** Where the elements of `xss[i]` begin in the flattened sequence. */
  function Offset<T>(xss: seq<seq<T>>, i: nat): nat
    requires i <= |xss|
  {
    TotalLength(xss[..i])
  }

  /** Element `j` of inner sequence `i` sits at `Offset(xss, i) + j`. */
  lemma {:induction false} FlattenIndex<T>(xss: seq<seq<T>>, i: nat, j: nat)
    requires i < |xss| && j < |xss[i]|
    ensures Offset(xss, i) + j < |Flatten(xss)|
    ensures Flatten(xss)[Offset(xss, i) + j] == xss[i][j]
  {
    if i == 0 {
      assert xss[..0] == [];
    } else {
      var tail := xss[1..];
      FlattenIndex(tail, i - 1, j);
      assert xss[..i][1..] == tail[..i - 1];
      assert Offset(xss, i) == |xss[0]| + Offset(tail, i - 1);
    }
  }

  lemma {:induction false} TotalLengthAppend<T>(a: seq<seq<T>>, b: seq<seq<T>>)
    ensures TotalLength(a + b) == TotalLength(a) + TotalLength(b)
  {
    if |a| > 0 {
      TotalLengthAppend(a[1..], b);
      assert (a + b)[0] == a[0];
      assert (a + b)[1..] == a[1..] + b;
    } else {
      assert a + b == b;
    }
  }

  /** Inner sequence `i` ends no later than a later one begins. */
  lemma OffsetGrows<T>(xss: seq<seq<T>>, i: nat, i': nat)
    requires i < i' <= |xss|
    ensures Offset(xss, i) + |xss[i]| <= Offset(xss, i')
  {
    assert xss[..i'] == xss[..i] + [xss[i]] + xss[i + 1..i'];
    TotalLengthAppend(xss[..i] + [xss[i]], xss[i + 1..i']);
    TotalLengthAppend(xss[..i], [xss[i]]);
    assert TotalLength([xss[i]]) == |xss[i]| by {
      assert [xss[i]][1..] == [];
    }
  }

  /** Every position of the flattened sequence comes from some inner position. */
  lemma {:induction false} FlattenCover<T>(xss: seq<seq<T>>, k: nat) returns (i: nat, j: nat)
    requires k < |Flatten(xss)|
    ensures i < |xss| && j < |xss[i]| && k == Offset(xss, i) + j
    ensures Flatten(xss)[k] == xss[i][j]
  {
    assert xss[..0] == [];
    if k < |xss[0]| {
      i, j := 0, k;
    } else {
      var tail := xss[1..];
      var i', j' := FlattenCover(tail, k - |xss[0]|);
      i, j := i' + 1, j';
      assert xss[..i][1..] == tail[..i'];
      assert Offset(xss, i) == |xss[0]| + Offset(tail, i');
    }
  }

  /** Inner sequence `i` sits, whole and in order, at its offset. */
  lemma FlattenSlice<T>(xss: seq<seq<T>>, i: nat)
    requires i < |xss|
    ensures Offset(xss, i) + |xss[i]| <= |Flatten(xss)|
    ensures Flatten(xss)[Offset(xss, i)..Offset(xss, i) + |xss[i]|] == xss[i]
  {
    OffsetGrows(xss, i, |xss|);
    assert xss[..|xss|] == xss;
    forall j | 0 <= j < |xss[i]|
      ensures Flatten(xss)[Offset(xss, i) + j] == xss[i][j]
    {
      FlattenIndex(xss, i, j);
    }
  }
  /** The flattened sequence holds exactly the elements of the inner ones. */
  lemma FlattenMembers<T>(xss: seq<seq<T>>)
    ensures forall x :: x in Flatten(xss) <==> exists i :: 0 <= i < |xss| && x in xss[i]
  {
    forall x | x in Flatten(xss)
      ensures exists i :: 0 <= i < |xss| && x in xss[i]
    {
      var k :| 0 <= k < |Flatten(xss)| && Flatten(xss)[k] == x;
      var i, j := FlattenCover(xss, k);
      assert x in xss[i];
    }
    forall x, i | 0 <= i < |xss| && x in xss[i]
      ensures x in Flatten(xss)
    {
      var j :| 0 <= j < |xss[i]| && xss[i][j] == x;
      FlattenIndex(xss, i, j);
    }
  }

  /** The elements of `s` that lie in `keys`, in their order in `s`. */
  function Keep<T(!new)>(s: seq<T>, keys: set<T>): (r: seq<T>)
    ensures forall x :: x in r <==> x in s && x in keys
    ensures NoDup(s) ==> NoDup(r)
  {
    if |s| == 0 then []
    else if s[0] in keys then [s[0]] + Keep(s[1..], keys)
    else Keep(s[1..], keys)
  }

  lemma {:induction false} KeepKeep<T(!new)>(s: seq<T>, a: set<T>, b: set<T>)
    ensures Keep(Keep(s, a), b) == Keep(s, a * b)
  {
    if |s| > 0 {
      KeepKeep(s[1..], a, b);
      if s[0] in a {
        assert Keep(s, a) == [s[0]] + Keep(s[1..], a);
        assert Keep(s, a)[1..] == Keep(s[1..], a);
      }
    }
  }

  lemma {:induction false} KeepLength<T(!new)>(s: seq<T>, keys: set<T>)
    ensures |Keep(s, keys)| <= |s|
  {
    if |s| > 0 { KeepLength(s[1..], keys); }
  }

  /** `Keep` preserves the relative order of what it keeps. */
  lemma {:induction false} KeepInOrder<T(!new)>(s: seq<T>, keys: set<T>)
    requires NoDup(s)
    ensures forall i, j :: 0 <= i < j < |Keep(s, keys)| ==>
      IndexOf(s, Keep(s, keys)[i]) < IndexOf(s, Keep(s, keys)[j])
  {
    if |s| > 0 {
      var tail := s[1..];
      KeepInOrder(tail, keys);
      var r := Keep(s, keys);
      forall x | x in tail
        ensures IndexOf(s, x) == 1 + IndexOf(tail, x)
      {
        assert x != s[0];
      }
      forall i, j | 0 <= i < j < |r|
        ensures IndexOf(s, r[i]) < IndexOf(s, r[j])
      {
        if s[0] in keys {
          assert r == [s[0]] + Keep(tail, keys);
          assert r[j] == Keep(tail, keys)[j - 1];
          if i > 0 {
            assert r[i] == Keep(tail, keys)[i - 1];
          }
        } else {
          assert r == Keep(tail, keys);
        }
      }
    }
  }

  /** A filter that lets everything through changes nothing. */
  lemma {:induction false} KeepAll<T(!new)>(s: seq<T>, keys: set<T>)
    requires forall x :: x in s ==> x in keys
    ensures Keep(s, keys) == s
  {
    if |s| > 0 { KeepAll(s[1..], keys); }
  }

  /** A sorted sequence whose key tells its elements apart is strictly sorted. */
  lemma SortedInjectiveIsStrict<T>(s: seq<T>, key: T -> int)
    requires NoDup(s) && SortedBy(s, key)
    requires forall x, y :: x in s && y in s && key(x) == key(y) ==> x == y
    ensures forall i, j :: 0 <= i < j < |s| ==> key(s[i]) < key(s[j])
  {
    forall i, j | 0 <= i < j < |s|
      ensures key(s[i]) < key(s[j])
    {
      assert key(s[i]) <= key(s[j]);
      assert s[i] != s[j];
    }
  }

  /** Two duplicate-free sequences with the same elements, both strictly
      increasing under `key`, are the same sequence. */
  lemma {:induction false} StrictlySortedUnique<T>(a: seq<T>, b: seq<T>, key: T -> int)
    requires forall i, j :: 0 <= i < j < |a| ==> key(a[i]) < key(a[j])
    requires forall i, j :: 0 <= i < j < |b| ==> key(b[i]) < key(b[j])
    requires forall x :: x in a <==> x in b
    ensures a == b
  {
    assert NoDup(a) && NoDup(b);
    assert Elems(a) == Elems(b);
    NoDupCard(a);
    NoDupCard(b);
    if |a| > 0 {
      assert a[0] in b;
      assert b[0] in a;
      var ka :| 0 <= ka < |b| && b[ka] == a[0];
      var kb :| 0 <= kb < |a| && a[kb] == b[0];
      assert forall i, j :: 0 <= i <= j < |a| ==> key(a[i]) <= key(a[j]);
      assert forall i, j :: 0 <= i <= j < |b| ==> key(b[i]) <= key(b[j]);
      assert key(a[0]) <= key(b[0]) <= key(a[0]);
      assert ka == 0;
      forall x
        ensures x in a[1..] <==> x in b[1..]
      {
        if x in a[1..] {
          var i :| 1 <= i < |a| && a[i] == x;
          assert x != a[0] by { assert key(a[0]) < key(a[i]); }
          assert x in b;
          var j :| 0 <= j < |b| && b[j] == x;
          assert j != 0;
        }
        if x in b[1..] {
          var j :| 1 <= j < |b| && b[j] == x;
          assert x != b[0] by { assert key(b[0]) < key(b[j]); }
          assert x in a;
          var i :| 0 <= i < |a| && a[i] == x;
          assert i != 0;
        }
      }
      StrictlySortedUnique(a[1..], b[1..], key);
      assert a == [a[0]] + a[1..];
      assert b == [b[0]] + b[1..];
    }
  }

  predicate SortedBy<T>(s: seq<T>, key: T -> int) {
    forall i, j :: 0 <= i < j < |s| ==> key(s[i]) <= key(s[j])
  }

  /** Inserts `x` before the first element whose key is not smaller. */
  function InsertByKey<T(!new)>(x: T, sorted: seq<T>, key: T -> int): (r: seq<T>)
    ensures |r| == |sorted| + 1
    ensures forall y :: y in r <==> y == x || y in sorted
  {
    if |sorted| == 0 then [x]
    else if key(x) <= key(sorted[0]) then [x] + sorted
    else
      assert sorted == [sorted[0]] + sorted[1..];
      [sorted[0]] + InsertByKey(x, sorted[1..], key)
  }

  lemma {:induction false} InsertByKeySorted<T(!new)>(x: T, sorted: seq<T>, key: T -> int)
    requires SortedBy(sorted, key)
    ensures SortedBy(InsertByKey(x, sorted, key), key)
  {
    if |sorted| > 0 && key(x) > key(sorted[0]) {
      var head := sorted[0];
      var rest := InsertByKey(x, sorted[1..], key);
      InsertByKeySorted(x, sorted[1..], key);
      forall k | 0 <= k < |rest|
        ensures key(head) <= key(rest[k])
      {
        if rest[k] != x {
          assert rest[k] in sorted[1..];
        }
      }
    }
  }

  lemma {:induction false} InsertByKeyNoDup<T(!new)>(x: T, sorted: seq<T>, key: T -> int)
    requires NoDup(sorted) && x !in sorted
    ensures NoDup(InsertByKey(x, sorted, key))
  {
    if |sorted| > 0 && key(x) > key(sorted[0]) {
      InsertByKeyNoDup(x, sorted[1..], key);
      assert sorted[0] !in sorted[1..];
    }
  }

  /** Insertion sort by `key`, stable: of two elements with equal keys the
      one earlier in `s` stays earlier (`SortByKeyStable`). Python's
      `list.sort(key=...)`. */
  function SortByKey<T(!new)>(s: seq<T>, key: T -> int): (r: seq<T>)
    ensures |r| == |s|
    ensures forall y :: y in r <==> y in s
  {
    if |s| == 0 then []
    else
      assert s == [s[0]] + s[1..];
      InsertByKey(s[0], SortByKey(s[1..], key), key)
  }

  lemma {:induction false} SortByKeySorted<T(!new)>(s: seq<T>, key: T -> int)
    ensures SortedBy(SortByKey(s, key), key)
  {
    if |s| > 0 {
      SortByKeySorted(s[1..], key);
      InsertByKeySorted(s[0], SortByKey(s[1..], key), key);
    }
  }

  lemma {:induction false} SortByKeyNoDup<T(!new)>(s: seq<T>, key: T -> int)
    requires NoDup(s)
    ensures NoDup(SortByKey(s, key))
  {
    if |s| > 0 {
      SortByKeyNoDup(s[1..], key);
      assert s[0] !in s[1..];
      InsertByKeyNoDup(s[0], SortByKey(s[1..], key), key);
    }
  }

  /** `s` is strictly increasing under `rank`. */
  predicate IncreasingBy<T>(s: seq<T>, rank: T -> int) {
    forall i, j :: 0 <= i < j < |s| ==> rank(s[i]) < rank(s[j])
  }

  /** Of two elements of `s` with equal keys, the earlier has the smaller rank. */
  predicate TiesBy<T>(s: seq<T>, key: T -> int, rank: T -> int) {
    forall i, j :: 0 <= i < j < |s| && key(s[i]) == key(s[j]) ==> rank(s[i]) < rank(s[j])
  }

  /** Putting `h` in front keeps ties ordered when `h` ranks before every
      element of equal key. */
  lemma TiesByCons<T>(h: T, t: seq<T>, key: T -> int, rank: T -> int)
    requires TiesBy(t, key, rank)
    requires forall y :: y in t && key(y) == key(h) ==> rank(h) < rank(y)
    ensures TiesBy([h] + t, key, rank)
  {
    var r := [h] + t;
    forall i, j | 0 <= i < j < |r| && key(r[i]) == key(r[j])
      ensures rank(r[i]) < rank(r[j])
    {
      assert r[j] == t[j - 1];
      if i > 0 {
        assert r[i] == t[i - 1];
      }
    }
  }

  lemma {:induction false} InsertByKeyStable<T(!new)>(x: T, sorted: seq<T>, key: T -> int, rank: T -> int)
    requires TiesBy(sorted, key, rank)
    requires forall y :: y in sorted ==> rank(x) < rank(y)
    ensures TiesBy(InsertByKey(x, sorted, key), key, rank)
  {
    if |sorted| == 0 {
    } else if key(x) <= key(sorted[0]) {
      TiesByCons(x, sorted, key, rank);
    } else {
      var head := sorted[0];
      var rest := InsertByKey(x, sorted[1..], key);
      InsertByKeyStable(x, sorted[1..], key, rank);
      forall y | y in rest && key(y) == key(head)
        ensures rank(head) < rank(y)
      {
        var k :| 0 <= k < |sorted[1..]| && sorted[1..][k] == y;
        assert sorted[k + 1] == y;
      }
      TiesByCons(head, rest, key, rank);
    }
  }

  /** Whatever strict order `rank` puts `s` in, `SortByKey` keeps it among
      elements of equal key. */
  lemma {:induction false} SortByKeyStable<T(!new)>(s: seq<T>, key: T -> int, rank: T -> int)
    requires IncreasingBy(s, rank)
    ensures TiesBy(SortByKey(s, key), key, rank)
  {
    if |s| > 0 {
      var tail := s[1..];
      assert IncreasingBy(tail, rank) by {
        forall i, j | 0 <= i < j < |tail|
          ensures rank(tail[i]) < rank(tail[j])
        {
          assert tail[i] == s[i + 1] && tail[j] == s[j + 1];
        }
      }
      SortByKeyStable(tail, key, rank);
      forall y | y in SortByKey(tail, key)
        ensures rank(s[0]) < rank(y)
      {
        var k :| 0 <= k < |tail| && tail[k] == y;
        assert s[k + 1] == y;
      }
      InsertByKeyStable(s[0], SortByKey(tail, key), key, rank);
    }
  }

  /** In a sequence sorted by `key` with ties ordered by `rank`, everything in
      the first `m` positions ranks before everything after them. */
  lemma PrefixRanksFirst<T>(s: seq<T>, m: nat, key: T -> int, rank: T -> int)
    requires m <= |s| && NoDup(s) && SortedBy(s, key) && TiesBy(s, key, rank)
    ensures forall x, y :: x in s[..m] && y in s && y !in s[..m] ==>
      key(x) < key(y) || (key(x) == key(y) && rank(x) < rank(y))
  {
    forall x, y | x in s[..m] && y in s && y !in s[..m]
      ensures key(x) < key(y) || (key(x) == key(y) && rank(x) < rank(y))
    {
      var i :| 0 <= i < m && s[..m][i] == x;
      var j :| 0 <= j < |s| && s[j] == y;
      assert s[i] == x;
    }
  }
}
