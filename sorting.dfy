/**
 * Orderings and splits of listings: the insertion sort standing for
 * `Array.prototype.sort` with a numeric comparator (and for a store query that
 * returns items in sort-key order), and the two page columns every listing is
 * cut into.
 */
module Sorting {

  ghost predicate SortedBy<T>(s: seq<T>, key: T -> int)
  {
    forall i, j :: 0 <= i < j < |s| ==> key(s[i]) <= key(s[j])
  }

  /** Where `x` goes: before the first element whose key is not below its own,
      so that `x`, which came earlier, stays ahead of elements with its key. */
  function InsertPos<T>(x: T, s: seq<T>, key: T -> int): (k: nat)
    ensures k <= |s|
    ensures forall i :: 0 <= i < k ==> key(s[i]) < key(x)
    ensures k < |s| ==> key(x) <= key(s[k])
  {
    if s == [] || key(x) <= key(s[0]) then 0 else 1 + InsertPos(x, s[1..], key)
  }

  function Insert<T>(x: T, s: seq<T>, key: T -> int): (r: seq<T>)
    ensures |r| == |s| + 1
    ensures multiset(r) == multiset(s) + multiset{x}
    ensures SortedBy(s, key) ==> SortedBy(r, key)
  {
    var k := InsertPos(x, s, key);
    InsertKeeps(x, s, key, k);
    InsertSorted(x, s, key, k);
    s[..k] + [x] + s[k..]
  }

  lemma InsertKeeps<T>(x: T, s: seq<T>, key: T -> int, k: nat)
    requires k <= |s|
    ensures multiset(s[..k] + [x] + s[k..]) == multiset(s) + multiset{x}
  {
    assert s == s[..k] + s[k..];
  }

  lemma InsertSorted<T>(x: T, s: seq<T>, key: T -> int, k: nat)
    requires k == InsertPos(x, s, key)
    ensures SortedBy(s, key) ==> SortedBy(s[..k] + [x] + s[k..], key)
  {
    var r := s[..k] + [x] + s[k..];
    if SortedBy(s, key) {
      forall i, j | 0 <= i < j < |r|
        ensures key(r[i]) <= key(r[j])
      {
        if j < k {
          assert r[i] == s[i] && r[j] == s[j];
        } else if j == k {
          assert r[i] == s[i] && r[j] == x;
        } else if i < k {
          assert r[i] == s[i] && r[j] == s[j - 1];
        } else if i == k {
          assert r[i] == x && r[j] == s[j - 1];
          assert key(x) <= key(s[k]);
        } else {
          assert r[i] == s[i - 1] && r[j] == s[j - 1];
        }
      }
    }
  }

  /** The elements of `s`, ordered by ascending key; equal keys keep their
      order (`SortByStable`). */
  function SortBy<T>(s: seq<T>, key: T -> int): (r: seq<T>)
    ensures |r| == |s|
    ensures SortedBy(r, key)
    ensures multiset(r) == multiset(s)
  {
    if s == [] then []
    else
      assert s == [s[0]] + s[1..];
      Insert(s[0], SortBy(s[1..], key), key)
  }

  /** The elements of `s` whose key is `v`, in their order in `s`. */
  function WithKey<T>(s: seq<T>, key: T -> int, v: int): (r: seq<T>)
    ensures |r| <= |s|
  {
    if s == [] then []
    else (if key(s[0]) == v then [s[0]] else []) + WithKey(s[1..], key, v)
  }

  lemma {:induction false} WithKeyConcat<T>(a: seq<T>, b: seq<T>, key: T -> int, v: int)
    ensures WithKey(a + b, key, v) == WithKey(a, key, v) + WithKey(b, key, v)
  {
    if a == [] {
      assert a + b == b;
    } else {
      var ab := a + b;
      var h := if key(a[0]) == v then [a[0]] else [];
      assert ab[0] == a[0];
      assert ab[1..] == a[1..] + b;
      assert WithKey(ab, key, v) == h + WithKey(a[1..] + b, key, v);
      WithKeyConcat(a[1..], b, key, v);
      assert WithKey(a, key, v) == h + WithKey(a[1..], key, v);
    }
  }

  lemma {:induction false} WithKeyBelow<T>(s: seq<T>, key: T -> int, v: int)
    requires forall i :: 0 <= i < |s| ==> key(s[i]) < v
    ensures WithKey(s, key, v) == []
  {
    if s != [] {
      WithKeyBelow(s[1..], key, v);
    }
  }

  lemma WithKeyCons<T>(x: T, s: seq<T>, key: T -> int, v: int)
    ensures WithKey([x] + s, key, v) == (if key(x) == v then [x] else []) + WithKey(s, key, v)
  {
    assert ([x] + s)[0] == x && ([x] + s)[1..] == s;
  }

  lemma InsertShape<T>(x: T, s: seq<T>, key: T -> int)
    ensures Insert(x, s, key) == s[..InsertPos(x, s, key)] + ([x] + s[InsertPos(x, s, key)..])
  {
  }

  lemma WithKeySplit<T>(s: seq<T>, k: nat, key: T -> int, v: int)
    requires k <= |s|
    ensures WithKey(s, key, v) == WithKey(s[..k], key, v) + WithKey(s[k..], key, v)
  {
    assert s == s[..k] + s[k..];
    WithKeyConcat(s[..k], s[k..], key, v);
  }

  /** No element ahead of where `x` goes has the key of `x`. */
  lemma InsertPosAhead<T>(x: T, s: seq<T>, key: T -> int)
    ensures WithKey(s[..InsertPos(x, s, key)], key, key(x)) == []
  {
    var k := InsertPos(x, s, key);
    assert forall i :: 0 <= i < k ==> s[..k][i] == s[i];
    WithKeyBelow(s[..k], key, key(x));
  }

  /** Inserting `x` puts it ahead of every element with its key. */
  lemma {:induction false} InsertStable<T>(x: T, s: seq<T>, key: T -> int, v: int)
    ensures WithKey(Insert(x, s, key), key, v) == (if key(x) == v then [x] else []) + WithKey(s, key, v)
  {
    var k := InsertPos(x, s, key);
    InsertShape(x, s, key);
    if key(x) == v {
      InsertPosAhead(x, s, key);
    }
    WithKeyAround(s, k, x, key, v);
  }

  /** Putting `x` at position `k` of `s`, behind no element with its key. */
  lemma WithKeyAround<T>(s: seq<T>, k: nat, x: T, key: T -> int, v: int)
    requires k <= |s|
    requires key(x) == v ==> WithKey(s[..k], key, v) == []
    ensures WithKey(s[..k] + ([x] + s[k..]), key, v) == (if key(x) == v then [x] else []) + WithKey(s, key, v)
  {
    var lo, hi := s[..k], s[k..];
    var mid := if key(x) == v then [x] else [];
    WithKeyConcat(lo, [x] + hi, key, v);
    WithKeyCons(x, hi, key, v);
    WithKeySplit(s, k, key, v);
    var wl, wh := WithKey(lo, key, v), WithKey(hi, key, v);
    assert wl + (mid + wh) == mid + (wl + wh);
  }

  /** `SortBy` is stable: the elements with any one key come out in the
      order they went in, as `Array.prototype.sort` keeps them. */
  lemma {:induction false} SortByStable<T>(s: seq<T>, key: T -> int, v: int)
    ensures WithKey(SortBy(s, key), key, v) == WithKey(s, key, v)
  {
    if s != [] {
      SortByStable(s[1..], key, v);
      InsertStable(s[0], SortBy(s[1..], key), key, v);
    }
  }

  /** The two columns of a listing page. */
  datatype Columns<T> = Columns(left: seq<T>, center: seq<T>)

  /** `left = items.slice(0, count / 2)` and `center = items.slice(count / 2)`:
      slice truncates the fractional bound. */
  function Halves<T>(items: seq<T>, count: nat): (c: Columns<T>)
    ensures c.left + c.center == items
    ensures |c.left| == if count / 2 < |items| then count / 2 else |items|
  {
    var k := if count / 2 < |items| then count / 2 else |items|;
    assert items == items[..k] + items[k..];
    Columns(items[..k], items[k..])
  }

  /** When the count is the length of the listing, the centre column has the
      same number of items as the left one, or one more. */
  lemma HalvesBalanced<T>(items: seq<T>)
    ensures |Halves(items, |items|).center| - |Halves(items, |items|).left| in {0, 1}
  {
  }
}
