/**
  Rust's `slice::sort_by` with a "descending by key" comparator, which the
  engine uses to rank results by confidence and characters by count.
  `sort_by` is a stable sort: elements with equal keys keep their relative
  order. Here it is a stable insertion sort over a sequence.
 */
module Sorting {

  /** `s` is ordered by non-increasing key. */
  ghost predicate NonIncreasing<T>(s: seq<T>, key: T -> int)
  {
    forall i, j :: 0 <= i < j < |s| ==> key(s[i]) >= key(s[j])
  }

  /** The elements of `s` whose key is `v`, in their order in `s`. */
  function WithKey<T>(s: seq<T>, key: T -> int, v: int): seq<T>
  {
    if s == [] then []
    else (if key(s[0]) == v then [s[0]] else []) + WithKey(s[1..], key, v)
  }

  /** No element occurs twice. */
  ghost predicate Distinct<T>(s: seq<T>)
  {
    forall i, j :: 0 <= i < j < |s| ==> s[i] != s[j]
  }

  /**
    Inserts `x` into `s` in front of the first element whose key is not
    larger than that of `x`.
   */
  function Insert<T>(x: T, s: seq<T>, key: T -> int): (r: seq<T>)
    ensures multiset(r) == multiset(s) + multiset{x}
    ensures |r| == |s| + 1
    ensures r[0] == (if s == [] || key(x) >= key(s[0]) then x else s[0])
  {
    if s == [] then [x]
    else if key(x) >= key(s[0]) then [x] + s
    else
      assert s == [s[0]] + s[1..];
      [s[0]] + Insert(x, s[1..], key)
  }

  /** The stable sort by non-increasing key. */
  function SortDesc<T>(s: seq<T>, key: T -> int): (r: seq<T>)
    ensures multiset(r) == multiset(s) && |r| == |s|
    ensures NonIncreasing(r, key)
  {
    if s == [] then []
    else
      assert s == [s[0]] + s[1..];
      var rest := SortDesc(s[1..], key);
      InsertKeepsOrder(s[0], rest, key);
      Insert(s[0], rest, key)
  }

  lemma {:induction false} InsertKeepsOrder<T>(x: T, s: seq<T>, key: T -> int)
    requires NonIncreasing(s, key)
    ensures NonIncreasing(Insert(x, s, key), key)
  {
    if s != [] && key(x) < key(s[0]) {
      InsertKeepsOrder(x, s[1..], key);
      InsertBehindKeepsOrder(x, s, key);
    }
  }

  /** The inductive step of InsertKeepsOrder, when `x` goes behind the head of `s`. */
  lemma InsertBehindKeepsOrder<T>(x: T, s: seq<T>, key: T -> int)
    requires s != [] && key(x) < key(s[0])
    requires NonIncreasing(s, key) && NonIncreasing(Insert(x, s[1..], key), key)
    ensures NonIncreasing(Insert(x, s, key), key)
  {
    var tail := Insert(x, s[1..], key);
    InsertBelowHead(x, s, key);
    ConsKeepsOrder(s[0], tail, key);
    assert Insert(x, s, key) == [s[0]] + tail;
  }

  /** Inserting `x` into the tail of `s` keeps every key at most that of the head. */
  lemma InsertBelowHead<T>(x: T, s: seq<T>, key: T -> int)
    requires s != [] && key(x) < key(s[0]) && NonIncreasing(s, key)
    ensures var tail := Insert(x, s[1..], key);
      forall j :: 0 <= j < |tail| ==> key(tail[j]) <= key(s[0])
  {
    var tail := Insert(x, s[1..], key);
    forall j | 0 <= j < |tail| ensures key(tail[j]) <= key(s[0]) {
      var y := tail[j];
      assert y in multiset(tail);
      if y != x {
        assert y in multiset(s[1..]);
        var k :| 0 <= k < |s[1..]| && s[1..][k] == y;
        assert s[k + 1] == y;
      }
    }
  }

  /** Putting an element in front of smaller-or-equal keys keeps the order. */
  lemma ConsKeepsOrder<T>(a: T, t: seq<T>, key: T -> int)
    requires NonIncreasing(t, key) && forall j :: 0 <= j < |t| ==> key(t[j]) <= key(a)
    ensures NonIncreasing([a] + t, key)
  {
    var r := [a] + t;
    forall i, j | 0 <= i < j < |r| ensures key(r[i]) >= key(r[j]) {
      assert r[j] == t[j - 1];
      if i > 0 {
        assert r[i] == t[i - 1];
      }
    }
  }

  lemma SortOne<T>(x: T, key: T -> int)
    ensures SortDesc([x], key) == [x]
  {
    assert [x][1..] == [];
  }

  /** Sorting `[x] + s` inserts `x` into the sorted `s`. */
  lemma SortCons<T>(x: T, s: seq<T>, key: T -> int)
    ensures SortDesc([x] + s, key) == Insert(x, SortDesc(s, key), key)
  {
    assert ([x] + s)[0] == x && ([x] + s)[1..] == s;
  }

  /** `x` goes in front when its key is at least that of the head. */
  lemma InsertAhead<T>(x: T, s: seq<T>, key: T -> int)
    requires s == [] || key(x) >= key(s[0])
    ensures Insert(x, s, key) == [x] + s
  {
  }

  /** `x` goes behind a single element with a larger key. */
  lemma InsertPast<T>(x: T, y: T, key: T -> int)
    requires key(x) < key(y)
    ensures Insert(x, [y], key) == [y, x]
  {
    assert [y][1..] == [];
  }

  /**
    Four elements whose keys fall, then rise back to the second key: the
    last one moves up past the third and stays behind the second.
   */
  lemma SwapLastTwo<T>(a: T, b: T, c: T, d: T, key: T -> int)
    requires key(a) >= key(b) && key(b) >= key(d) && key(d) > key(c)
    ensures SortDesc([a, b, c, d], key) == [a, b, d, c]
  {
    SortOne(d, key);
    SortCons(c, [d], key);
    InsertPast(c, d, key);
    ConsTwo(c, d);
    SortCons(b, [c, d], key);
    InsertAhead(b, [d, c], key);
    ConsThree(b, c, d);
    ConsThree(b, d, c);
    SortCons(a, [b, c, d], key);
    InsertAhead(a, [b, d, c], key);
    ConsFour(a, b, c, d);
    ConsFour(a, b, d, c);
  }

  /** Display concatenations, kept apart so the sorting proof stays small. */
  lemma ConsTwo<T>(a: T, b: T)
    ensures [a] + [b] == [a, b]
  {
  }

  lemma ConsThree<T>(a: T, b: T, c: T)
    ensures [a] + [b, c] == [a, b, c]
  {
  }

  lemma ConsFour<T>(a: T, b: T, c: T, d: T)
    ensures [a] + [b, c, d] == [a, b, c, d]
  {
  }

  /**
    Inserting `x` adds it to the group of its own key at the front and
    leaves every other group unchanged: `x` goes before the equal keys.
   */
  lemma {:induction false} InsertWithKey<T>(x: T, s: seq<T>, key: T -> int, v: int)
    ensures WithKey(Insert(x, s, key), key, v)
         == (if key(x) == v then [x] else []) + WithKey(s, key, v)
  {
    if s == [] || key(x) >= key(s[0]) {
      assert Insert(x, s, key) == [x] + s;
      WithKeyCons(x, s, key, v);
    } else {
      InsertWithKey(x, s[1..], key, v);
      InsertBehind(x, s, key, v);
    }
  }

  /** The inductive step of InsertWithKey, when `x` goes behind the head of `s`. */
  lemma InsertBehind<T>(x: T, s: seq<T>, key: T -> int, v: int)
    requires s != [] && key(x) < key(s[0])
    requires WithKey(Insert(x, s[1..], key), key, v)
          == (if key(x) == v then [x] else []) + WithKey(s[1..], key, v)
    ensures WithKey(Insert(x, s, key), key, v)
         == (if key(x) == v then [x] else []) + WithKey(s, key, v)
  {
    var tail := Insert(x, s[1..], key);
    assert Insert(x, s, key) == [s[0]] + tail;
    WithKeyCons(s[0], tail, key, v);
    var a := if key(s[0]) == v then [s[0]] else [];
    var b := if key(x) == v then [x] else [];
    var rest := WithKey(s[1..], key, v);
    assert WithKey(s, key, v) == a + rest;
    assert WithKey(Insert(x, s, key), key, v) == a + (b + rest);
    SwapEmpty(a, b, rest);
  }

  /** Two prefixes commute when one of them is empty. */
  lemma SwapEmpty<T>(a: seq<T>, b: seq<T>, rest: seq<T>)
    requires a == [] || b == []
    ensures a + (b + rest) == b + (a + rest)
  {
    if a == [] {
      assert a + (b + rest) == b + rest && a + rest == rest;
    } else {
      assert b + rest == rest && b + (a + rest) == a + rest;
    }
  }

  lemma WithKeyCons<T>(a: T, s: seq<T>, key: T -> int, v: int)
    ensures WithKey([a] + s, key, v) == if key(a) == v then [a] + WithKey(s, key, v) else WithKey(s, key, v)
  {
    assert ([a] + s)[1..] == s;
  }

  /**
    Stability: for every key value, the elements with that key come out
    in the order they went in.
   */
  lemma {:induction false} SortDescStable<T>(s: seq<T>, key: T -> int, v: int)
    ensures WithKey(SortDesc(s, key), key, v) == WithKey(s, key, v)
  {
    if s != [] {
      SortDescStable(s[1..], key, v);
      InsertWithKey(s[0], SortDesc(s[1..], key), key, v);
    }
  }

  /** An element whose key is maximal and which comes first stays first. */
  lemma SortDescHead<T>(s: seq<T>, key: T -> int)
    requires s != []
    requires forall i :: 0 <= i < |s| ==> key(s[i]) <= key(s[0])
    ensures SortDesc(s, key)[0] == s[0]
  {
    var rest := SortDesc(s[1..], key);
    if rest != [] {
      assert rest[0] in multiset(s[1..]);
      var k :| 0 <= k < |s[1..]| && s[1..][k] == rest[0];
      assert s[k + 1] == rest[0];
    }
  }

  /** An element whose key is larger than that of every other element comes first. */
  lemma SortDescStrictMax<T>(s: seq<T>, key: T -> int, x: T)
    requires x in s
    requires forall i :: 0 <= i < |s| && s[i] != x ==> key(s[i]) < key(x)
    ensures SortDesc(s, key)[0] == x
  {
    var r := SortDesc(s, key);
    assert x in multiset(r);
    var j :| 0 <= j < |r| && r[j] == x;
    assert r[0] in multiset(s);
    var k :| 0 <= k < |s| && s[k] == r[0];
    assert key(r[0]) >= key(r[j]);
  }

  /**
    SortDesc is the only stable non-increasing arrangement of `s`: any
    sequence that orders the same elements by non-increasing key and keeps
    every key's group in input order is equal to it.
   */
  lemma {:induction false} StableSortUnique<T>(s: seq<T>, r: seq<T>, key: T -> int)
    requires NonIncreasing(r, key)
    requires forall v :: WithKey(r, key, v) == WithKey(s, key, v)
    ensures r == SortDesc(s, key)
  {
    var q := SortDesc(s, key);
    forall v ensures WithKey(q, key, v) == WithKey(r, key, v) {
      SortDescStable(s, key, v);
    }
    SortedGroupsDetermine(r, q, key);
  }

  /** Two non-increasing sequences with the same key groups are equal. */
  lemma {:induction false} SortedGroupsDetermine<T>(r: seq<T>, q: seq<T>, key: T -> int)
    requires NonIncreasing(r, key) && NonIncreasing(q, key)
    requires forall v :: WithKey(r, key, v) == WithKey(q, key, v)
    ensures r == q
    decreases |r| + |q|
  {
    if r == [] || q == [] {
      EmptyGroups(r, q, key);
    } else {
      SameHead(r, q, key);
      TailGroups(r, q, key);
      SortedGroupsDetermine(r[1..], q[1..], key);
      assert r == [r[0]] + r[1..] && q == [q[0]] + q[1..];
    }
  }

  lemma EmptyGroups<T>(r: seq<T>, q: seq<T>, key: T -> int)
    requires r == [] || q == []
    requires forall v :: WithKey(r, key, v) == WithKey(q, key, v)
    ensures r == q
  {
    HeadGroupNonEmpty(r, key);
    HeadGroupNonEmpty(q, key);
  }

  lemma SameHead<T>(r: seq<T>, q: seq<T>, key: T -> int)
    requires r != [] && q != []
    requires NonIncreasing(r, key) && NonIncreasing(q, key)
    requires forall v :: WithKey(r, key, v) == WithKey(q, key, v)
    ensures r[0] == q[0]
  {
    var m, m' := key(r[0]), key(q[0]);
    WithKeyHead(r, key);
    WithKeyHead(q, key);
    var gm, gm' := WithKey(r, key, m), WithKey(q, key, m');
    assert gm == WithKey(q, key, m);
    assert gm' == WithKey(r, key, m');
    WithKeyMember(q, key, m);
    WithKeyMember(r, key, m');
    assert m == m';
  }

  lemma TailGroups<T>(r: seq<T>, q: seq<T>, key: T -> int)
    requires r != [] && q != [] && r[0] == q[0]
    requires forall v :: WithKey(r, key, v) == WithKey(q, key, v)
    ensures forall v :: WithKey(r[1..], key, v) == WithKey(q[1..], key, v)
  {
    forall v ensures WithKey(r[1..], key, v) == WithKey(q[1..], key, v) {
      TailGroup(r, q, key, v);
    }
  }

  /** Equal heads and equal groups for key `v` leave equal groups for `v` in the tails. */
  lemma TailGroup<T>(r: seq<T>, q: seq<T>, key: T -> int, v: int)
    requires r != [] && q != [] && r[0] == q[0]
    requires WithKey(r, key, v) == WithKey(q, key, v)
    ensures WithKey(r[1..], key, v) == WithKey(q[1..], key, v)
  {
    var a, b := WithKey(r[1..], key, v), WithKey(q[1..], key, v);
    var h: seq<T> := if key(r[0]) == v then [r[0]] else [];
    assert WithKey(r, key, v) == h + a;
    assert WithKey(q, key, v) == h + b;
    assert (h + a)[|h|..] == a && (h + b)[|h|..] == b;
  }

  lemma HeadGroupNonEmpty<T>(s: seq<T>, key: T -> int)
    ensures s != [] ==> WithKey(s, key, key(s[0])) != []
  {
  }

  lemma WithKeyHead<T>(s: seq<T>, key: T -> int)
    requires s != []
    ensures WithKey(s, key, key(s[0])) != [] && WithKey(s, key, key(s[0]))[0] == s[0]
  {
  }

  /** A non-empty key group of a non-increasing sequence bounds its head. */
  lemma {:induction false} WithKeyMember<T>(s: seq<T>, key: T -> int, v: int)
    requires NonIncreasing(s, key)
    requires WithKey(s, key, v) != []
    ensures s != [] && key(s[0]) >= v
  {
    if s != [] && key(s[0]) != v {
      WithKeyMember(s[1..], key, v);
      assert key(s[0]) >= key(s[1]);
    }
  }

  /** Permuting a sequence of distinct elements keeps them distinct. */
  lemma DistinctPermutation<T>(s: seq<T>, t: seq<T>)
    requires Distinct(s) && multiset(s) == multiset(t)
    ensures Distinct(t)
  {
    forall i, j | 0 <= i < j < |t| ensures t[i] != t[j] {
      if t[i] == t[j] {
        var x := t[i];
        assert t == t[..i] + [x] + t[i + 1..j] + [x] + t[j + 1..];
        assert multiset(t)[x] >= 2;
        DistinctMultiplicity(s, x);
      }
    }
  }

  lemma {:induction false} DistinctMultiplicity<T>(s: seq<T>, x: T)
    requires Distinct(s)
    ensures multiset(s)[x] <= 1
  {
    if s != [] {
      DistinctMultiplicity(s[1..], x);
      assert s == [s[0]] + s[1..];
      if s[0] == x {
        forall k | 0 <= k < |s[1..]| ensures s[1..][k] != x {
          assert s[1..][k] == s[k + 1];
        }
        assert x !in s[1..];
      }
    }
  }
}
