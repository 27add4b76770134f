/** The two array operations the stores lean on: `Array.prototype.filter` and the
    stable `Array.prototype.sort` driven by a three-way comparator. */
module Lists {

  /** `filter`: the elements of `s` that satisfy `p`, in their original order. */
  function Filter<T(!new)>(s: seq<T>, p: T -> bool): (r: seq<T>)
    ensures |r| <= |s|
    ensures forall x :: multiset(r)[x] == if p(x) then multiset(s)[x] else 0
  {
    if s == [] then []
    else
      assert s == [s[0]] + s[1..];
      (if p(s[0]) then [s[0]] else []) + Filter(s[1..], p)
  }

  /** Filtering distributes over concatenation, which is what "keeps the order" means. */
  lemma {:induction false} FilterAppend<T(!new)>(a: seq<T>, b: seq<T>, p: T -> bool)
    ensures Filter(a + b, p) == Filter(a, p) + Filter(b, p)
  {
    if a == [] {
      assert a + b == b;
    } else {
      var head := if p(a[0]) then [a[0]] else [];
      calc {
        Filter(a + b, p);
        { assert (a + b)[0] == a[0] && (a + b)[1..] == a[1..] + b; }
        head + Filter(a[1..] + b, p);
        { FilterAppend(a[1..], b, p); }
        head + (Filter(a[1..], p) + Filter(b, p));
        Filter(a, p) + Filter(b, p);
      }
    }
  }

  /** Filtering changes nothing when every element passes. */
  lemma {:induction false} FilterAllPass<T(!new)>(s: seq<T>, p: T -> bool)
    requires forall k :: 0 <= k < |s| ==> p(s[k])
    ensures Filter(s, p) == s
  {
    if s != [] {
      FilterAllPass(s[1..], p);
    }
  }

  /** A comparator in the sense of `Array.prototype.sort`: the sign of `cmp(a, b)`
      says whether `a` goes first (negative), `b` goes first (positive) or they tie. */
  ghost predicate Consistent<T(!new)>(cmp: (T, T) -> int) {
    && (forall a, b :: cmp(a, b) < 0 <==> cmp(b, a) > 0)
    && (forall a, b, c :: cmp(a, b) <= 0 && cmp(b, c) <= 0 ==> cmp(a, c) <= 0)
  }

  ghost predicate SortedBy<T>(cmp: (T, T) -> int, s: seq<T>) {
    forall i, j :: 0 <= i < j < |s| ==> cmp(s[i], s[j]) <= 0
  }

  /** Places `x` after every leading element that does not sort after it. */
  function Insert<T>(cmp: (T, T) -> int, x: T, s: seq<T>): (r: seq<T>)
    ensures |r| == |s| + 1
    ensures multiset(r) == multiset(s) + multiset{x}
  {
    if s == [] then [x]
    else if cmp(s[0], x) <= 0 then
      assert s == [s[0]] + s[1..];
      [s[0]] + Insert(cmp, x, s[1..])
    else [x] + s
  }

  /** The stable sort: each element, taken left to right, is inserted after every
      element already placed that does not sort after it. */
  function SortBy<T>(cmp: (T, T) -> int, s: seq<T>): (r: seq<T>)
    ensures |r| == |s|
    ensures multiset(r) == multiset(s)
  {
    if s == [] then []
    else
      assert s == s[..|s| - 1] + [s[|s| - 1]];
      Insert(cmp, s[|s| - 1], SortBy(cmp, s[..|s| - 1]))
  }

  /** The elements of `s` that tie with `z`, in their order in `s`.  A sort is stable
      when it leaves every such list unchanged. */
  function Ties<T>(cmp: (T, T) -> int, s: seq<T>, z: T): seq<T> {
    if s == [] then [] else (if cmp(s[0], z) == 0 then [s[0]] else []) + Ties(cmp, s[1..], z)
  }

  lemma {:induction false} TiesAppend<T>(cmp: (T, T) -> int, a: seq<T>, b: seq<T>, z: T)
    ensures Ties(cmp, a + b, z) == Ties(cmp, a, z) + Ties(cmp, b, z)
  {
    if a == [] {
      assert a + b == b;
    } else {
      TiesAppend(cmp, a[1..], b, z);
      assert (a + b)[0] == a[0] && (a + b)[1..] == a[1..] + b;
    }
  }

  lemma {:induction false} TiesNone<T>(cmp: (T, T) -> int, s: seq<T>, z: T)
    requires forall k :: 0 <= k < |s| ==> cmp(s[k], z) != 0
    ensures Ties(cmp, s, z) == []
  {
    if s != [] {
      TiesNone(cmp, s[1..], z);
    }
  }

  /** Whatever every element of `s` and `x` sort no earlier than, every element of
      the insertion sorts no earlier than too. */
  lemma {:induction false} InsertLowerBound<T>(cmp: (T, T) -> int, y: T, x: T, s: seq<T>)
    requires cmp(y, x) <= 0
    requires forall k :: 0 <= k < |s| ==> cmp(y, s[k]) <= 0
    ensures forall k :: 0 <= k < |s| + 1 ==> cmp(y, Insert(cmp, x, s)[k]) <= 0
  {
    if s != [] && cmp(s[0], x) <= 0 {
      InsertLowerBound(cmp, y, x, s[1..]);
    }
  }

  lemma {:induction false} InsertSorted<T(!new)>(cmp: (T, T) -> int, x: T, s: seq<T>)
    requires Consistent(cmp) && SortedBy(cmp, s)
    ensures SortedBy(cmp, Insert(cmp, x, s))
  {
    if s != [] {
      var r := Insert(cmp, x, s);
      if cmp(s[0], x) <= 0 {
        var rest := Insert(cmp, x, s[1..]);
        InsertSorted(cmp, x, s[1..]);
        InsertLowerBound(cmp, s[0], x, s[1..]);
        assert r == [s[0]] + rest;
      } else {
        assert cmp(x, s[0]) < 0;
        assert r == [x] + s;
      }
    }
  }

  /** Nothing that sorts strictly after `x` ties with anything `x` ties with. */
  lemma NothingAboveTies<T(!new)>(cmp: (T, T) -> int, x: T, s: seq<T>, z: T)
    requires Consistent(cmp) && SortedBy(cmp, s)
    requires s != [] && cmp(s[0], x) > 0 && cmp(x, z) == 0
    ensures forall k :: 0 <= k < |s| ==> cmp(s[k], z) != 0
  {
    forall k | 0 <= k < |s|
      ensures cmp(s[k], z) != 0
    {
      assert cmp(z, x) <= 0;
      assert cmp(s[0], s[k]) <= 0;
    }
  }

  /** Inserting in front of everything that sorts after `x`. */
  lemma InsertTiesFront<T(!new)>(cmp: (T, T) -> int, x: T, s: seq<T>, z: T)
    requires Consistent(cmp) && SortedBy(cmp, s)
    requires s != [] && cmp(s[0], x) > 0
    ensures Ties(cmp, Insert(cmp, x, s), z) == Ties(cmp, s, z) + (if cmp(x, z) == 0 then [x] else [])
  {
    var r := Insert(cmp, x, s);
    assert r == [x] + s;
    assert r[0] == x && r[1..] == s;
    if cmp(x, z) == 0 {
      NothingAboveTies(cmp, x, s, z);
      TiesNone(cmp, s, z);
    }
  }

  lemma {:induction false} InsertTies<T(!new)>(cmp: (T, T) -> int, x: T, s: seq<T>, z: T)
    requires Consistent(cmp) && SortedBy(cmp, s)
    ensures Ties(cmp, Insert(cmp, x, s), z) == Ties(cmp, s, z) + (if cmp(x, z) == 0 then [x] else [])
  {
    var last := if cmp(x, z) == 0 then [x] else [];
    if s == [] {
      assert Insert(cmp, x, s) == [x];
      assert Ties(cmp, [x], z) == last + Ties(cmp, [x][1..], z);
    } else if cmp(s[0], x) <= 0 {
      var r := Insert(cmp, x, s);
      var head := if cmp(s[0], z) == 0 then [s[0]] else [];
      var rest := Insert(cmp, x, s[1..]);
      assert r == [s[0]] + rest;
      assert r[0] == s[0] && r[1..] == rest;
      SortedTailOnly(cmp, s);
      calc {
        Ties(cmp, r, z);
        head + Ties(cmp, rest, z);
        { InsertTies(cmp, x, s[1..], z); }
        head + (Ties(cmp, s[1..], z) + last);
        (head + Ties(cmp, s[1..], z)) + last;
        Ties(cmp, s, z) + last;
      }
    } else {
      InsertTiesFront(cmp, x, s, z);
    }
  }

  /** The sort orders its result by the comparator. */
  lemma {:induction false} SortBySorted<T(!new)>(cmp: (T, T) -> int, s: seq<T>)
    requires Consistent(cmp)
    ensures SortedBy(cmp, SortBy(cmp, s))
  {
    if s != [] {
      SortBySorted(cmp, s[..|s| - 1]);
      InsertSorted(cmp, s[|s| - 1], SortBy(cmp, s[..|s| - 1]));
    }
  }

  /** The sort is stable: elements that tie keep their input order. */
  lemma {:induction false} SortByStable<T(!new)>(cmp: (T, T) -> int, s: seq<T>, z: T)
    requires Consistent(cmp)
    ensures Ties(cmp, SortBy(cmp, s), z) == Ties(cmp, s, z)
  {
    if s != [] {
      var init, last := s[..|s| - 1], s[|s| - 1];
      var tail := if cmp(last, z) == 0 then [last] else [];
      assert s == init + [last];
      assert Ties(cmp, [last], z) == tail + Ties(cmp, [], z);
      calc {
        Ties(cmp, SortBy(cmp, s), z);
        Ties(cmp, Insert(cmp, last, SortBy(cmp, init)), z);
        { SortBySorted(cmp, init); InsertTies(cmp, last, SortBy(cmp, init), z); }
        Ties(cmp, SortBy(cmp, init), z) + tail;
        { SortByStable(cmp, init, z); }
        Ties(cmp, init, z) + tail;
        { TiesAppend(cmp, init, [last], z); }
        Ties(cmp, s, z);
      }
    }
  }

  /** `s` back to front. */
  function Reverse<T>(s: seq<T>): (r: seq<T>)
    ensures |r| == |s|
    ensures forall i :: 0 <= i < |s| ==> r[i] == s[|s| - 1 - i]
    ensures multiset(r) == multiset(s)
  {
    if s == [] then []
    else
      assert s == [s[0]] + s[1..];
      Reverse(s[1..]) + [s[0]]
  }

  /** No two different elements of `s` tie under `cmp`. */
  ghost predicate TieFree<T>(cmp: (T, T) -> int, s: seq<T>) {
    forall x, y :: x in s && y in s && cmp(x, y) == 0 ==> x == y
  }

  /** The comparator with its operands swapped is consistent whenever `cmp` is. */
  lemma FlipConsistent<T(!new)>(cmp: (T, T) -> int, flipped: (T, T) -> int)
    requires Consistent(cmp)
    requires forall a, b :: flipped(a, b) == cmp(b, a)
    ensures Consistent(flipped)
  {
    forall a: T, b: T, c: T | flipped(a, b) <= 0 && flipped(b, c) <= 0
      ensures flipped(a, c) <= 0
    {
      assert cmp(c, b) <= 0 && cmp(b, a) <= 0;
    }
  }

  /** Reading a sorted sequence backwards gives one sorted by the swapped comparator. */
  lemma ReverseSorted<T>(cmp: (T, T) -> int, flipped: (T, T) -> int, s: seq<T>)
    requires forall a, b :: flipped(a, b) == cmp(b, a)
    requires SortedBy(cmp, s)
    ensures SortedBy(flipped, Reverse(s))
  {
    var r := Reverse(s);
    forall i, j | 0 <= i < j < |r|
      ensures flipped(r[i], r[j]) <= 0
    {
      assert cmp(s[|s| - 1 - j], s[|s| - 1 - i]) <= 0;
    }
  }

  /** Two tie-free sorted arrangements of the same elements start alike. */
  lemma SortedHeadsAgree<T(!new)>(cmp: (T, T) -> int, a: seq<T>, b: seq<T>)
    requires Consistent(cmp) && SortedBy(cmp, a) && SortedBy(cmp, b)
    requires multiset(a) == multiset(b) && TieFree(cmp, a) && a != [] && b != []
    ensures a[0] == b[0]
  {
    assert a[0] in multiset(b) && b[0] in multiset(a);
    var i :| 0 <= i < |b| && b[i] == a[0];
    var j :| 0 <= j < |a| && a[j] == b[0];
    assert cmp(b[0], a[0]) <= 0 && cmp(a[0], b[0]) <= 0;
    assert b[0] in a;
  }

  lemma MultisetTail<T>(s: seq<T>)
    requires s != []
    ensures multiset(s[1..]) == multiset(s) - multiset{s[0]}
  {
    assert s == [s[0]] + s[1..];
  }

  lemma SortedTailOnly<T>(cmp: (T, T) -> int, s: seq<T>)
    requires SortedBy(cmp, s) && s != []
    ensures SortedBy(cmp, s[1..])
  {
  }

  lemma SortedTail<T>(cmp: (T, T) -> int, s: seq<T>)
    requires SortedBy(cmp, s) && TieFree(cmp, s) && s != []
    ensures SortedBy(cmp, s[1..]) && TieFree(cmp, s[1..])
  {
    forall x, y | x in s[1..] && y in s[1..] && cmp(x, y) == 0
      ensures x == y
    {
      assert x in s && y in s;
    }
  }

  lemma SameHeadSameTail<T>(a: seq<T>, b: seq<T>)
    requires a != [] && b != [] && a[0] == b[0] && a[1..] == b[1..]
    ensures a == b
  {
    assert a == [a[0]] + a[1..] && b == [b[0]] + b[1..];
  }

  lemma EmptyAlike<T>(a: seq<T>, b: seq<T>)
    requires multiset(a) == multiset(b)
    ensures a == [] <==> b == []
  {
    if a != [] {
      assert a[0] in multiset(b);
    }
    if b != [] {
      assert b[0] in multiset(a);
    }
  }

  /** Without ties there is only one sorted arrangement of a multiset of elements. */
  lemma {:induction false} SortedUnique<T(!new)>(cmp: (T, T) -> int, a: seq<T>, b: seq<T>)
    requires Consistent(cmp) && SortedBy(cmp, a) && SortedBy(cmp, b)
    requires multiset(a) == multiset(b) && TieFree(cmp, a)
    ensures a == b
  {
    EmptyAlike(a, b);
    if a != [] {
      SortedHeadsAgree(cmp, a, b);
      MultisetTail(a);
      MultisetTail(b);
      SortedTail(cmp, a);
      SortedTailOnly(cmp, b);
      SortedUnique(cmp, a[1..], b[1..]);
      SameHeadSameTail(a, b);
    }
  }

  /** Without ties, sorting by the swapped comparator is sorting and then reversing. */
  lemma SortByReversed<T(!new)>(cmp: (T, T) -> int, flipped: (T, T) -> int, s: seq<T>)
    requires Consistent(cmp)
    requires forall a, b :: flipped(a, b) == cmp(b, a)
    requires TieFree(cmp, s)
    ensures SortBy(flipped, s) == Reverse(SortBy(cmp, s))
  {
    var up, down := SortBy(cmp, s), SortBy(flipped, s);
    FlipConsistent(cmp, flipped);
    SortBySorted(cmp, s);
    SortBySorted(flipped, s);
    ReverseSorted(cmp, flipped, up);
    assert TieFree(flipped, down) by {
      forall x, y | x in down && y in down && flipped(x, y) == 0
        ensures x == y
      {
        assert x in multiset(down) && y in multiset(down);
        assert x in s && y in s;
        assert cmp(y, x) == 0;
      }
    }
    SortedUnique(flipped, down, Reverse(up));
  }
}
