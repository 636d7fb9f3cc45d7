/** Python's `sorted(xs, key=..., reverse=...)` on the key values the views sort by:
    a stable sort, where `reverse=True` reverses every comparison but keeps equal keys in
    their original order. */
module Sorting {
  import opened Records

  /** Python's `<` on strings: code point by code point, a proper prefix first. */
  predicate TextLess(a: string, b: string)
    decreases |a|
  {
    |b| > 0 && (|a| == 0 || a[0] < b[0] || (a[0] == b[0] && TextLess(a[1..], b[1..])))
  }

  /** Two keys Python can compare with `<`: two strings, two numbers or two timestamps. */
  predicate SameKind(a: Value, b: Value)
  {
    (a.Text? && b.Text?) || (a.Num? && b.Num?) || (a.Stamp? && b.Stamp?)
  }

  /** Python's `<` on keys of one kind; false across kinds, where Python raises instead. */
  predicate Less(a: Value, b: Value)
  {
    match (a, b)
    case (Text(x), Text(y)) => TextLess(x, y)
    case (Num(x), Num(y)) => x < y
    case (Stamp(x), Stamp(y)) => x < y
    case _ => false
  }

  /** `a` must come strictly before `b`: under `reverse=True` the comparison is flipped. */
  predicate Before(a: Value, b: Value, desc: bool)
  {
    if desc then Less(b, a) else Less(a, b)
  }

  lemma {:induction false} TextLessIrreflexive(a: string)
    ensures !TextLess(a, a)
    decreases |a|
  {
    if |a| > 0 {
      TextLessIrreflexive(a[1..]);
    }
  }

  lemma {:induction false} TextLessTransitive(a: string, b: string, c: string)
    requires TextLess(a, b) && TextLess(b, c)
    ensures TextLess(a, c)
    decreases |a|
  {
    if |a| > 0 && a[0] == b[0] && b[0] == c[0] {
      TextLessTransitive(a[1..], b[1..], c[1..]);
    }
  }

  /** Any two distinct strings are ordered one way or the other. */
  lemma {:induction false} TextLessTotal(a: string, b: string)
    ensures a == b || TextLess(a, b) || TextLess(b, a)
    decreases |a|
  {
    if |a| > 0 && |b| > 0 && a[0] == b[0] {
      TextLessTotal(a[1..], b[1..]);
      if a[1..] == b[1..] {
        assert a == [a[0]] + a[1..] && b == [b[0]] + b[1..];
      }
    }
  }

  /** `Less` is a strict order, total on keys of one kind. */
  lemma LessIsStrictOrder(a: Value, b: Value, c: Value)
    ensures !Less(a, a)
    ensures Less(a, b) && Less(b, c) ==> Less(a, c)
    ensures SameKind(a, b) ==> a == b || Less(a, b) || Less(b, a)
  {
    if a.Text? {
      TextLessIrreflexive(a.s);
      if b.Text? {
        TextLessTotal(a.s, b.s);
        if c.Text? && Less(a, b) && Less(b, c) {
          TextLessTransitive(a.s, b.s, c.s);
        }
      }
    }
  }

  /** The key `key(x)` placed into `ys`: before the first element whose key it precedes,
      so after every element with an equal key. */
  function InsertBy<T>(x: T, ys: seq<T>, key: T -> Value, desc: bool): (r: seq<T>)
    ensures multiset(r) == multiset(ys) + multiset{x}
    decreases |ys|
  {
    if ys == [] then [x]
    else if Before(key(x), key(ys[0]), desc) then [x] + ys
    else
      assert ys == [ys[0]] + ys[1..];
      [ys[0]] + InsertBy(x, ys[1..], key, desc)
  }

  /** The stable sort: each element in turn inserted after the ones already sorted. */
  function SortBy<T>(xs: seq<T>, key: T -> Value, desc: bool): (r: seq<T>)
    ensures multiset(r) == multiset(xs)
    decreases |xs|
  {
    if xs == [] then []
    else
      assert xs == xs[..|xs| - 1] + [xs[|xs| - 1]];
      InsertBy(xs[|xs| - 1], SortBy(xs[..|xs| - 1], key, desc), key, desc)
  }

  /** No element has a key that must come strictly before the key of an earlier one. */
  predicate Sorted<T>(r: seq<T>, key: T -> Value, desc: bool)
  {
    forall i, j :: 0 <= i < j < |r| ==> !Before(key(r[j]), key(r[i]), desc)
  }

  /** `Before` is a strict order in either direction. */
  lemma BeforeIsStrictOrder(a: Value, b: Value, c: Value, desc: bool)
    ensures !Before(a, a, desc)
    ensures Before(a, b, desc) && Before(b, c, desc) ==> Before(a, c, desc)
  {
    LessIsStrictOrder(a, b, c);
    LessIsStrictOrder(c, b, a);
  }

  lemma {:induction false} InsertBySorted<T>(x: T, ys: seq<T>, key: T -> Value, desc: bool)
    requires Sorted(ys, key, desc)
    ensures Sorted(InsertBy(x, ys, key, desc), key, desc)
    decreases |ys|
  {
    if ys != [] {
      var r := InsertBy(x, ys, key, desc);
      if Before(key(x), key(ys[0]), desc) {
        forall j | 0 < j < |r| ensures !Before(key(r[j]), key(x), desc) {
          BeforeIsStrictOrder(key(r[j]), key(x), key(ys[0]), desc);
          BeforeIsStrictOrder(key(ys[0]), key(ys[0]), key(ys[0]), desc);
          assert r[j] == ys[j - 1];
        }
      } else {
        var rest := InsertBy(x, ys[1..], key, desc);
        InsertBySorted(x, ys[1..], key, desc);
        assert multiset(rest) == multiset(ys[1..]) + multiset{x};
        forall j | 0 <= j < |rest| ensures !Before(key(rest[j]), key(ys[0]), desc) {
          assert rest[j] in multiset(rest);
          if rest[j] != x {
            assert rest[j] in multiset(ys[1..]);
            var p :| 0 <= p < |ys[1..]| && ys[1..][p] == rest[j];
            assert ys[p + 1] == rest[j];
          }
        }
        assert r == [ys[0]] + rest;
      }
    }
  }

  /** The sort's output is ordered by key, ascending, or descending under `reverse`. */
  lemma {:induction false} SortBySorted<T>(xs: seq<T>, key: T -> Value, desc: bool)
    ensures Sorted(SortBy(xs, key, desc), key, desc)
    decreases |xs|
  {
    if xs != [] {
      SortBySorted(xs[..|xs| - 1], key, desc);
      InsertBySorted(xs[|xs| - 1], SortBy(xs[..|xs| - 1], key, desc), key, desc);
    }
  }

  /** The elements of `xs` whose key is `v`, in their order. */
  function WithKey<T>(xs: seq<T>, key: T -> Value, v: Value): (r: seq<T>)
    ensures |r| <= |xs|
    decreases |xs|
  {
    if xs == [] then []
    else (if key(xs[0]) == v then [xs[0]] else []) + WithKey(xs[1..], key, v)
  }

  lemma {:induction false} WithKeyAppend<T>(xs: seq<T>, ys: seq<T>, key: T -> Value, v: Value)
    ensures WithKey(xs + ys, key, v) == WithKey(xs, key, v) + WithKey(ys, key, v)
    decreases |xs|
  {
    if xs != [] {
      var h := if key(xs[0]) == v then [xs[0]] else [];
      calc {
        WithKey(xs + ys, key, v);
        { assert xs + ys == [xs[0]] + (xs[1..] + ys); WithKeyCons(xs[0], xs[1..] + ys, key, v); }
        h + WithKey(xs[1..] + ys, key, v);
        { WithKeyAppend(xs[1..], ys, key, v); }
        h + (WithKey(xs[1..], key, v) + WithKey(ys, key, v));
        (h + WithKey(xs[1..], key, v)) + WithKey(ys, key, v);
        { assert xs == [xs[0]] + xs[1..]; WithKeyCons(xs[0], xs[1..], key, v); }
        WithKey(xs, key, v) + WithKey(ys, key, v);
      }
    } else {
      assert xs + ys == ys;
    }
  }

  lemma {:induction false} WithKeyNone<T>(xs: seq<T>, key: T -> Value, v: Value)
    requires forall i :: 0 <= i < |xs| ==> key(xs[i]) != v
    ensures WithKey(xs, key, v) == []
    decreases |xs|
  {
    if xs != [] {
      WithKeyNone(xs[1..], key, v);
    }
  }

  /** One step of `WithKey`: the first element, kept or not, then the rest. */
  lemma WithKeyCons<T>(x: T, xs: seq<T>, key: T -> Value, v: Value)
    ensures WithKey([x] + xs, key, v) == (if key(x) == v then [x] else []) + WithKey(xs, key, v)
  {
    assert ([x] + xs)[0] == x && ([x] + xs)[1..] == xs;
  }

  /** In a sorted list, no element shares the key of one that precedes its first element. */
  lemma SortedNoneWithKey<T>(ys: seq<T>, key: T -> Value, desc: bool, v: Value)
    requires Sorted(ys, key, desc) && |ys| > 0 && Before(v, key(ys[0]), desc)
    ensures WithKey(ys, key, v) == []
  {
    forall i | 0 <= i < |ys| ensures key(ys[i]) != v {
      BeforeIsStrictOrder(v, v, v, desc);
      if i > 0 {
        assert !Before(key(ys[i]), key(ys[0]), desc);
      }
    }
    WithKeyNone(ys, key, v);
  }

  /** A suffix of a sorted list is sorted. */
  lemma SortedTail<T>(ys: seq<T>, key: T -> Value, desc: bool)
    requires Sorted(ys, key, desc) && |ys| > 0
    ensures Sorted(ys[1..], key, desc)
  {
    forall i, j | 0 <= i < j < |ys[1..]| ensures !Before(key(ys[1..][j]), key(ys[1..][i]), desc) {
      assert ys[1..][j] == ys[j + 1] && ys[1..][i] == ys[i + 1];
    }
  }

  /** Inserting `x` into a sorted list puts it after every element with the same key. */
  lemma {:induction false} InsertByStable<T>(x: T, ys: seq<T>, key: T -> Value, desc: bool, v: Value)
    requires Sorted(ys, key, desc)
    ensures WithKey(InsertBy(x, ys, key, desc), key, v)
            == WithKey(ys, key, v) + (if key(x) == v then [x] else [])
    decreases |ys|
  {
    var xs := if key(x) == v then [x] else [];
    if ys == [] {
      WithKeyCons(x, [], key, v);
      assert InsertBy(x, ys, key, desc) == [x] + [];
    } else if Before(key(x), key(ys[0]), desc) {
      assert InsertBy(x, ys, key, desc) == [x] + ys;
      WithKeyCons(x, ys, key, v);
      if key(x) == v {
        SortedNoneWithKey(ys, key, desc, v);
      }
    } else {
      var y, rest := ys[0], InsertBy(x, ys[1..], key, desc);
      var h := if key(y) == v then [y] else [];
      SortedTail(ys, key, desc);
      calc {
        WithKey(InsertBy(x, ys, key, desc), key, v);
        WithKey([y] + rest, key, v);
        { WithKeyCons(y, rest, key, v); }
        h + WithKey(rest, key, v);
        { InsertByStable(x, ys[1..], key, desc, v); }
        h + (WithKey(ys[1..], key, v) + xs);
        (h + WithKey(ys[1..], key, v)) + xs;
        { assert ys == [y] + ys[1..]; WithKeyCons(y, ys[1..], key, v); }
        WithKey(ys, key, v) + xs;
      }
    }
  }

  /** Stability: the elements with any one key keep their original relative order. */
  lemma {:induction false} SortByStable<T>(xs: seq<T>, key: T -> Value, desc: bool, v: Value)
    ensures WithKey(SortBy(xs, key, desc), key, v) == WithKey(xs, key, v)
    decreases |xs|
  {
    if xs != [] {
      var init, last := xs[..|xs| - 1], xs[|xs| - 1];
      var sorted := SortBy(init, key, desc);
      var tail := if key(last) == v then [last] else [];
      calc {
        WithKey(SortBy(xs, key, desc), key, v);
        WithKey(InsertBy(last, sorted, key, desc), key, v);
        { SortBySorted(init, key, desc); InsertByStable(last, sorted, key, desc, v); }
        WithKey(sorted, key, v) + tail;
        { SortByStable(init, key, desc, v); }
        WithKey(init, key, v) + tail;
        { assert [last] + [] == [last]; WithKeyCons(last, [], key, v); }
        WithKey(init, key, v) + WithKey([last], key, v);
        { WithKeyAppend(init, [last], key, v); }
        WithKey(init + [last], key, v);
        { assert xs == init + [last]; }
        WithKey(xs, key, v);
      }
    }
  }

  /** `WithKey` keeps exactly the elements with key `v`. */
  lemma {:induction false} WithKeyMembers<T>(xs: seq<T>, key: T -> Value, v: Value)
    ensures forall x :: x in WithKey(xs, key, v) <==> x in xs && key(x) == v
    decreases |xs|
  {
    if xs != [] {
      WithKeyMembers(xs[1..], key, v);
      assert xs == [xs[0]] + xs[1..];
      assert forall x :: x in xs <==> x == xs[0] || x in xs[1..];
    }
  }
}
