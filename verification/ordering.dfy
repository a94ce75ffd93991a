/**
 * Ordering of book sequences by one text field, as `OrderBy` does it: a
 * stable sort, so books whose field is equal keep the order in which the
 * catalog enumerated them.
 */
module Ordering {
  import opened Text
  import opened Model

  /** Ascending by field `c`: every earlier book's field is at most every later one's. */
  ghost predicate Sorted(s: seq<Libro>, c: Campo) {
    forall i, j :: 0 <= i < j < |s| ==> LessOrEqual(Valor(s[i], c), Valor(s[j], c))
  }

  /** The books of `s`, in order, whose field `c` equals `k`. */
  function WithValue(s: seq<Libro>, c: Campo, k: string): seq<Libro> {
    if |s| == 0 then []
    else (if Valor(s[0], c) == k then [s[0]] else []) + WithValue(s[1..], c, k)
  }

  /** `ys` keeps the relative order `xs` gave to books with equal field `c`. */
  ghost predicate StableFrom(xs: seq<Libro>, ys: seq<Libro>, c: Campo) {
    forall k :: WithValue(ys, c, k) == WithValue(xs, c, k)
  }

  /** Puts `x` in front of the first book whose field is not below its own. */
  function Insert(x: Libro, s: seq<Libro>, c: Campo): seq<Libro> {
    if |s| == 0 then [x]
    else if LessOrEqual(Valor(x, c), Valor(s[0], c)) then [x] + s
    else [s[0]] + Insert(x, s[1..], c)
  }

  /** Inserting adds exactly one occurrence of `x`. */
  lemma {:induction false} InsertMultiset(x: Libro, s: seq<Libro>, c: Campo)
    ensures multiset(Insert(x, s, c)) == multiset(s) + multiset{x}
  {
    if |s| > 0 && !LessOrEqual(Valor(x, c), Valor(s[0], c)) {
      InsertMultiset(x, s[1..], c);
      assert s == [s[0]] + s[1..];
    }
  }

  /** Every book of `s` has field `c` at least `k`. */
  ghost predicate AllAtLeast(s: seq<Libro>, c: Campo, k: string) {
    forall i :: 0 <= i < |s| ==> LessOrEqual(k, Valor(s[i], c))
  }

  /** A book no greater than every book of a sorted sequence can go in front of it. */
  lemma ConsSorted(y: Libro, t: seq<Libro>, c: Campo)
    requires Sorted(t, c) && AllAtLeast(t, c, Valor(y, c))
    ensures Sorted([y] + t, c)
  {
    var r := [y] + t;
    forall i, j | 0 <= i < j < |r|
      ensures LessOrEqual(Valor(r[i], c), Valor(r[j], c))
    {
      assert r[j] == t[j - 1];
      if i > 0 {
        assert r[i] == t[i - 1];
      }
    }
  }

  /** A lower bound of a sorted sequence's head bounds the whole sequence. */
  lemma SortedAtLeast(s: seq<Libro>, c: Campo, k: string)
    requires Sorted(s, c) && |s| > 0 && LessOrEqual(k, Valor(s[0], c))
    ensures AllAtLeast(s, c, k)
  {
    forall i | 0 <= i < |s|
      ensures LessOrEqual(k, Valor(s[i], c))
    {
      if i > 0 {
        LessOrEqualTransitive(k, Valor(s[0], c), Valor(s[i], c));
      }
    }
  }

  /** Inserting a book above a lower bound keeps the bound. */
  lemma {:induction false} InsertAtLeast(x: Libro, s: seq<Libro>, c: Campo, k: string)
    requires AllAtLeast(s, c, k) && LessOrEqual(k, Valor(x, c))
    ensures AllAtLeast(Insert(x, s, c), c, k)
  {
    var r := Insert(x, s, c);
    if |s| == 0 {
      assert r == [x];
    } else if LessOrEqual(Valor(x, c), Valor(s[0], c)) {
      assert r == [x] + s;
      forall i | 0 <= i < |r|
        ensures LessOrEqual(k, Valor(r[i], c))
      {
        if i > 0 {
          assert r[i] == s[i - 1];
        }
      }
    } else {
      var t := Insert(x, s[1..], c);
      assert r == [s[0]] + t;
      assert AllAtLeast(s[1..], c, k) by {
        forall i | 0 <= i < |s| - 1
          ensures LessOrEqual(k, Valor(s[1..][i], c))
        {
          assert s[1..][i] == s[i + 1];
        }
      }
      InsertAtLeast(x, s[1..], c, k);
      forall i | 0 <= i < |r|
        ensures LessOrEqual(k, Valor(r[i], c))
      {
        if i > 0 {
          assert r[i] == t[i - 1];
        } else {
          assert r[0] == s[0];
        }
      }
    }
  }

  lemma {:induction false} InsertSorted(x: Libro, s: seq<Libro>, c: Campo)
    requires Sorted(s, c)
    ensures Sorted(Insert(x, s, c), c)
  {
    if |s| == 0 {
    } else if LessOrEqual(Valor(x, c), Valor(s[0], c)) {
      SortedAtLeast(s, c, Valor(x, c));
      ConsSorted(x, s, c);
    } else {
      LessOrEqualTotal(Valor(x, c), Valor(s[0], c));
      LessOrEqualReflexive(Valor(s[0], c));
      SortedAtLeast(s, c, Valor(s[0], c));
      assert AllAtLeast(s[1..], c, Valor(s[0], c)) by {
        forall i | 0 <= i < |s[1..]|
          ensures LessOrEqual(Valor(s[0], c), Valor(s[1..][i], c))
        {
          assert s[1..][i] == s[i + 1];
        }
      }
      assert Sorted(s[1..], c) by {
        forall i, j | 0 <= i < j < |s[1..]|
          ensures LessOrEqual(Valor(s[1..][i], c), Valor(s[1..][j], c))
        {
          assert s[1..][i] == s[i + 1] && s[1..][j] == s[j + 1];
        }
      }
      InsertSorted(x, s[1..], c);
      InsertAtLeast(x, s[1..], c, Valor(s[0], c));
      ConsSorted(s[0], Insert(x, s[1..], c), c);
    }
  }

  lemma WithValueCons(y: Libro, t: seq<Libro>, c: Campo, k: string)
    ensures WithValue([y] + t, c, k) == (if Valor(y, c) == k then [y] else []) + WithValue(t, c, k)
  {
    assert ([y] + t)[1..] == t;
  }

  /** Two groups of which at least one is empty can be swapped. */
  lemma SwapEmpty(a: seq<Libro>, b: seq<Libro>, w: seq<Libro>)
    requires a == [] || b == []
    ensures a + (b + w) == b + (a + w)
  {
    if a == [] {
      assert a + (b + w) == b + w;
    } else {
      assert b + (a + w) == a + w;
    }
  }

  /** Inserting `x` puts it ahead of every book whose field value is `k` when its own is. */
  lemma {:induction false} InsertWithValueAt(x: Libro, s: seq<Libro>, c: Campo, k: string)
    ensures WithValue(Insert(x, s, c), c, k)
            == (if Valor(x, c) == k then [x] else []) + WithValue(s, c, k)
  {
    if |s| == 0 || LessOrEqual(Valor(x, c), Valor(s[0], c)) {
      assert Insert(x, s, c) == [x] + s;
      WithValueCons(x, s, c, k);
    } else {
      InsertWithValueAt(x, s[1..], c, k);
      InsertWithValueStep(x, s, c, k);
    }
  }

  /** The step of the induction: `x` passes a first book whose field is below its own. */
  lemma InsertWithValueStep(x: Libro, s: seq<Libro>, c: Campo, k: string)
    requires |s| > 0 && !LessOrEqual(Valor(x, c), Valor(s[0], c))
    requires WithValue(Insert(x, s[1..], c), c, k)
             == (if Valor(x, c) == k then [x] else []) + WithValue(s[1..], c, k)
    ensures WithValue(Insert(x, s, c), c, k)
            == (if Valor(x, c) == k then [x] else []) + WithValue(s, c, k)
  {
    LessOrEqualReflexive(Valor(x, c));
    var hx := if Valor(x, c) == k then [x] else [];
    var h0 := if Valor(s[0], c) == k then [s[0]] else [];
    var t := Insert(x, s[1..], c);
    var w := WithValue(s[1..], c, k);
    assert Insert(x, s, c) == [s[0]] + t;
    WithValueCons(s[0], t, c, k);
    assert s == [s[0]] + s[1..];
    WithValueCons(s[0], s[1..], c, k);
    SwapEmpty(h0, hx, w);
  }

  /** Inserting `x` puts it ahead of every book with the same field value. */
  lemma InsertWithValue(x: Libro, s: seq<Libro>, c: Campo)
    ensures forall k :: WithValue(Insert(x, s, c), c, k)
                        == (if Valor(x, c) == k then [x] else []) + WithValue(s, c, k)
  {
    forall k
      ensures WithValue(Insert(x, s, c), c, k) == (if Valor(x, c) == k then [x] else []) + WithValue(s, c, k)
    {
      InsertWithValueAt(x, s, c, k);
    }
  }

  /** A stable sort ascending by field `c`. */
  function SortBy(xs: seq<Libro>, c: Campo): (r: seq<Libro>)
    ensures multiset(r) == multiset(xs)
    ensures Sorted(r, c)
    ensures StableFrom(xs, r, c)
  {
    if |xs| == 0 then []
    else
      var rest := SortBy(xs[1..], c);
      InsertMultiset(xs[0], rest, c);
      InsertSorted(xs[0], rest, c);
      InsertWithValue(xs[0], rest, c);
      assert xs == [xs[0]] + xs[1..];
      Insert(xs[0], rest, c)
  }

  /** Filtering by field value keeps the elements whose field has that value. */
  lemma {:induction false} WithValueMultiset(s: seq<Libro>, c: Campo, k: string)
    ensures forall x :: x in WithValue(s, c, k) <==> x in s && Valor(x, c) == k
  {
    if |s| > 0 {
      WithValueMultiset(s[1..], c, k);
      assert s == [s[0]] + s[1..];
    }
  }

  /** A non-empty sequence has a group for its first book's field value. */
  lemma WithValueHead(s: seq<Libro>, c: Campo)
    requires |s| > 0
    ensures WithValue(s, c, Valor(s[0], c)) != [] && WithValue(s, c, Valor(s[0], c))[0] == s[0]
  {
  }

  /** Two sorted sequences with the same groups start with the same book. */
  lemma SameHead(ys: seq<Libro>, zs: seq<Libro>, c: Campo)
    requires |ys| > 0 && |zs| > 0
    requires Sorted(ys, c) && Sorted(zs, c)
    requires StableFrom(ys, zs, c)
    ensures ys[0] == zs[0]
  {
    var a, b := Valor(ys[0], c), Valor(zs[0], c);
    WithValueHead(ys, c);
    WithValueHead(zs, c);
    WithValueMultiset(zs, c, a);
    WithValueMultiset(ys, c, b);
    assert WithValue(ys, c, a) == WithValue(zs, c, a);
    assert WithValue(ys, c, b) == WithValue(zs, c, b);
    var j :| 0 <= j < |zs| && zs[j] == ys[0];
    var i :| 0 <= i < |ys| && ys[i] == zs[0];
    assert LessOrEqual(b, a) by {
      if j == 0 {
        LessOrEqualReflexive(b);
      }
    }
    assert LessOrEqual(a, b) by {
      if i == 0 {
        LessOrEqualReflexive(a);
      }
    }
    LessOrEqualAntisymmetric(a, b);
  }

  /** Dropping a common first book keeps the groups equal. */
  lemma SameGroupsTail(ys: seq<Libro>, zs: seq<Libro>, c: Campo)
    requires |ys| > 0 && |zs| > 0 && ys[0] == zs[0]
    requires StableFrom(ys, zs, c)
    ensures StableFrom(ys[1..], zs[1..], c)
  {
    forall k
      ensures WithValue(zs[1..], c, k) == WithValue(ys[1..], c, k)
    {
      var h := if Valor(ys[0], c) == k then [ys[0]] else [];
      assert WithValue(ys, c, k) == h + WithValue(ys[1..], c, k);
      assert WithValue(zs, c, k) == h + WithValue(zs[1..], c, k);
      assert WithValue(zs, c, k) == WithValue(ys, c, k);
      assert (h + WithValue(zs[1..], c, k))[|h|..] == WithValue(zs[1..], c, k);
      assert (h + WithValue(ys[1..], c, k))[|h|..] == WithValue(ys[1..], c, k);
    }
  }

  /**
   * A sorted, stable rearrangement is unique: two sequences sorted by `c`
   * that keep the same order among books of equal field value are equal.
   */
  lemma {:induction false} SortedUnique(ys: seq<Libro>, zs: seq<Libro>, c: Campo)
    requires Sorted(ys, c) && Sorted(zs, c)
    requires StableFrom(ys, zs, c)
    ensures ys == zs
    decreases |ys|
  {
    if |ys| == 0 || |zs| == 0 {
      if |ys| > 0 {
        WithValueHead(ys, c);
      } else if |zs| > 0 {
        WithValueHead(zs, c);
      }
    } else {
      SameHead(ys, zs, c);
      SameGroupsTail(ys, zs, c);
      SortedUnique(ys[1..], zs[1..], c);
      assert ys == [ys[0]] + ys[1..] && zs == [zs[0]] + zs[1..];
    }
  }

  /** `SortBy` is the only sorted rearrangement of `xs` that is stable. */
  lemma SortByUnique(xs: seq<Libro>, ys: seq<Libro>, c: Campo)
    requires Sorted(ys, c) && StableFrom(xs, ys, c)
    ensures ys == SortBy(xs, c)
  {
    SortedUnique(ys, SortBy(xs, c), c);
  }
}
