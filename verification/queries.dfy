/**
 * Listing and searching the catalog.  Both walk the catalog's values in
 * the dictionary's enumeration order, which the model takes as a
 * parameter `orden`: every ISBN of the catalog, each once.
 */
module Queries {
  import opened Text
  import opened Model
  import opened Ordering

  /** `orden` lists every key of `libros` exactly once. */
  predicate IsEnumeration(libros: map<string, Libro>, orden: seq<string>) {
    && (forall i, j :: 0 <= i < j < |orden| ==> orden[i] != orden[j])
    && (forall k :: k in orden ==> k in libros)
    && (forall k :: k in libros ==> k in orden)
  }

  /** The records of `libros` in the order `orden` names them. */
  function Values(libros: map<string, Libro>, orden: seq<string>): seq<Libro>
    requires forall k :: k in orden ==> k in libros
  {
    seq(|orden|, i requires 0 <= i < |orden| => libros[orden[i]])
  }

  /** A book's field `c`, lower-cased, contains the lower-cased term. */
  predicate Matches(l: Libro, c: Campo, termino: string) {
    Contains(Lower(Valor(l, c)), Lower(termino))
  }

  /** The books of `s`, in order, that match the term on field `c`. */
  function Filter(s: seq<Libro>, c: Campo, termino: string): (r: seq<Libro>)
    ensures forall x :: x in r <==> x in s && Matches(x, c, termino)
    ensures |r| <= |s|
  {
    if |s| == 0 then []
    else
      assert s == [s[0]] + s[1..];
      (if Matches(s[0], c, termino) then [s[0]] else []) + Filter(s[1..], c, termino)
  }

  /** Picking the books with one field value distributes over concatenation. */
  lemma {:induction false} WithValueAppend(a: seq<Libro>, b: seq<Libro>, c: Campo, k: string)
    ensures WithValue(a + b, c, k) == WithValue(a, c, k) + WithValue(b, c, k)
  {
    if |a| == 0 {
      assert a + b == b;
    } else {
      assert (a + b)[0] == a[0] && (a + b)[1..] == a[1..] + b;
      WithValueAppend(a[1..], b, c, k);
      var own := if Valor(a[0], c) == k then [a[0]] else [];
      assert WithValue(a + b, c, k) == own + WithValue(a[1..] + b, c, k);
      assert WithValue(a, c, k) == own + WithValue(a[1..], c, k);
    }
  }

  /**
   * Filtering keeps input order: among the books whose field is `k`, it
   * keeps all of them, in order, when `k` matches the term, and none otherwise.
   */
  lemma {:induction false} FilterWithValue(s: seq<Libro>, c: Campo, termino: string, k: string)
    ensures WithValue(Filter(s, c, termino), c, k)
         == if Contains(Lower(k), Lower(termino)) then WithValue(s, c, k) else []
  {
    if |s| > 0 {
      var head := if Matches(s[0], c, termino) then [s[0]] else [];
      assert Filter(s, c, termino) == head + Filter(s[1..], c, termino);
      WithValueAppend(head, Filter(s[1..], c, termino), c, k);
      FilterWithValue(s[1..], c, termino, k);
      var own := if Valor(s[0], c) == k then [s[0]] else [];
      assert WithValue(s, c, k) == own + WithValue(s[1..], c, k);
      assert WithValue(head, c, k) == if Matches(s[0], c, termino) then own else [] by {
        if head != [] {
          assert head[1..] == [];
        }
      }
      if Valor(s[0], c) == k {
        assert Matches(s[0], c, termino) == Contains(Lower(k), Lower(termino));
      }
    }
  }

  /** A distinct sequence has as many elements as the set of its elements. */
  lemma {:induction false} DistinctCardinality(orden: seq<string>)
    requires forall i, j :: 0 <= i < j < |orden| ==> orden[i] != orden[j]
    ensures |set k | k in orden| == |orden|
  {
    if |orden| > 0 {
      var rest := orden[1..];
      DistinctCardinality(rest);
      assert (set k | k in orden) == {orden[0]} + (set k | k in rest);
      assert orden[0] !in (set k | k in rest);
    }
  }

  lemma ValuesOfEnumeration(libros: map<string, Libro>, orden: seq<string>)
    requires IsEnumeration(libros, orden)
    ensures |Values(libros, orden)| == |libros|
    ensures forall x :: x in Values(libros, orden) <==> x in libros.Values
  {
    DistinctCardinality(orden);
    assert (set k | k in orden) == libros.Keys;
    var vs := Values(libros, orden);
    forall x | x in libros.Values
      ensures x in vs
    {
      var k :| k in libros && libros[k] == x;
      var i :| 0 <= i < |orden| && orden[i] == k;
      assert vs[i] == x;
    }
  }

  /** The catalog ordered by title (menu option 2). */
  function MostrarLibros(libros: map<string, Libro>, orden: seq<string>): (r: seq<Libro>)
    requires IsEnumeration(libros, orden)
    ensures |r| == |libros|
    ensures forall x :: x in r <==> x in libros.Values
    ensures Sorted(r, Titulo)
    ensures StableFrom(Values(libros, orden), r, Titulo)
  {
    ValuesOfEnumeration(libros, orden);
    var r := SortBy(Values(libros, orden), Titulo);
    assert forall x :: x in r <==> x in multiset(r);
    r
  }

  /**
   * The books whose field `c` contains the term, ignoring case, ordered by
   * that field (menu options 4, 5 and 6 for title, author and genre).
   */
  function Buscar(libros: map<string, Libro>, orden: seq<string>, c: Campo, termino: string): (r: seq<Libro>)
    requires IsEnumeration(libros, orden)
    ensures forall x :: x in r <==> x in libros.Values && Matches(x, c, termino)
    ensures multiset(r) == multiset(Filter(Values(libros, orden), c, termino))
    ensures Sorted(r, c)
    ensures StableFrom(Filter(Values(libros, orden), c, termino), r, c)
  {
    ValuesOfEnumeration(libros, orden);
    var r := SortBy(Filter(Values(libros, orden), c, termino), c);
    assert forall x :: x in r <==> x in multiset(r);
    r
  }

  /** Every book matches the empty term. */
  lemma {:induction false} FilterEmptyTerm(s: seq<Libro>, c: Campo)
    ensures Filter(s, c, "") == s
  {
    if |s| > 0 {
      ContainsEmpty(Lower(Valor(s[0], c)));
      assert Lower("") == "";
      assert Matches(s[0], c, "");
      FilterEmptyTerm(s[1..], c);
      assert Filter(s, c, "") == [s[0]] + Filter(s[1..], c, "");
      assert s == [s[0]] + s[1..];
    }
  }

  /** An empty term finds every book; by title it is the full listing. */
  lemma BuscarEmptyTerm(libros: map<string, Libro>, orden: seq<string>, c: Campo)
    requires IsEnumeration(libros, orden)
    ensures Buscar(libros, orden, c, "") == SortBy(Values(libros, orden), c)
    ensures Buscar(libros, orden, Titulo, "") == MostrarLibros(libros, orden)
  {
    FilterEmptyTerm(Values(libros, orden), c);
    FilterEmptyTerm(Values(libros, orden), Titulo);
  }

  /** The result is determined by the matching books alone, whatever order they came in. */
  lemma BuscarCharacterized(libros: map<string, Libro>, orden: seq<string>, c: Campo, termino: string, ys: seq<Libro>)
    requires IsEnumeration(libros, orden)
    requires Sorted(ys, c) && StableFrom(Filter(Values(libros, orden), c, termino), ys, c)
    ensures ys == Buscar(libros, orden, c, termino)
  {
    SortByUnique(Filter(Values(libros, orden), c, termino), ys, c);
  }

  /** Searching the title for "sun" finds "The Sunrise". */
  lemma SunriseExample()
    ensures Matches(Libro("978-1", "The Sunrise", "Hem", "Novel", 1), Titulo, "sun")
  {
    var t := Lower("The Sunrise");
    assert t[4..7] == "sun";
    assert OccursAt(t, Lower("sun"), 4);
  }
}
