/** Strict total orders, and the strictly sorted sequences that stand for Rust's `BTreeSet` contents and for
    vectors that are kept sorted and free of duplicates: insertion, sorting without duplicates, and union.
    A strictly sorted sequence is determined by its elements, so equality of the sorted forms is equality
    of the sets. */
module Orders {

  ghost predicate Total<T(!new)>(less: (T, T) -> bool) {
    && (forall x :: !less(x, x))
    && (forall x, y :: x == y || less(x, y) || less(y, x))
    && (forall x, y, z :: less(x, y) && less(y, z) ==> less(x, z))
  }

  /** Lexicographic order of Unicode scalars, which is also the byte order of UTF-8 texts. */
  predicate StringLess(a: string, b: string) {
    b != [] && (a == [] || a[0] < b[0] || (a[0] == b[0] && StringLess(a[1..], b[1..])))
  }

  lemma {:induction false} StringConnex(a: string, b: string)
    ensures a == b || StringLess(a, b) || StringLess(b, a)
  {
    if a != [] && b != [] && a[0] == b[0] {
      StringConnex(a[1..], b[1..]);
      assert a == [a[0]] + a[1..] && b == [b[0]] + b[1..];
    }
  }

  lemma {:induction false} StringTransitive(a: string, b: string, c: string)
    requires StringLess(a, b) && StringLess(b, c)
    ensures StringLess(a, c)
  {
    if a != [] && a[0] == b[0] == c[0] {
      StringTransitive(a[1..], b[1..], c[1..]);
    }
  }

  lemma {:induction false} StringIrreflexive(a: string)
    ensures !StringLess(a, a)
  {
    if a != [] { StringIrreflexive(a[1..]); }
  }

  lemma StringOrder()
    ensures Total(StringLess)
    ensures forall a, b, c :: StringLess(a, b) && StringLess(b, c) ==> StringLess(a, c)
    ensures forall a :: !StringLess(a, a)
  {
    forall a: string { StringIrreflexive(a); }
    forall a, b { StringConnex(a, b); }
    forall a, b, c | StringLess(a, b) && StringLess(b, c) { StringTransitive(a, b, c); }
  }

  predicate Ascending<T>(less: (T, T) -> bool, s: seq<T>) {
    forall i, j :: 0 <= i < j < |s| ==> less(s[i], s[j])
  }

  /** Insertion into an ordered set. */
  function Insert<T(==)>(less: (T, T) -> bool, x: T, s: seq<T>): seq<T> {
    if s == [] then [x]
    else if s[0] == x then s
    else if less(x, s[0]) then [x] + s
    else [s[0]] + Insert(less, x, s[1..])
  }

  /** `collect::<BTreeSet<_>>()`, and equally `sort` followed by `dedup`. */
  function SortedUnique<T(==)>(less: (T, T) -> bool, s: seq<T>): seq<T> {
    if s == [] then [] else Insert(less, s[0], SortedUnique(less, s[1..]))
  }

  lemma {:induction false} InsertKeepsOrder<T(!new)>(less: (T, T) -> bool, x: T, s: seq<T>)
    requires Total(less) && Ascending(less, s)
    ensures Ascending(less, Insert(less, x, s))
    ensures forall y :: y in Insert(less, x, s) <==> y == x || y in s
  {
    if s != [] && s[0] != x && !less(x, s[0]) {
      var tail := Insert(less, x, s[1..]);
      InsertKeepsOrder(less, x, s[1..]);
      forall i, j | 0 <= i < j < |tail| + 1
        ensures less(([s[0]] + tail)[i], ([s[0]] + tail)[j])
      {
        assert tail[j - 1] in tail;
      }
      assert forall y :: y in s <==> y == s[0] || y in s[1..];
    }
  }

  lemma {:induction false} SortedUniqueMeaning<T(!new)>(less: (T, T) -> bool, s: seq<T>)
    requires Total(less)
    ensures Ascending(less, SortedUnique(less, s))
    ensures forall y :: y in SortedUnique(less, s) <==> y in s
  {
    if s != [] {
      SortedUniqueMeaning(less, s[1..]);
      InsertKeepsOrder(less, s[0], SortedUnique(less, s[1..]));
      assert forall y :: y in s <==> y == s[0] || y in s[1..];
    }
  }

  /** A strictly sorted sequence is determined by its elements. */
  lemma {:induction false} AscendingUnique<T(!new)>(less: (T, T) -> bool, s: seq<T>, t: seq<T>)
    requires Total(less) && Ascending(less, s) && Ascending(less, t)
    requires forall y :: y in s <==> y in t
    ensures s == t
    decreases |s|
  {
    if s == [] {
      assert forall i :: 0 <= i < |t| ==> t[i] in t;
    } else {
      assert s[0] in s;
      assert t != [];
      assert t[0] in t;
      assert s[0] == t[0];
      forall y ensures y in s[1..] <==> y in t[1..] {
        assert y in s <==> y == s[0] || y in s[1..];
        assert y in t <==> y == t[0] || y in t[1..];
      }
      AscendingUnique(less, s[1..], t[1..]);
      assert s == [s[0]] + s[1..] && t == [t[0]] + t[1..];
    }
  }

  /** An already sorted sequence is its own sorted form, and only such a sequence is. */
  lemma SortedFixpoint<T(!new)>(less: (T, T) -> bool, s: seq<T>)
    requires Total(less)
    ensures SortedUnique(less, s) == s <==> Ascending(less, s)
  {
    SortedUniqueMeaning(less, s);
    if Ascending(less, s) { AscendingUnique(less, SortedUnique(less, s), s); }
  }

  /** The sorted union of two sequences, whatever their order and multiplicities. */
  function Union<T(==)>(less: (T, T) -> bool, left: seq<T>, right: seq<T>): seq<T> {
    SortedUnique(less, left + right)
  }

  lemma UnionMeaning<T(!new)>(less: (T, T) -> bool, left: seq<T>, right: seq<T>)
    requires Total(less)
    ensures Ascending(less, Union(less, left, right))
    ensures forall y :: y in Union(less, left, right) <==> y in left || y in right
  {
    SortedUniqueMeaning(less, left + right);
  }

  /** The elements of a set in ascending order. */
  method SortSet(names: set<string>) returns (sorted: seq<string>)
    ensures Ascending(StringLess, sorted) && forall n :: n in sorted <==> n in names
  {
    StringOrder();
    sorted := [];
    var rest := names;
    while rest != {}
      invariant rest <= names && Ascending(StringLess, sorted)
      invariant forall n :: n in sorted <==> n in names - rest
      decreases rest
    {
      var name :| name in rest;
      InsertKeepsOrder(StringLess, name, sorted);
      sorted := Insert(StringLess, name, sorted);
      rest := rest - {name};
    }
  }
}
