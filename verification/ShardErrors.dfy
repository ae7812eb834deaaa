/** Which error the shard check reports (scripts/verify_mutation_campaign.py). */
module ShardErrors {
  import opened Outcomes
  import opened Orders
  import opened Sequences
  import opened Text
  import opened ShardPartition
  import opened ShardMeaning

  /** What the manifest loader has checked besides the texts: unique names, and no prefix twice in a shard. */
  ghost predicate WithoutRepetition(shards: seq<Shard>) {
    UniqueNames(shards) && forall i :: 0 <= i < |shards| ==> Distinct(shards[i].prefixes)
  }

  // ----- the error, told by the shards -----

  /** The shard of this name lists this prefix. */
  ghost predicate Has(shards: seq<Shard>, e: Entry) { Lists(shards, e.name, e.prefix) }

  /** By prefix, then by name. */
  predicate Precedes(a: Entry, b: Entry) {
    StringLess(a.prefix, b.prefix) || (a.prefix == b.prefix && StringLess(a.name, b.name))
  }

  ghost predicate Conflict(shards: seq<Shard>, a: Entry, b: Entry) {
    Has(shards, a) && Has(shards, b) && Precedes(a, b) && StartsWith(b.prefix, a.prefix)
  }

  /** The smallest listing that extends a smaller one, with the shard of that one. */
  ghost predicate FirstConflict(shards: seq<Shard>, a: Entry, b: Entry) {
    Conflict(shards, a, b) && forall x, y :: Conflict(shards, x, y) ==> !Precedes(y, b)
  }

  /** No listed prefix extends the path, and the path extends none. */
  ghost predicate Free(shards: seq<Shard>, path: string) {
    forall e :: Has(shards, e) ==> !StartsWith(e.prefix, path) && !StartsWith(path, e.prefix)
  }

  ghost predicate Reaches(shards: seq<Shard>, path: string) {
    exists e :: Has(shards, e) && StartsWith(e.prefix, path)
  }

  ghost predicate Covered(shards: seq<Shard>, id: string) {
    exists e :: Has(shards, e) && StartsWith(id, e.prefix)
  }

  /** The shortest free path that starts where the first uncovered id leaves the listed prefixes. */
  ghost predicate FirstFree(shards: seq<Shard>, path: string) {
    && 0 < |path| <= 64 && HexText(path) && Free(shards, path)
    && (forall k :: 0 < k < |path| ==> Reaches(shards, path[..k]))
    && (forall id :: FullId(id) && StringLess(id, path) ==> Covered(shards, id))
  }

  ghost predicate Told(shards: seq<Shard>, error: PlanError) {
    match error
    case Overlap(prefix, existing, name) =>
      exists a: Entry :: a.name == existing && FirstConflict(shards, a, Entry(prefix, name))
    case Gap(path) => FirstFree(shards, path) && forall a, b :: !Conflict(shards, a, b)
  }

  // ----- at most one error is told -----

  lemma PrecedesConnex(a: Entry, b: Entry)
    ensures a == b || Precedes(a, b) || Precedes(b, a)
    ensures !(Precedes(a, b) && Precedes(b, a)) && !Precedes(a, a)
  {
    EntryConnex(a, b, a);
    EntryConnex(b, a, b);
    assert Precedes(a, b) == EntryLess(a, b) && Precedes(b, a) == EntryLess(b, a);
  }

  lemma Comparable(s: string, p: string, q: string)
    requires StartsWith(s, p) && StartsWith(s, q)
    ensures StartsWith(p, q) || StartsWith(q, p)
  {
    if |q| <= |p| { assert p[..|q|] == s[..|q|] == q; } else { assert q[..|p|] == s[..|p|] == p; }
  }

  /** Of two listings that a third one extends, the larger extends the smaller. */
  lemma ConflictBetween(shards: seq<Shard>, a: Entry, c: Entry, b: Entry)
    requires Conflict(shards, a, b) && Conflict(shards, c, b) && Precedes(a, c)
    ensures Conflict(shards, a, c)
  {
    Comparable(b.prefix, a.prefix, c.prefix);
    if !StartsWith(c.prefix, a.prefix) {
      PrefixComesFirst(a.prefix, c.prefix);
      PrecedesConnex(a, c);
      assert false;
    }
  }

  lemma {:induction false} LessExtended(a: string, b: string, x: string)
    requires StringLess(a, b) && !StartsWith(b, a)
    ensures StringLess(a + x, b)
  {
    if a[0] == b[0] {
      assert a == [a[0]] + a[1..] && b == [b[0]] + b[1..];
      LessExtended(a[1..], b[1..], x);
      assert (a + x)[1..] == a[1..] + x;
    }
  }

  lemma FreeReaches(shards: seq<Shard>, path: string, p: string)
    requires FirstFree(shards, path) && StartsWith(path, p) && p != path && p != []
    ensures Reaches(shards, p)
  {
    assert path[..|p|] == p;
  }

  lemma FreeNotBefore(shards: seq<Shard>, p: string, q: string)
    requires FirstFree(shards, p) && FirstFree(shards, q)
    ensures !StringLess(p, q)
  {
    if StringLess(p, q) {
      if StartsWith(q, p) {
        StringIrreflexive(p);
        FreeReaches(shards, q, p);
      } else {
        var id := Padded(p);
        LessExtended(p, q, seq(64 - |p|, _ => '0'));
        assert FullId(id) && Covered(shards, id);
        var e :| Has(shards, e) && StartsWith(id, e.prefix);
        Comparable(id, e.prefix, p);
      }
    }
  }

  lemma ToldOnce(shards: seq<Shard>, one: PlanError, two: PlanError)
    requires Told(shards, one) && Told(shards, two)
    ensures one == two
  {
    match (one, two)
    case (Overlap(p, e, n), Overlap(q, f, m)) =>
      var a: Entry :| a.name == e && FirstConflict(shards, a, Entry(p, n));
      var c: Entry :| c.name == f && FirstConflict(shards, c, Entry(q, m));
      PrecedesConnex(Entry(p, n), Entry(q, m));
      PrecedesConnex(a, c);
      if Precedes(a, c) { ConflictBetween(shards, a, c, Entry(p, n)); }
      if Precedes(c, a) { ConflictBetween(shards, c, a, Entry(p, n)); }
    case (Gap(p), Gap(q)) =>
      StringConnex(p, q);
      FreeNotBefore(shards, p, q);
      FreeNotBefore(shards, q, p);
    case _ =>
  }

  // ----- the sorted entries -----

  lemma DistinctConcat(a: seq<Entry>, b: seq<Entry>)
    requires Distinct(a) && Distinct(b) && forall e :: e in a ==> e !in b
    ensures Distinct(a + b)
  {
    forall i, j | 0 <= i < j < |a + b| ensures (a + b)[i] != (a + b)[j] {
      if i < |a| <= j { assert a[i] in a && b[j - |a|] in b; }
    }
  }

  lemma {:induction false} InsertDistinct(e: Entry, sorted: seq<Entry>)
    requires Distinct(sorted) && Sorted(sorted) && e !in sorted
    ensures Distinct(InsertEntry(e, sorted))
  {
    if sorted != [] && EntryLess(sorted[0], e) {
      InsertDistinct(e, sorted[1..]);
      InsertEntrySorted(e, sorted[1..]);
      DistinctConcat([sorted[0]], InsertEntry(e, sorted[1..]));
    } else {
      DistinctConcat([e], sorted);
    }
  }

  lemma {:induction false} SortDistinct(entries: seq<Entry>)
    requires Distinct(entries)
    ensures Distinct(SortEntries(entries))
  {
    if entries != [] {
      SortDistinct(entries[1..]);
      SortEntriesSorted(entries[1..]);
      InsertDistinct(entries[0], SortEntries(entries[1..]));
    }
  }

  lemma {:induction false} EntriesDistinct(shards: seq<Shard>)
    requires WithoutRepetition(shards)
    ensures Distinct(Entries(shards))
  {
    if shards != [] {
      var (s, rest) := (shards[0], shards[1..]);
      var own := ShardEntries(s.name, s.prefixes);
      ShardEntriesMeaning(s.name, s.prefixes);
      EntriesDistinct(rest);
      forall e | e in own ensures e !in Entries(rest) {
        EntriesMeaning(rest, e);
        forall i | 0 <= i < |rest| ensures rest[i].name != e.name { assert shards[0].name != shards[i + 1].name; }
      }
      DistinctConcat(own, Entries(rest));
    }
  }

  /** Sorted without repetition: the listings in their order. */
  ghost predicate Lays(shards: seq<Shard>, sorted: seq<Entry>) {
    && (forall e :: e in sorted <==> Has(shards, e))
    && forall i, j :: 0 <= i < |sorted| && 0 <= j < |sorted| ==> (i < j <==> Precedes(sorted[i], sorted[j]))
  }

  lemma SortedLays(shards: seq<Shard>)
    requires WithoutRepetition(shards)
    ensures Lays(shards, SortEntries(Entries(shards)))
  {
    var sorted := SortEntries(Entries(shards));
    EntriesDistinct(shards);
    SortDistinct(Entries(shards));
    SortEntriesSorted(Entries(shards));
    forall e ensures e in sorted <==> Has(shards, e) { EntriesMeaning(shards, e); }
    forall i, j | 0 <= i < |sorted| && 0 <= j < |sorted| ensures i < j <==> Precedes(sorted[i], sorted[j]) {
      PrecedesConnex(sorted[i], sorted[j]);
      assert Precedes(sorted[i], sorted[j]) == EntryLess(sorted[i], sorted[j]);
      assert Precedes(sorted[j], sorted[i]) == EntryLess(sorted[j], sorted[i]);
    }
  }

  lemma ConflictPlaces(shards: seq<Shard>, sorted: seq<Entry>, a: Entry, b: Entry) returns (i: nat, j: nat)
    requires Lays(shards, sorted) && Conflict(shards, a, b)
    ensures i < j < |sorted| && sorted[i] == a && sorted[j] == b
    ensures forall n :: j < n <= |sorted| ==> !NoneExtends(sorted[..n])
  {
    assert a in sorted && b in sorted;
    i :| 0 <= i < |sorted| && sorted[i] == a;
    j :| 0 <= j < |sorted| && sorted[j] == b;
    forall n | j < n <= |sorted| ensures !NoneExtends(sorted[..n]) {
      assert sorted[..n][i] == a && sorted[..n][j] == b;
    }
    assert sorted[..|sorted|] == sorted;
  }

  // ----- the reported error is told -----

  lemma OverlapTold(shards: seq<Shard>, sorted: seq<Entry>, i: nat, j: nat)
    requires Lays(shards, sorted) && i < j < |sorted|
    requires StartsWith(sorted[j].prefix, sorted[i].prefix) && NoneExtends(sorted[..j])
    ensures FirstConflict(shards, sorted[i], sorted[j])
  {
    assert sorted[i] in sorted && sorted[j] in sorted;
    forall x, y | Conflict(shards, x, y) ensures !Precedes(y, sorted[j]) {
      var k, l := ConflictPlaces(shards, sorted, x, y);
    }
  }

  lemma {:induction false} SomeOwned(t: Trie) returns (q: string)
    requires Productive(t) && (t.owner.Some? || t.children != map[])
    ensures Owned(t, q)
    decreases t
  {
    if t.owner.Some? { return []; }
    var c :| c in t.children;
    var below := SomeOwned(t.children[c]);
    q := [c] + below;
    assert q[1..] == below;
  }

  /** Every node on the way to a gap leads to an owner. */
  lemma {:induction false} WayToGap(t: Trie, prefix: string, rest: string, k: nat) returns (q: string)
    requires FirstGap(t, prefix) == Some(prefix + rest) && Productive(t) && 0 < k < |rest|
    ensures Owned(t, q) && StartsWith(q, rest[..k])
    decreases t
  {
    var m := GapAt(t, prefix, 0);
    var c := HexAlphabet[m];
    assert |FirstGap(t, prefix).value| > |prefix| + 1;
    if c !in t.children { assert false; }
    var child := t.children[c];
    GapExtends(child, prefix + [c]);
    assert (prefix + rest)[|prefix|] == c == rest[0];
    assert prefix + rest == (prefix + [c]) + rest[1..];
    var below;
    if k == 1 {
      below := SomeOwned(child);
    } else {
      below := WayToGap(child, prefix + [c], rest[1..], k - 1);
      assert rest[1..][..k - 1] == rest[1..k];
    }
    q := [c] + below;
    assert q[1..] == below;
    assert rest[..k] == [c] + rest[1..k];
  }

  lemma ExtendedBy(entries: seq<Entry>, e: Entry, id: string)
    requires e in entries && StartsWith(id, e.prefix)
    ensures Matching(entries, id) > 0
  {
    var i :| 0 <= i < |entries| && entries[i] == e;
    MatchingOne(entries, id, i);
  }

  lemma GapFree(shards: seq<Shard>, sorted: seq<Entry>, path: string)
    requires Lays(shards, sorted) && HexEntries(sorted) && 0 < |path| <= 64 && HexText(path)
    requires forall id :: FullId(id) && StartsWith(id, path) ==> Matching(sorted, id) == 0
    ensures Free(shards, path)
  {
    forall e | Has(shards, e) ensures !StartsWith(e.prefix, path) && !StartsWith(path, e.prefix) {
      assert e in sorted;
      if StartsWith(e.prefix, path) {
        assert FullId(Padded(e.prefix)) && StartsWith(Padded(e.prefix), path);
        ExtendedBy(sorted, e, Padded(e.prefix));
      }
      if StartsWith(path, e.prefix) {
        assert FullId(Padded(path)) && StartsWith(Padded(path), e.prefix);
        ExtendedBy(sorted, e, Padded(path));
      }
    }
  }

  lemma GapTold(shards: seq<Shard>, sorted: seq<Entry>, trie: Trie, path: string)
    requires Lays(shards, sorted) && HexEntries(sorted) && Explains(Gap(path), sorted)
    requires InsertAll(EmptyTrie, sorted) == Ok(trie) && FirstGap(trie, "") == Some(path)
    ensures Told(shards, Gap(path))
  {
    GapFree(shards, sorted, path);
    InsertAllShape(EmptyTrie, sorted, 64);
    InsertAllMeaning(EmptyTrie, sorted);
    forall k | 0 < k < |path| ensures Reaches(shards, path[..k]) {
      assert "" + path == path;
      var q := WayToGap(trie, "", path, k);
      EmptyOwnsNothing(q);
      var i :| 0 <= i < |sorted| && sorted[i].prefix == q;
      assert sorted[i] in sorted;
    }
    forall id | FullId(id) && StringLess(id, path) ensures Covered(shards, id) {
      var i := MatchingSome(sorted, id);
      assert sorted[i] in sorted;
    }
    forall a, b ensures !Conflict(shards, a, b) {
      if Conflict(shards, a, b) { var i, j := ConflictPlaces(shards, sorted, a, b); }
    }
  }

  lemma SortedHex(shards: seq<Shard>)
    requires WellFormed(shards)
    ensures HexEntries(SortEntries(Entries(shards)))
  {
    var sorted := SortEntries(Entries(shards));
    EntriesWellFormed(shards);
    SortEntriesSorted(Entries(shards));
    forall i | 0 <= i < |sorted| ensures 0 < |sorted[i].prefix| <= IdLength && HexText(sorted[i].prefix) {
      assert sorted[i] in Entries(shards);
    }
  }

  lemma ReportTold(shards: seq<Shard>)
    requires WellFormed(shards) && WithoutRepetition(shards) && Check(shards).Some?
    ensures Told(shards, Check(shards).value)
  {
    var sorted := SortEntries(Entries(shards));
    ErrorExplained(shards);
    SortedLays(shards);
    SortedHex(shards);
    match Check(shards).value
    case Overlap(prefix, existing, name) =>
      var i, j :| 0 <= i < j < |sorted| && sorted[j] == Entry(prefix, name) && sorted[i].name == existing
        && StartsWith(prefix, sorted[i].prefix) && NoneExtends(sorted[..j]);
      OverlapTold(shards, sorted, i, j);
    case Gap(path) =>
      GapTold(shards, sorted, InsertAll(EmptyTrie, sorted).value, path);
  }

  // ----- a told error is reported -----

  lemma ToldRefuses(shards: seq<Shard>, error: PlanError)
    requires WellFormed(shards) && WithoutRepetition(shards) && Told(shards, error)
    ensures Check(shards).Some?
  {
    var sorted := SortEntries(Entries(shards));
    match error
    case Overlap(prefix, existing, name) =>
      var a: Entry :| a.name == existing && FirstConflict(shards, a, Entry(prefix, name));
      SortedLays(shards);
      var i, j := ConflictPlaces(shards, sorted, a, Entry(prefix, name));
      InsertAllMeaning(EmptyTrie, sorted);
    case Gap(path) =>
      var id := Padded(path);
      if Check(shards).None? {
        CheckExact(shards);
        assert FullId(id) && Matching(Entries(shards), id) == 1;
        var i := MatchingSome(Entries(shards), id);
        var e := Entries(shards)[i];
        EntriesMeaning(shards, e);
        assert Has(shards, e);
        Comparable(id, e.prefix, path);
      }
  }

  /** The check reports exactly the error that the shards tell, an overlap before a gap. */
  lemma ErrorExactly(shards: seq<Shard>, error: PlanError)
    requires WellFormed(shards) && WithoutRepetition(shards)
    ensures Check(shards) == Some(error) <==> Told(shards, error)
  {
    hide Check, Told, WellFormed, WithoutRepetition;
    if Told(shards, error) { ToldRefuses(shards, error); }
    if Check(shards).Some? { ReportTold(shards); }
    if Told(shards, error) { ToldOnce(shards, error, Check(shards).value); }
  }
}
