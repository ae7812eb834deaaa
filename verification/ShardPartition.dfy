/** The check of mutation shards (scripts/verify_mutation_campaign.py). */
module ShardPartition {
  import opened Outcomes
  import opened Orders
  import opened Text

  datatype Shard = Shard(name: string, prefixes: seq<string>)

  datatype Entry = Entry(prefix: string, name: string)

  /** The nested dictionaries; `owner` is the entry under the key `$owner`. */
  datatype Trie = Node(owner: Option<Entry>, children: map<char, Trie>)

  const EmptyTrie := Node(None, map[])

  const HexAlphabet := "0123456789abcdef"

  const IdLength := 64

  predicate HexText(s: string) { forall c :: c in s ==> c in HexAlphabet }

  predicate FullId(id: string) { |id| == IdLength && HexText(id) }

  /** What the manifest loader has checked: lowercase hexadecimal prefixes of at most 64 digits. */
  predicate WellFormed(shards: seq<Shard>) {
    forall s, p :: s in shards && p in s.prefixes ==> 0 < |p| <= IdLength && HexText(p)
  }

  // ----- the check -----

  function ShardEntries(name: string, prefixes: seq<string>): seq<Entry> {
    if prefixes == [] then [] else [Entry(prefixes[0], name)] + ShardEntries(name, prefixes[1..])
  }

  function Entries(shards: seq<Shard>): seq<Entry> {
    if shards == [] then [] else ShardEntries(shards[0].name, shards[0].prefixes) + Entries(shards[1..])
  }

  /** Python's order of pairs. */
  predicate EntryLess(a: Entry, b: Entry) {
    StringLess(a.prefix, b.prefix) || (a.prefix == b.prefix && StringLess(a.name, b.name))
  }

  function InsertEntry(e: Entry, sorted: seq<Entry>): seq<Entry> {
    if sorted == [] || !EntryLess(sorted[0], e) then [e] + sorted
    else [sorted[0]] + InsertEntry(e, sorted[1..])
  }

  /** `sorted`: duplicates are kept. */
  function SortEntries(entries: seq<Entry>): seq<Entry> {
    if entries == [] then [] else InsertEntry(entries[0], SortEntries(entries[1..]))
  }

  /** Walk down along `rest`, create the missing nodes, and stop at the first owned node. */
  function InsertPath(t: Trie, rest: string, e: Entry): Result<Trie, Entry>
    decreases rest
  {
    if t.owner.Some? then Err(t.owner.value)
    else if rest == [] then Ok(t.(owner := Some(e)))
    else
      var child := if rest[0] in t.children then t.children[rest[0]] else EmptyTrie;
      match InsertPath(child, rest[1..], e)
      case Ok(grown) => Ok(t.(children := t.children[rest[0] := grown]))
      case Err(existing) => Err(existing)
  }

  function InsertAll(t: Trie, entries: seq<Entry>): Result<Trie, (Entry, Entry)>
    decreases |entries|
  {
    if entries == [] then Ok(t)
    else match InsertPath(t, entries[0].prefix, entries[0])
      case Ok(grown) => InsertAll(grown, entries[1..])
      case Err(existing) => Err((entries[0], existing))
  }

  function FirstGap(t: Trie, prefix: string): Option<string>
    decreases t, |HexAlphabet| + 1
  {
    if t.owner.Some? then None else GapFrom(t, prefix, 0)
  }

  function GapFrom(t: Trie, prefix: string, k: nat): Option<string>
    requires k <= |HexAlphabet|
    decreases t, |HexAlphabet| - k
  {
    if k == |HexAlphabet| then None
    else
      var c := HexAlphabet[k];
      if c !in t.children then Some(prefix + [c])
      else
        var gap := FirstGap(t.children[c], prefix + [c]);
        if gap.Some? then gap else GapFrom(t, prefix, k + 1)
  }

  datatype PlanError = Overlap(prefix: string, existing: string, name: string) | Gap(prefix: string)

  function Check(shards: seq<Shard>): Option<PlanError> {
    match InsertAll(EmptyTrie, SortEntries(Entries(shards)))
    case Err((e, existing)) => Some(Overlap(e.prefix, existing.name, e.name))
    case Ok(trie) =>
      match FirstGap(trie, "")
      case Some(gap) => Some(Gap(gap))
      case None => None
  }

  method ValidateShardPartition(shards: seq<Shard>) returns (error: Option<PlanError>)
    ensures error == Check(shards)
  {
    var trie := EmptyTrie;
    var entries := SortEntries(Entries(shards));
    for i := 0 to |entries|
      invariant InsertAll(EmptyTrie, entries) == InsertAll(trie, entries[i..])
    {
      assert entries[i..][1..] == entries[i + 1..];
      match InsertPath(trie, entries[i].prefix, entries[i])
      case Ok(grown) => trie := grown;
      case Err(existing) => return Some(Overlap(entries[i].prefix, existing.name, entries[i].name));
    }
    match FirstGap(trie, "")
    case Some(gap) => return Some(Gap(gap));
    case None => return None;
  }

  // ----- what the trie stores -----

  predicate Owned(t: Trie, p: string)
    decreases p
  {
    if p == [] then t.owner.Some? else p[0] in t.children && Owned(t.children[p[0]], p[1..])
  }

  lemma {:induction false} EmptyOwnsNothing(p: string)
    ensures !Owned(EmptyTrie, p)
  {}

  /** No owner lies on the way to `rest`. */
  ghost predicate Clear(t: Trie, rest: string) {
    forall q :: StartsWith(rest, q) ==> !Owned(t, q)
  }

  lemma ClearStep(t: Trie, rest: string)
    requires rest != [] && t.owner.None?
    ensures Clear(t, rest) <==> rest[0] in t.children ==> Clear(t.children[rest[0]], rest[1..])
  {
    if Clear(t, rest) && rest[0] in t.children {
      forall q | StartsWith(rest[1..], q) ensures !Owned(t.children[rest[0]], q) {
        assert StartsWith(rest, [rest[0]] + q) && ([rest[0]] + q)[1..] == q;
      }
    }
    if !Clear(t, rest) {
      var q :| StartsWith(rest, q) && Owned(t, q);
      assert StartsWith(rest[1..], q[1..]);
    }
  }

  lemma {:induction false} InsertPathMeaning(t: Trie, rest: string, e: Entry)
    ensures InsertPath(t, rest, e).Ok? <==> Clear(t, rest)
    ensures InsertPath(t, rest, e).Ok? ==>
      forall q :: Owned(InsertPath(t, rest, e).value, q) <==> Owned(t, q) || q == rest
    decreases rest
  {
    if t.owner.Some? {
      assert StartsWith(rest, []) && Owned(t, []);
    } else if rest == [] {
    } else {
      var c := rest[0];
      var child := if c in t.children then t.children[c] else EmptyTrie;
      InsertPathMeaning(child, rest[1..], e);
      ClearStep(t, rest);
      forall q { EmptyOwnsNothing(q); }
      if InsertPath(child, rest[1..], e).Ok? {
        var grown := InsertPath(t, rest, e).value;
        forall q ensures Owned(grown, q) <==> Owned(t, q) || q == rest {
          if q != [] && q[0] == c { assert q == rest <==> q[1..] == rest[1..]; }
        }
      }
    }
  }

  /** No entry's prefix starts with the prefix of an entry inserted before it. */
  ghost predicate NoneExtends(entries: seq<Entry>) {
    forall i, j :: 0 <= i < j < |entries| ==> !StartsWith(entries[j].prefix, entries[i].prefix)
  }

  ghost predicate Fresh(t: Trie, entries: seq<Entry>) {
    forall j :: 0 <= j < |entries| ==> Clear(t, entries[j].prefix)
  }

  predicate Listed(entries: seq<Entry>, q: string) {
    exists j :: 0 <= j < |entries| && entries[j].prefix == q
  }

  lemma ListedStep(entries: seq<Entry>, q: string)
    requires entries != []
    ensures Listed(entries, q) <==> q == entries[0].prefix || Listed(entries[1..], q)
  {
    if Listed(entries[1..], q) {
      var j :| 0 <= j < |entries[1..]| && entries[1..][j].prefix == q;
      assert entries[j + 1].prefix == q;
    }
    if Listed(entries, q) && q != entries[0].prefix {
      var j :| 0 <= j < |entries| && entries[j].prefix == q;
      assert entries[1..][j - 1].prefix == q;
    }
  }

  lemma {:induction false} InsertAllMeaning(t: Trie, entries: seq<Entry>)
    ensures InsertAll(t, entries).Ok? <==> NoneExtends(entries) && Fresh(t, entries)
    ensures InsertAll(t, entries).Ok? ==>
      forall q :: Owned(InsertAll(t, entries).value, q) <==> Owned(t, q) || Listed(entries, q)
    decreases |entries|
  {
    if entries != [] {
      var e, rest := entries[0], entries[1..];
      InsertPathMeaning(t, e.prefix, e);
      forall q { ListedStep(entries, q); }
      match InsertPath(t, e.prefix, e)
      case Err(_) => assert !Fresh(t, entries);
      case Ok(grown) =>
        InsertAllMeaning(grown, rest);
    }
  }

  // ----- gaps -----

  /** No path is longer than `n`. */
  predicate Fits(t: Trie, n: nat) {
    forall c :: c in t.children ==> n > 0 && Fits(t.children[c], n - 1)
  }

  /** Every node below the root has an owner or a child. */
  predicate Productive(t: Trie) {
    forall c :: c in t.children ==>
      (t.children[c].owner.Some? || t.children[c].children != map[]) && Productive(t.children[c])
  }

  lemma {:induction false} InsertPathShape(t: Trie, rest: string, e: Entry, n: nat)
    requires Fits(t, n) && Productive(t) && |rest| <= n
    requires InsertPath(t, rest, e).Ok?
    ensures var r := InsertPath(t, rest, e).value;
      Fits(r, n) && Productive(r) && (r.owner.Some? || r.children != map[])
    decreases rest
  {
    if rest != [] {
      var child := if rest[0] in t.children then t.children[rest[0]] else EmptyTrie;
      InsertPathShape(child, rest[1..], e, n - 1);
      assert rest[0] in InsertPath(t, rest, e).value.children;
    }
  }

  lemma {:induction false} InsertAllShape(t: Trie, entries: seq<Entry>, n: nat)
    requires Fits(t, n) && Productive(t)
    requires forall i :: 0 <= i < |entries| ==> |entries[i].prefix| <= n
    requires InsertAll(t, entries).Ok?
    ensures Fits(InsertAll(t, entries).value, n) && Productive(InsertAll(t, entries).value)
    decreases |entries|
  {
    if entries != [] {
      InsertPathShape(t, entries[0].prefix, entries[0], n);
      InsertAllShape(InsertPath(t, entries[0].prefix, entries[0]).value, entries[1..], n);
    }
  }

  lemma {:induction false} NoGapFrom(t: Trie, prefix: string, k: nat, j: nat)
    requires k <= j < |HexAlphabet| && GapFrom(t, prefix, k).None?
    ensures HexAlphabet[j] in t.children
    ensures FirstGap(t.children[HexAlphabet[j]], prefix + [HexAlphabet[j]]).None?
    decreases j - k
  {
    if k < j { NoGapFrom(t, prefix, k + 1, j); }
  }

  /** Without a gap, every long enough id passes an owned node. */
  lemma {:induction false} NoGapCovers(t: Trie, prefix: string, id: string) returns (q: string)
    requires FirstGap(t, prefix).None? && Fits(t, |id|) && HexText(id)
    ensures StartsWith(id, q) && Owned(t, q)
    decreases id
  {
    if t.owner.Some? { return []; }
    NoGapFrom(t, prefix, 0, 0);
    assert id[0] in id && id[0] in HexAlphabet;
    var k :| 0 <= k < |HexAlphabet| && HexAlphabet[k] == id[0];
    NoGapFrom(t, prefix, 0, k);
    var rest := NoGapCovers(t.children[id[0]], prefix + [id[0]], id[1..]);
    q := [id[0]] + rest;
    assert q[1..] == rest;
  }

  /** The reported gap is a hexadecimal path of at most `n` digits that meets no owned node and
      cannot be extended to one. */
  lemma {:induction false} GapUncovered(t: Trie, prefix: string, n: nat) returns (rest: string)
    requires FirstGap(t, prefix).Some? && Fits(t, n) && Productive(t) && n > 0
    ensures FirstGap(t, prefix).value == prefix + rest && HexText(rest) && |rest| <= n
    ensures forall id, q :: StartsWith(id, rest) && StartsWith(id, q) ==> !Owned(t, q)
    decreases t, |HexAlphabet| + 1
  {
    rest := GapFromUncovered(t, prefix, n, 0);
  }

  lemma {:induction false} GapFromUncovered(t: Trie, prefix: string, n: nat, k: nat) returns (rest: string)
    requires k <= |HexAlphabet| && GapFrom(t, prefix, k).Some? && t.owner.None?
    requires Fits(t, n) && Productive(t) && n > 0
    ensures GapFrom(t, prefix, k).value == prefix + rest && HexText(rest) && |rest| <= n
    ensures forall id, q :: StartsWith(id, rest) && StartsWith(id, q) ==> !Owned(t, q)
    decreases t, |HexAlphabet| - k
  {
    var c := HexAlphabet[k];
    if c !in t.children {
      rest := [c];
    } else if FirstGap(t.children[c], prefix + [c]).Some? {
      var child := t.children[c];
      var below := GapUncovered(child, prefix + [c], n - 1);
      rest := [c] + below;
      assert (prefix + [c]) + below == prefix + rest;
      forall id, q | StartsWith(id, rest) && StartsWith(id, q) ensures !Owned(t, q) {
        if q != [] {
          assert q[0] == id[0] == c;
          assert rest[1..] == below && StartsWith(id[1..], below) && StartsWith(id[1..], q[1..]);
        }
      }
    } else {
      rest := GapFromUncovered(t, prefix, n, k + 1);
    }
  }

  // ----- the verdict -----

  /** How many listed prefixes `id` extends. */
  function Matching(entries: seq<Entry>, id: string): nat {
    if entries == [] then 0
    else (if StartsWith(id, entries[0].prefix) then 1 else 0) + Matching(entries[1..], id)
  }

  lemma {:induction false} InsertEntryMatching(e: Entry, sorted: seq<Entry>, id: string)
    ensures Matching(InsertEntry(e, sorted), id) == Matching([e] + sorted, id)
  {
    assert ([e] + sorted)[1..] == sorted;
    if sorted != [] && EntryLess(sorted[0], e) {
      InsertEntryMatching(e, sorted[1..], id);
      assert ([e] + sorted[1..])[1..] == sorted[1..];
    }
  }

  lemma {:induction false} SortKeepsMatching(entries: seq<Entry>, id: string)
    ensures Matching(SortEntries(entries), id) == Matching(entries, id)
  {
    if entries != [] {
      SortKeepsMatching(entries[1..], id);
      InsertEntryMatching(entries[0], SortEntries(entries[1..]), id);
      assert ([entries[0]] + SortEntries(entries[1..]))[1..] == SortEntries(entries[1..]);
    }
  }

  ghost predicate Sorted(entries: seq<Entry>) {
    forall i, j :: 0 <= i < j < |entries| ==> !EntryLess(entries[j], entries[i])
  }

  lemma EntryConnex(a: Entry, b: Entry, c: Entry)
    ensures a == b || EntryLess(a, b) || EntryLess(b, a)
    ensures EntryLess(a, b) && EntryLess(b, c) ==> EntryLess(a, c)
    ensures !EntryLess(a, a)
  {
    StringOrder();
    StringConnex(a.prefix, b.prefix);
    StringConnex(a.name, b.name);
  }

  lemma {:induction false} InsertEntrySorted(e: Entry, sorted: seq<Entry>)
    requires Sorted(sorted)
    ensures Sorted(InsertEntry(e, sorted))
    ensures forall x :: x in InsertEntry(e, sorted) <==> x == e || x in sorted
  {
    if sorted == [] {
    } else if !EntryLess(sorted[0], e) {
      forall i | 0 <= i < |sorted| ensures !EntryLess(sorted[i], e) {
        assert i == 0 || !EntryLess(sorted[i], sorted[0]);
        EntryConnex(sorted[0], sorted[i], e);
      }
    } else {
      var tail := InsertEntry(e, sorted[1..]);
      InsertEntrySorted(e, sorted[1..]);
      assert forall x :: x in sorted <==> x == sorted[0] || x in sorted[1..];
      forall j | 0 <= j < |tail| ensures !EntryLess(tail[j], sorted[0]) {
        assert tail[j] in tail;
        EntryConnex(sorted[0], e, sorted[0]);
        EntryConnex(e, sorted[0], e);
        assert forall k :: 0 <= k < |sorted[1..]| ==> sorted[1..][k] == sorted[k + 1];
      }
    }
  }

  lemma {:induction false} SortEntriesSorted(entries: seq<Entry>)
    ensures Sorted(SortEntries(entries))
    ensures forall x :: x in SortEntries(entries) <==> x in entries
  {
    if entries != [] {
      SortEntriesSorted(entries[1..]);
      InsertEntrySorted(entries[0], SortEntries(entries[1..]));
      assert forall x :: x in entries <==> x == entries[0] || x in entries[1..];
    }
  }

  lemma {:induction false} PrefixComesFirst(s: string, q: string)
    requires StartsWith(s, q)
    ensures q == s || StringLess(q, s)
  {
    if q != [] { PrefixComesFirst(s[1..], q[1..]); assert s == [s[0]] + s[1..] && q == [q[0]] + q[1..]; }
  }

  /** In sorted order a prefix comes before its extensions, so earlier-extends-later is the only overlap. */
  lemma SortedOverlap(entries: seq<Entry>, i: nat, j: nat)
    requires Sorted(entries) && i < j < |entries|
    requires StartsWith(entries[i].prefix, entries[j].prefix)
    ensures StartsWith(entries[j].prefix, entries[i].prefix)
  {
    PrefixComesFirst(entries[i].prefix, entries[j].prefix);
    assert !EntryLess(entries[j], entries[i]);
  }

  lemma {:induction false} MatchingOne(entries: seq<Entry>, id: string, i: nat)
    requires i < |entries| && StartsWith(id, entries[i].prefix)
    ensures Matching(entries, id) >= 1
  {
    if i > 0 { MatchingOne(entries[1..], id, i - 1); }
  }

  lemma {:induction false} MatchingTwo(entries: seq<Entry>, id: string, i: nat, j: nat)
    requires i < j < |entries| && StartsWith(id, entries[i].prefix) && StartsWith(id, entries[j].prefix)
    ensures Matching(entries, id) >= 2
  {
    if i > 0 { MatchingTwo(entries[1..], id, i - 1, j - 1); } else { MatchingOne(entries[1..], id, j - 1); }
  }

  lemma {:induction false} MatchingSome(entries: seq<Entry>, id: string) returns (i: nat)
    requires Matching(entries, id) >= 1
    ensures i < |entries| && StartsWith(id, entries[i].prefix)
  {
    if StartsWith(id, entries[0].prefix) { return 0; }
    i := MatchingSome(entries[1..], id);
    i := i + 1;
  }

  lemma {:induction false} MatchingPair(entries: seq<Entry>, id: string) returns (i: nat, j: nat)
    requires Matching(entries, id) >= 2
    ensures i < j < |entries| && StartsWith(id, entries[i].prefix) && StartsWith(id, entries[j].prefix)
  {
    if StartsWith(id, entries[0].prefix) {
      j := MatchingSome(entries[1..], id);
      return 0, j + 1;
    }
    i, j := MatchingPair(entries[1..], id);
    i, j := i + 1, j + 1;
  }

  function Padded(p: string): string
    requires |p| <= IdLength
  {
    p + seq(IdLength - |p|, _ => '0')
  }

  ghost predicate EachIdOnce(entries: seq<Entry>) {
    forall id :: FullId(id) ==> Matching(entries, id) == 1
  }

  ghost predicate HexEntries(entries: seq<Entry>) {
    forall i :: 0 <= i < |entries| ==> 0 < |entries[i].prefix| <= IdLength && HexText(entries[i].prefix)
  }

  /** An id that passes an owned node extends exactly one listed prefix. */
  lemma CoveredOnce(entries: seq<Entry>, trie: Trie, id: string, q: string)
    requires Sorted(entries) && InsertAll(EmptyTrie, entries) == Ok(trie)
    requires Owned(trie, q) && StartsWith(id, q)
    ensures Matching(entries, id) == 1
  {
    InsertAllMeaning(EmptyTrie, entries);
    EmptyOwnsNothing(q);
    var i :| 0 <= i < |entries| && entries[i].prefix == q;
    MatchingOne(entries, id, i);
    if Matching(entries, id) >= 2 {
      var j, k := MatchingPair(entries, id);
      if StartsWith(entries[j].prefix, entries[k].prefix) { SortedOverlap(entries, j, k); }
    }
  }

  lemma AcceptedCovers(entries: seq<Entry>, trie: Trie, id: string)
    requires Sorted(entries) && HexEntries(entries) && FullId(id)
    requires InsertAll(EmptyTrie, entries) == Ok(trie) && FirstGap(trie, "").None?
    ensures Matching(entries, id) == 1
  {
    InsertAllShape(EmptyTrie, entries, IdLength);
    var q := NoGapCovers(trie, "", id);
    CoveredOnce(entries, trie, id, q);
  }

  lemma {:induction false} EntriesWellFormed(shards: seq<Shard>)
    requires WellFormed(shards)
    ensures HexEntries(Entries(shards))
  {
    if shards != [] {
      ShardEntriesMeaning(shards[0].name, shards[0].prefixes);
      assert shards[0] in shards && forall s :: s in shards[1..] ==> s in shards;
      EntriesWellFormed(shards[1..]);
    }
  }

  lemma {:induction false} ShardEntriesMeaning(name: string, prefixes: seq<string>)
    ensures |ShardEntries(name, prefixes)| == |prefixes|
    ensures forall i :: 0 <= i < |prefixes| ==> ShardEntries(name, prefixes)[i] == Entry(prefixes[i], name)
  {
    if prefixes != [] { ShardEntriesMeaning(name, prefixes[1..]); }
  }

  // ----- what the error says -----

  /** The entry stored at an owned path. */
  function OwnerAt(t: Trie, p: string): Entry
    requires Owned(t, p)
    decreases p
  {
    if p == [] then t.owner.value else OwnerAt(t.children[p[0]], p[1..])
  }

  /** Every owned path is the prefix of its owner, which is one of these entries. */
  ghost predicate Keeps(t: Trie, entries: seq<Entry>) {
    forall q :: Owned(t, q) ==> OwnerAt(t, q).prefix == q && OwnerAt(t, q) in entries
  }

  /** A refused insertion names the owner of a node on the way. */
  lemma {:induction false} InsertPathRefused(t: Trie, rest: string, e: Entry) returns (q: string)
    requires InsertPath(t, rest, e).Err?
    ensures StartsWith(rest, q) && Owned(t, q) && OwnerAt(t, q) == InsertPath(t, rest, e).error
    decreases rest
  {
    if t.owner.Some? { return []; }
    var child := if rest[0] in t.children then t.children[rest[0]] else EmptyTrie;
    var below := InsertPathRefused(child, rest[1..], e);
    EmptyOwnsNothing(below);
    q := [rest[0]] + below;
    assert q[1..] == below;
  }

  lemma {:induction false} InsertPathOwners(t: Trie, rest: string, e: Entry, q: string)
    requires InsertPath(t, rest, e).Ok? && Owned(InsertPath(t, rest, e).value, q)
    ensures Owned(t, q) || q == rest
    ensures OwnerAt(InsertPath(t, rest, e).value, q) == if q == rest then e else OwnerAt(t, q)
    decreases rest
  {
    if rest != [] && q != [] && q[0] == rest[0] {
      var child := if rest[0] in t.children then t.children[rest[0]] else EmptyTrie;
      InsertPathOwners(child, rest[1..], e, q[1..]);
      EmptyOwnsNothing(q[1..]);
      assert q == rest <==> q[1..] == rest[1..];
    }
  }

  /** The first entry that cannot be inserted extends an earlier one, and no entry before it does. */
  lemma {:induction false} OverlapAt(t: Trie, before: seq<Entry>, entries: seq<Entry>) returns (i: nat, j: nat)
    requires Keeps(t, before) && InsertAll(t, entries).Err?
    ensures var (e, existing) := InsertAll(t, entries).error; var all := before + entries;
      && i < |before| + j < |all| && all[|before| + j] == entries[j] == e && all[i] == existing
      && StartsWith(e.prefix, existing.prefix) && InsertAll(t, entries[..j]).Ok?
    decreases |entries|
  {
    var e, all := entries[0], before + entries;
    match InsertPath(t, e.prefix, e)
    case Err(existing) =>
      var q := InsertPathRefused(t, e.prefix, e);
      assert existing in before;
      i :| 0 <= i < |before| && before[i] == existing;
      j := 0;
    case Ok(grown) =>
      forall q | Owned(grown, q) ensures OwnerAt(grown, q).prefix == q && OwnerAt(grown, q) in before + [e] {
        InsertPathOwners(t, e.prefix, e, q);
      }
      i, j := OverlapAt(grown, before + [e], entries[1..]);
      assert (before + [e]) + entries[1..] == all;
      j := j + 1;
      assert entries[..j][1..] == entries[1..][..j - 1];
  }

  /** The first gap belongs to the first child, in the order of the digits, that is missing or has one. */
  lemma {:induction false} GapAt(t: Trie, prefix: string, k: nat) returns (m: nat)
    requires k <= |HexAlphabet| && GapFrom(t, prefix, k).Some?
    ensures k <= m < |HexAlphabet|
    ensures var c := HexAlphabet[m];
      if c in t.children then GapFrom(t, prefix, k) == FirstGap(t.children[c], prefix + [c])
      else GapFrom(t, prefix, k) == Some(prefix + [c])
    ensures forall j :: k <= j < m ==> var c := HexAlphabet[j];
      c in t.children && FirstGap(t.children[c], prefix + [c]).None?
    decreases |HexAlphabet| - k
  {
    var c := HexAlphabet[k];
    if c in t.children && FirstGap(t.children[c], prefix + [c]).None? {
      m := GapAt(t, prefix, k + 1);
    } else {
      m := k;
    }
  }

  lemma {:induction false} GapExtends(t: Trie, prefix: string)
    requires FirstGap(t, prefix).Some?
    ensures |FirstGap(t, prefix).value| > |prefix| && StartsWith(FirstGap(t, prefix).value, prefix)
    decreases t
  {
    var m := GapAt(t, prefix, 0);
    var c := HexAlphabet[m];
    if c in t.children { GapExtends(t.children[c], prefix + [c]); }
  }

  lemma HexDigitsAscend(i: nat, j: nat)
    requires i < |HexAlphabet| && j < |HexAlphabet| && HexAlphabet[i] < HexAlphabet[j]
    ensures i < j
  {}

  /** An id that sorts before the first gap passes an owned node. */
  lemma {:induction false} BeforeGapCovered(t: Trie, prefix: string, rest: string, id: string) returns (q: string)
    requires FirstGap(t, prefix) == Some(prefix + rest) && Fits(t, |id|) && HexText(id)
    requires StringLess(id, rest) && |rest| <= |id|
    ensures StartsWith(id, q) && Owned(t, q)
    decreases id
  {
    var m := GapAt(t, prefix, 0);
    var c := HexAlphabet[m];
    GapExtends(t, prefix);
    if c in t.children {
      GapExtends(t.children[c], prefix + [c]);
    }
    assert (prefix + rest)[|prefix|] == c == rest[0];
    assert id[0] in id && id[0] in HexAlphabet;
    var k :| 0 <= k < |HexAlphabet| && HexAlphabet[k] == id[0];
    var below: string;
    if id[0] == c {
      assert prefix + rest == (prefix + [c]) + rest[1..];
      assert rest[1..] != [];
      below := BeforeGapCovered(t.children[c], prefix + [c], rest[1..], id[1..]);
    } else {
      HexDigitsAscend(k, m);
      below := NoGapCovers(t.children[id[0]], prefix + [id[0]], id[1..]);
    }
    q := [id[0]] + below;
    assert q[1..] == below;
  }

  /** What an error tells about the entries in their sorted order. */
  ghost predicate Explains(error: PlanError, entries: seq<Entry>) {
    match error
    case Overlap(prefix, existing, name) =>
      exists i, j :: 0 <= i < j < |entries| && entries[j] == Entry(prefix, name) && entries[i].name == existing
        && StartsWith(prefix, entries[i].prefix) && NoneExtends(entries[..j])
    case Gap(gap) =>
      && 0 < |gap| <= IdLength && HexText(gap) && NoneExtends(entries)
      && (forall id :: FullId(id) && StartsWith(id, gap) ==> Matching(entries, id) == 0)
      && (forall id :: FullId(id) && StringLess(id, gap) ==> Matching(entries, id) == 1)
  }

  /** An overlap names the first entry that extends an earlier one, and that one. A gap is the prefix of no
      covered id, and every id that sorts before it is covered exactly once. */
  lemma ErrorExplained(shards: seq<Shard>)
    requires WellFormed(shards) && Check(shards).Some?
    ensures Explains(Check(shards).value, SortEntries(Entries(shards)))
  {
    var entries := SortEntries(Entries(shards));
    EntriesWellFormed(shards);
    SortEntriesSorted(Entries(shards));
    assert HexEntries(entries) by {
      forall i | 0 <= i < |entries| ensures 0 < |entries[i].prefix| <= IdLength && HexText(entries[i].prefix) {
        assert entries[i] in Entries(shards);
      }
    }
    match InsertAll(EmptyTrie, entries)
    case Err(_) => OverlapExplained(entries);
    case Ok(trie) => GapExplained(entries, trie);
  }

  lemma OverlapExplained(entries: seq<Entry>)
    requires InsertAll(EmptyTrie, entries).Err?
    ensures var (e, existing) := InsertAll(EmptyTrie, entries).error;
      Explains(Overlap(e.prefix, existing.name, e.name), entries)
  {
    forall q { EmptyOwnsNothing(q); }
    var i, j := OverlapAt(EmptyTrie, [], entries);
    assert [] + entries == entries;
    InsertAllMeaning(EmptyTrie, entries[..j]);
    assert Entry(entries[j].prefix, entries[j].name) == entries[j];
  }

  lemma GapExplained(entries: seq<Entry>, trie: Trie)
    requires Sorted(entries) && HexEntries(entries)
    requires InsertAll(EmptyTrie, entries) == Ok(trie) && FirstGap(trie, "").Some?
    ensures Explains(Gap(FirstGap(trie, "").value), entries)
  {
    InsertAllMeaning(EmptyTrie, entries);
    forall q { EmptyOwnsNothing(q); }
    InsertAllShape(EmptyTrie, entries, IdLength);
    GapExtends(trie, "");
    var gap := GapUncovered(trie, "", IdLength);
    assert "" + gap == gap;
    forall id | FullId(id) && StartsWith(id, gap) ensures Matching(entries, id) == 0 {
      forall i | 0 <= i < |entries| ensures !StartsWith(id, entries[i].prefix) {
        assert Listed(entries, entries[i].prefix) && Owned(trie, entries[i].prefix);
      }
      if Matching(entries, id) >= 1 { var i := MatchingSome(entries, id); }
    }
    forall id | FullId(id) && StringLess(id, gap) ensures Matching(entries, id) == 1 {
      var q := BeforeGapCovered(trie, "", gap, id);
      CoveredOnce(entries, trie, id, q);
    }
  }

  // ----- the check is exact -----

  /** Every error shows an id that does not extend exactly one prefix. */
  lemma ErrorRefutes(error: PlanError, entries: seq<Entry>) returns (id: string)
    requires HexEntries(entries) && Explains(error, entries)
    ensures FullId(id) && Matching(entries, id) != 1
  {
    match error
    case Overlap(prefix, existing, name) =>
      var i, j :| 0 <= i < j < |entries| && entries[j] == Entry(prefix, name) && entries[i].name == existing
        && StartsWith(prefix, entries[i].prefix) && NoneExtends(entries[..j]);
      id := Padded(prefix);
      MatchingTwo(entries, id, i, j);
    case Gap(gap) =>
      id := Padded(gap);
  }

  /** The check accepts exactly when every full id extends exactly one listed prefix. */
  lemma CheckExact(shards: seq<Shard>)
    requires WellFormed(shards)
    ensures Check(shards).None? <==> EachIdOnce(Entries(shards))
  {
    var entries := SortEntries(Entries(shards));
    EntriesWellFormed(shards);
    SortEntriesSorted(Entries(shards));
    assert HexEntries(entries) by {
      forall i | 0 <= i < |entries| ensures 0 < |entries[i].prefix| <= IdLength && HexText(entries[i].prefix) {
        assert entries[i] in Entries(shards);
      }
    }
    if Check(shards).None? {
      forall id | FullId(id) ensures Matching(Entries(shards), id) == 1 {
        AcceptedCovers(entries, InsertAll(EmptyTrie, entries).value, id);
        SortKeepsMatching(Entries(shards), id);
      }
    } else {
      ErrorExplained(shards);
      var id := ErrorRefutes(Check(shards).value, entries);
      SortKeepsMatching(Entries(shards), id);
    }
  }

  // ----- assignment -----

  predicate Selects(shard: Shard, id: string) {
    exists p :: p in shard.prefixes && StartsWith(id, p)
  }

  function Selected(shards: seq<Shard>, id: string): seq<Shard> {
    if shards == [] then []
    else (if Selects(shards[0], id) then [shards[0]] else []) + Selected(shards[1..], id)
  }

  /** The selected shard, or how many shards select the id. */
  function Assignment(shards: seq<Shard>, id: string): Result<Shard, nat> {
    var selected := Selected(shards, id);
    if |selected| != 1 then Err(|selected|) else Ok(selected[0])
  }

  lemma {:induction false} MatchingAppend(a: seq<Entry>, b: seq<Entry>, id: string)
    ensures Matching(a + b, id) == Matching(a, id) + Matching(b, id)
  {
    if a == [] { assert a + b == b; }
    else { MatchingAppend(a[1..], b, id); assert (a + b)[1..] == a[1..] + b; }
  }

  lemma {:induction false} SelectedMeaning(shards: seq<Shard>, id: string)
    ensures |Selected(shards, id)| <= Matching(Entries(shards), id)
    ensures Matching(Entries(shards), id) > 0 ==> |Selected(shards, id)| > 0
    ensures forall s :: s in Selected(shards, id) <==> s in shards && Selects(s, id)
  {
    if shards != [] {
      var s := shards[0];
      var own := ShardEntries(s.name, s.prefixes);
      SelectedMeaning(shards[1..], id);
      ShardEntriesMeaning(s.name, s.prefixes);
      MatchingAppend(own, Entries(shards[1..]), id);
      if Selects(s, id) {
        var p :| p in s.prefixes && StartsWith(id, p);
        var i :| 0 <= i < |s.prefixes| && s.prefixes[i] == p;
        MatchingOne(own, id, i);
      }
      if Matching(own, id) > 0 {
        var i := MatchingSome(own, id);
        assert s.prefixes[i] in s.prefixes && Selects(s, id);
      }
      assert forall x :: x in shards <==> x == s || x in shards[1..];
    }
  }

  /** For an accepted partition the assignment of a full id never fails, and no other shard selects it. */
  lemma AssignmentTotal(shards: seq<Shard>, id: string)
    requires WellFormed(shards) && Check(shards).None? && FullId(id)
    ensures Assignment(shards, id).Ok?
    ensures forall s :: s in shards ==> (Selects(s, id) <==> s == Assignment(shards, id).value)
  {
    hide WellFormed, Check, Selects, Matching, Entries;
    CheckExact(shards);
    SelectedMeaning(shards, id);
    var selected := Selected(shards, id);
    assert selected[0] in selected;
    forall s | s in shards ensures Selects(s, id) <==> s == selected[0] {
      if s in selected { assert s == selected[0]; }
    }
  }

  // ----- the catalog -----

  datatype Mutant = Mutant(fullId: string, path: string, family: string)

  datatype Plan = Plan(shards: seq<Shard>, paths: set<string>, families: set<string>, maximum: nat)

  datatype Catalog = Catalog(mutants: map<string, Mutant>, partitions: Partitions)

  datatype CatalogError =
    | Vacuous
    | InvalidId(index: nat)
    | Duplicate(id: string)
    | UnconfiguredPath(id: string)
    | UnconfiguredFamily(id: string)
    | Misassigned(id: string, count: nat)
    | TooLarge(name: string, count: nat)

  function Mutants(rows: seq<Mutant>): map<string, Mutant> {
    if rows == [] then map[] else Mutants(rows[..|rows| - 1])[rows[|rows| - 1].fullId := rows[|rows| - 1]]
  }

  predicate BelongsTo(shards: seq<Shard>, id: string, name: string) {
    Assignment(shards, id).Ok? && Assignment(shards, id).value.name == name
  }

  function Part(shards: seq<Shard>, mutants: map<string, Mutant>, name: string): map<string, Mutant> {
    map id | id in mutants && BelongsTo(shards, id, name) :: mutants[id]
  }

  predicate Acceptable(plan: Plan, m: Mutant) {
    FullId(m.fullId) && m.path in plan.paths && m.family in plan.families && Assignment(plan.shards, m.fullId).Ok?
  }

  ghost predicate Loadable(plan: Plan, rows: seq<Mutant>) {
    && rows != []
    && (forall i :: 0 <= i < |rows| ==> Acceptable(plan, rows[i]))
    && (forall i, j :: 0 <= i < j < |rows| ==> rows[i].fullId != rows[j].fullId)
    && (forall s :: s in plan.shards ==> |Part(plan.shards, Mutants(rows), s.name)| <= plan.maximum)
  }

  lemma {:induction false} MutantsMeaning(rows: seq<Mutant>)
    ensures forall id :: id in Mutants(rows) <==> exists i :: 0 <= i < |rows| && rows[i].fullId == id
    ensures forall id :: id in Mutants(rows) ==> Mutants(rows)[id].fullId == id && Mutants(rows)[id] in rows
  {
    if rows != [] {
      var init := rows[..|rows| - 1];
      MutantsMeaning(init);
      forall id ensures id in Mutants(rows) <==> exists i :: 0 <= i < |rows| && rows[i].fullId == id {
        if id in Mutants(init) {
          var i :| 0 <= i < |init| && init[i].fullId == id;
          assert rows[i].fullId == id;
        }
        if i :| 0 <= i < |rows| && rows[i].fullId == id && i < |init| { assert init[i].fullId == id; }
      }
    }
  }

  predicate UniqueNames(shards: seq<Shard>) {
    forall i, j :: 0 <= i < j < |shards| ==> shards[i].name != shards[j].name
  }

  type Partitions = map<string, map<string, Mutant>>

  ghost function Names(shards: seq<Shard>): set<string> { set s | s in shards :: s.name }

  ghost predicate SplitAs(shards: seq<Shard>, mutants: map<string, Mutant>, partitions: Partitions) {
    && partitions.Keys == Names(shards)
    && forall s :: s in shards ==> partitions[s.name] == Part(shards, mutants, s.name)
  }

  method EmptyPartitions(shards: seq<Shard>) returns (partitions: Partitions)
    ensures SplitAs(shards, map[], partitions)
  {
    partitions := map[];
    for i := 0 to |shards|
      invariant partitions.Keys == Names(shards[..i])
      invariant forall name :: name in partitions ==> partitions[name] == map[]
    {
      partitions := partitions[shards[i].name := map[]];
    }
    assert shards[..|shards|] == shards;
  }

  /** The error is that of the first check which the row fails. */
  predicate RowFails(plan: Plan, mutants: map<string, Mutant>, m: Mutant, index: nat, error: CatalogError) {
    match error
    case InvalidId(i) => i == index && !FullId(m.fullId)
    case Duplicate(id) => id == m.fullId && FullId(id) && id in mutants
    case UnconfiguredPath(id) => id == m.fullId && FullId(id) && id !in mutants && m.path !in plan.paths
    case UnconfiguredFamily(id) =>
      && id == m.fullId && FullId(id) && id !in mutants
      && m.path in plan.paths && m.family !in plan.families
    case Misassigned(id, count) =>
      && id == m.fullId && FullId(id) && id !in mutants && m.path in plan.paths && m.family in plan.families
      && count == |Selected(plan.shards, id)| != 1
    case _ => false
  }

  /** One row of the catalog: the checks in their order, then both dictionaries grow. */
  method AdmitRow(plan: Plan, mutants: map<string, Mutant>, partitions: Partitions, mutant: Mutant, index: nat)
    returns (result: Result<(map<string, Mutant>, Partitions), CatalogError>)
    requires SplitAs(plan.shards, mutants, partitions)
    ensures result.Ok? <==> Acceptable(plan, mutant) && mutant.fullId !in mutants
    ensures result.Ok? ==>
      result.value.0 == mutants[mutant.fullId := mutant] && SplitAs(plan.shards, result.value.0, result.value.1)
    ensures result.Err? ==> RowFails(plan, mutants, mutant, index, result.error)
    ensures WellFormed(plan.shards) && Check(plan.shards).None? ==> !(result.Err? && result.error.Misassigned?)
  {
    var id := mutant.fullId;
    if !FullId(id) { return Err(InvalidId(index)); }
    if id in mutants { return Err(Duplicate(id)); }
    if mutant.path !in plan.paths { return Err(UnconfiguredPath(id)); }
    if mutant.family !in plan.families { return Err(UnconfiguredFamily(id)); }
    var shard := Assignment(plan.shards, id);
    if shard.Err? {
      if WellFormed(plan.shards) && Check(plan.shards).None? { AssignmentTotal(plan.shards, id); }
      return Err(Misassigned(id, shard.error));
    }
    SelectedMeaning(plan.shards, id);
    assert shard.value in Selected(plan.shards, id);
    var name := shard.value.name;
    var grown := partitions[name := partitions[name][id := mutant]];
    forall s | s in plan.shards ensures grown[s.name] == Part(plan.shards, mutants[id := mutant], s.name) {
      assert BelongsTo(plan.shards, id, s.name) <==> s.name == name;
    }
    result := Ok((mutants[id := mutant], grown));
  }

  /** The first `n` rows pass all checks. */
  ghost predicate RowsPass(plan: Plan, rows: seq<Mutant>, n: nat)
    requires n <= |rows|
  {
    && (forall i :: 0 <= i < n ==> Acceptable(plan, rows[i]))
    && (forall i, j :: 0 <= i < j < n ==> rows[i].fullId != rows[j].fullId)
  }

  /** The part of this shard is the first in the order of names that is too large. */
  ghost predicate FirstTooLarge(plan: Plan, mutants: map<string, Mutant>, name: string, count: nat) {
    && name in Names(plan.shards) && count == |Part(plan.shards, mutants, name)| > plan.maximum
    && forall other :: other in Names(plan.shards) && StringLess(other, name) ==>
      |Part(plan.shards, mutants, other)| <= plan.maximum
  }

  /** The error is that of the first row that fails, or else of the first part that is too large. */
  ghost predicate LoadFails(plan: Plan, rows: seq<Mutant>, error: CatalogError) {
    match error
    case Vacuous => rows == []
    case TooLarge(name, count) =>
      rows != [] && RowsPass(plan, rows, |rows|) && FirstTooLarge(plan, Mutants(rows), name, count)
    case _ =>
      exists i: nat :: i < |rows| && RowsPass(plan, rows, i) && RowFails(plan, Mutants(rows[..i]), rows[i], i, error)
  }

  lemma LoadableStep(plan: Plan, rows: seq<Mutant>, i: nat)
    requires i < |rows|
    ensures Mutants(rows[..i + 1]) == Mutants(rows[..i])[rows[i].fullId := rows[i]]
    ensures rows[i].fullId in Mutants(rows[..i]) <==> exists j :: 0 <= j < i && rows[j].fullId == rows[i].fullId
  {
    assert rows[..i + 1][..i] == rows[..i];
    MutantsMeaning(rows[..i]);
    if j :| 0 <= j < i && rows[j].fullId == rows[i].fullId { assert rows[..i][j].fullId == rows[i].fullId; }
    if j :| 0 <= j < |rows[..i]| && rows[..i][j].fullId == rows[i].fullId { assert rows[j].fullId == rows[i].fullId; }
  }

  /** The catalog is loaded exactly when it is loadable, and then it is split as the shards say. */
  method LoadCatalog(plan: Plan, rows: seq<Mutant>) returns (result: Result<Catalog, CatalogError>)
    ensures result.Ok? <==> Loadable(plan, rows)
    ensures result.Ok? ==>
      result.value.mutants == Mutants(rows) && SplitAs(plan.shards, Mutants(rows), result.value.partitions)
    ensures result.Err? ==> LoadFails(plan, rows, result.error)
    ensures WellFormed(plan.shards) && Check(plan.shards).None? ==> !(result.Err? && result.error.Misassigned?)
  {
    hide Part, BelongsTo, Acceptable, WellFormed, Check, Mutants, RowFails;
    assert Mutants([]) == map[] by { MutantsMeaning([]); }
    if rows == [] { return Err(Vacuous); }
    var mutants: map<string, Mutant> := map[];
    var partitions := EmptyPartitions(plan.shards);
    for i := 0 to |rows|
      invariant RowsPass(plan, rows, i)
      invariant mutants == Mutants(rows[..i])
      invariant SplitAs(plan.shards, mutants, partitions)
    {
      LoadableStep(plan, rows, i);
      var admitted := AdmitRow(plan, mutants, partitions, rows[i], i);
      if admitted.Err? {
        return Err(admitted.error);
      }
      mutants, partitions := admitted.value.0, admitted.value.1;
    }
    assert rows[..|rows|] == rows;
    var tooLarge := FindTooLarge(plan, mutants, partitions);
    if tooLarge.Some? { return Err(TooLarge(tooLarge.value, |partitions[tooLarge.value]|)); }
    result := Ok(Catalog(mutants, partitions));
  }

  /** The loop over the parts in the order of their names. */
  method FindTooLarge(plan: Plan, mutants: map<string, Mutant>, partitions: Partitions)
    returns (found: Option<string>)
    requires SplitAs(plan.shards, mutants, partitions)
    ensures found.Some? ==>
      found.value in partitions && FirstTooLarge(plan, mutants, found.value, |partitions[found.value]|)
    ensures found.None? ==> forall s :: s in plan.shards ==> |Part(plan.shards, mutants, s.name)| <= plan.maximum
  {
    hide Part;
    var names := SortSet(partitions.Keys);
    for i := 0 to |names|
      invariant forall j :: 0 <= j < i ==> |Part(plan.shards, mutants, names[j])| <= plan.maximum
    {
      assert names[i] in names;
      if |partitions[names[i]]| > plan.maximum {
        forall other | other in Names(plan.shards) && StringLess(other, names[i])
          ensures |Part(plan.shards, mutants, other)| <= plan.maximum
        {
          var j :| 0 <= j < |names| && names[j] == other;
          if i <= j { NotBefore(names, i, j); }
        }
        return Some(names[i]);
      }
    }
    forall s | s in plan.shards ensures |Part(plan.shards, mutants, s.name)| <= plan.maximum {
      assert s.name in names;
    }
    found := None;
  }

  lemma NotBefore(names: seq<string>, i: nat, j: nat)
    requires Ascending(StringLess, names) && i <= j < |names|
    ensures !StringLess(names[j], names[i])
  {
    if i == j {
      StringIrreflexive(names[i]);
    } else if StringLess(names[j], names[i]) {
      StringTransitive(names[i], names[j], names[i]);
      StringIrreflexive(names[i]);
    }
  }

  /** For an accepted partition the parts are disjoint and cover the catalog. */
  lemma CatalogSplit(shards: seq<Shard>, rows: seq<Mutant>, id: string)
    requires WellFormed(shards) && UniqueNames(shards) && Check(shards).None?
    requires id in Mutants(rows) && FullId(id)
    ensures exists s :: (s in shards && id in Part(shards, Mutants(rows), s.name) && Selects(s, id)
      && forall t :: t in shards && t != s ==> id !in Part(shards, Mutants(rows), t.name))
  {
    AssignmentTotal(shards, id);
    SelectedMeaning(shards, id);
    var s := Assignment(shards, id).value;
    assert s in Selected(shards, id);
    forall t | t in shards && t != s ensures t.name != s.name {
      var i :| 0 <= i < |shards| && shards[i] == s;
      var j :| 0 <= j < |shards| && shards[j] == t;
      if i < j { assert shards[i].name != shards[j].name; } else { assert shards[j].name != shards[i].name; }
    }
  }
}
