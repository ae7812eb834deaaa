/** What the shard check says about the shards themselves (scripts/verify_mutation_campaign.py). */
module ShardMeaning {
  import opened Outcomes
  import opened Orders
  import opened Text
  import opened ShardPartition

  /** Sixty-four lowercase hexadecimal digits. */
  lemma FullIdExactly(id: string)
    ensures FullId(id) <==> |id| == 64 && forall c :: c in id ==> '0' <= c <= '9' || 'a' <= c <= 'f'
  {
    forall c: char ensures c in HexAlphabet <==> '0' <= c <= '9' || 'a' <= c <= 'f' { HexDigit(c); }
  }

  lemma HexDigit(c: char)
    ensures c in HexAlphabet <==> '0' <= c <= '9' || 'a' <= c <= 'f'
  {
    if '0' <= c <= '9' { assert HexAlphabet[c as int - '0' as int] == c; }
    if 'a' <= c <= 'f' { assert HexAlphabet[c as int - 'a' as int + 10] == c; }
  }

  // ----- the entries -----

  lemma {:induction false} EntriesMeaning(shards: seq<Shard>, e: Entry)
    ensures e in Entries(shards) <==> exists s :: s in shards && s.name == e.name && e.prefix in s.prefixes
  {
    if shards != [] {
      var s := shards[0];
      var own := ShardEntries(s.name, s.prefixes);
      ShardEntriesMeaning(s.name, s.prefixes);
      EntriesMeaning(shards[1..], e);
      if e in own {
        var k :| 0 <= k < |own| && own[k] == e;
        assert s.prefixes[k] in s.prefixes;
      }
      if s.name == e.name && e.prefix in s.prefixes {
        var k :| 0 <= k < |s.prefixes| && s.prefixes[k] == e.prefix;
        assert own[k] == e;
      }
    }
  }

  /** A shard of this name lists this prefix. */
  ghost predicate Lists(shards: seq<Shard>, name: string, prefix: string) {
    exists s :: s in shards && s.name == name && prefix in s.prefixes
  }

  /** A reported overlap names a shard that lists the prefix and a shard that lists a prefix of it. A reported
      gap is no prefix of an id that any shard selects. */
  lemma ErrorOnShards(shards: seq<Shard>)
    requires WellFormed(shards) && Check(shards).Some?
    ensures match Check(shards).value
      case Overlap(prefix, existing, name) =>
        Lists(shards, name, prefix) && exists q :: Lists(shards, existing, q) && StartsWith(prefix, q)
      case Gap(gap) => forall id, s :: FullId(id) && StartsWith(id, gap) && s in shards ==> !Selects(s, id)
  {
    ErrorExplained(shards);
    var sorted := SortEntries(Entries(shards));
    SortEntriesSorted(Entries(shards));
    match Check(shards).value
    case Overlap(prefix, existing, name) =>
      var i, j :| 0 <= i < j < |sorted| && sorted[j] == Entry(prefix, name) && sorted[i].name == existing
        && StartsWith(prefix, sorted[i].prefix) && NoneExtends(sorted[..j]);
      assert sorted[i] in sorted && sorted[j] in sorted;
      EntriesMeaning(shards, sorted[i]);
      EntriesMeaning(shards, sorted[j]);
      assert Lists(shards, existing, sorted[i].prefix);
    case Gap(gap) =>
      forall id, s | FullId(id) && StartsWith(id, gap) && s in shards ensures !Selects(s, id) {
        SortKeepsMatching(Entries(shards), id);
        SelectedMeaning(shards, id);
        assert |Selected(shards, id)| == 0;
      }
  }

  // ----- which ids are covered -----

  /** The `k`-th prefix of the `i`-th shard is a prefix of the id. */
  predicate Covers(shards: seq<Shard>, i: nat, k: nat, id: string) {
    i < |shards| && k < |shards[i].prefixes| && StartsWith(id, shards[i].prefixes[k])
  }

  ghost predicate Uncovered(shards: seq<Shard>, id: string) { forall i: nat, k: nat :: !Covers(shards, i, k, id) }

  ghost predicate OnlyAt(shards: seq<Shard>, i: nat, k: nat, id: string) {
    Covers(shards, i, k, id) && forall j: nat, l: nat :: Covers(shards, j, l, id) ==> j == i && l == k
  }

  /** Exactly one listed prefix is a prefix of the id. */
  ghost predicate CoveredOnce(shards: seq<Shard>, id: string) {
    exists i: nat, k: nat :: OnlyAt(shards, i, k, id)
  }

  lemma OwnMatches(s: Shard, id: string)
    ensures var count := Matching(ShardEntries(s.name, s.prefixes), id);
      && (count == 0 <==> Uncovered([s], id))
      && (count == 1 <==> CoveredOnce([s], id))
  {
    var own := ShardEntries(s.name, s.prefixes);
    ShardEntriesMeaning(s.name, s.prefixes);
    if Matching(own, id) >= 1 {
      var k := MatchingSome(own, id);
      assert Covers([s], 0, k, id);
      if Matching(own, id) >= 2 {
        var l, m := MatchingPair(own, id);
        assert Covers([s], 0, l, id) && Covers([s], 0, m, id);
      } else {
        forall j: nat, l: nat | Covers([s], j, l, id) ensures j == 0 && l == k {
          if l < k { MatchingTwo(own, id, l, k); }
          if k < l { MatchingTwo(own, id, k, l); }
        }
        assert OnlyAt([s], 0, k, id);
      }
    } else {
      forall i: nat, k: nat ensures !Covers([s], i, k, id) { if Covers([s], i, k, id) { MatchingOne(own, id, k); } }
    }
  }

  lemma CoversStep(shards: seq<Shard>, id: string)
    requires shards != []
    ensures Uncovered(shards, id) <==> Uncovered(shards[..1], id) && Uncovered(shards[1..], id)
    ensures CoveredOnce(shards, id) <==>
      || (CoveredOnce(shards[..1], id) && Uncovered(shards[1..], id))
      || (Uncovered(shards[..1], id) && CoveredOnce(shards[1..], id))
  {
    var first, rest := shards[..1], shards[1..];
    forall i: nat, k: nat
      ensures Covers(shards, i, k, id) <==> if i == 0 then Covers(first, 0, k, id) else Covers(rest, i - 1, k, id)
    {}
    forall i: nat, k: nat ensures Covers(rest, i, k, id) <==> Covers(shards, i + 1, k, id) {}
    forall i: nat, k: nat ensures Covers(first, i, k, id) <==> i == 0 && Covers(shards, 0, k, id) {}
    if CoveredOnce(shards, id) {
      var i: nat, k: nat :| OnlyAt(shards, i, k, id);
      if i == 0 { assert OnlyAt(first, 0, k, id); } else { assert OnlyAt(rest, i - 1, k, id); }
    }
    if CoveredOnce(first, id) && Uncovered(rest, id) {
      var i: nat, k: nat :| OnlyAt(first, i, k, id);
      assert OnlyAt(shards, 0, k, id);
    }
    if Uncovered(first, id) && CoveredOnce(rest, id) {
      var i: nat, k: nat :| OnlyAt(rest, i, k, id);
      assert OnlyAt(shards, i + 1, k, id);
    }
  }

  lemma {:induction false} MatchesOnShards(shards: seq<Shard>, id: string)
    ensures Matching(Entries(shards), id) == 0 <==> Uncovered(shards, id)
    ensures Matching(Entries(shards), id) == 1 <==> CoveredOnce(shards, id)
  {
    if shards != [] {
      var s := shards[0];
      hide Covers, StartsWith, CoveredOnce, Uncovered;
      assert shards[..1] == [s];
      OwnMatches(s, id);
      MatchesOnShards(shards[1..], id);
      ShardPartition.MatchingAppend(ShardEntries(s.name, s.prefixes), Entries(shards[1..]), id);
      CoversStep(shards, id);
    }
  }

  /** The partition is accepted exactly when every full id has exactly one listed prefix. */
  lemma CheckOnShards(shards: seq<Shard>)
    requires WellFormed(shards)
    ensures Check(shards).None? <==> forall id :: FullId(id) ==> CoveredOnce(shards, id)
  {
    hide CoveredOnce;
    CheckExact(shards);
    forall id ensures Matching(Entries(shards), id) == 1 <==> CoveredOnce(shards, id) { MatchesOnShards(shards, id); }
    assert EachIdOnce(Entries(shards)) <==> forall id :: FullId(id) ==> CoveredOnce(shards, id);
  }

  // ----- assignment -----

  /** The shard at this index lists a prefix of the id. */
  predicate SelectsAt(shards: seq<Shard>, i: int, id: string) {
    0 <= i < |shards| && exists p :: p in shards[i].prefixes && StartsWith(id, p)
  }

  function Selecting(shards: seq<Shard>, id: string): set<int> {
    set i | 0 <= i < |shards| && SelectsAt(shards, i, id)
  }

  lemma {:induction false} SelectedAppend(shards: seq<Shard>, last: Shard, id: string)
    ensures Selected(shards + [last], id) == Selected(shards, id) + if Selects(last, id) then [last] else []
  {
    if shards != [] {
      SelectedAppend(shards[1..], last, id);
      assert (shards + [last])[1..] == shards[1..] + [last];
    }
  }

  lemma SelectingAppend(shards: seq<Shard>, last: Shard, id: string)
    ensures Selecting(shards + [last], id) == Selecting(shards, id) + if Selects(last, id) then {|shards|} else {}
    ensures |shards| !in Selecting(shards, id)
  {
    forall i ensures SelectsAt(shards + [last], i, id) <==>
      SelectsAt(shards, i, id) || (i == |shards| && Selects(last, id)) {}
  }

  lemma {:induction false} SelectedCount(shards: seq<Shard>, id: string)
    ensures |Selected(shards, id)| == |Selecting(shards, id)|
  {
    if shards != [] {
      var init, last := shards[..|shards| - 1], shards[|shards| - 1];
      assert shards == init + [last];
      SelectedAppend(init, last, id);
      SelectingAppend(init, last, id);
      SelectedCount(init, id);
    }
    hide Selects;
  }

  lemma TheOnlyOne(s: set<int>, i: int)
    requires |s| == 1 && i in s
    ensures s == {i}
  {
    assert |s - {i}| == 0;
  }

  /** An id is assigned to the only shard that lists a prefix of it; otherwise the error counts these shards. */
  lemma AssignmentExactly(shards: seq<Shard>, id: string)
    ensures match Assignment(shards, id)
      case Ok(s) => exists i :: Selecting(shards, id) == {i} && s == shards[i]
      case Err(count) => count == |Selecting(shards, id)| != 1
  {
    SelectedCount(shards, id);
    var selected := Selected(shards, id);
    if |selected| == 1 {
      SelectedMeaning(shards, id);
      assert selected[0] in selected;
      var i :| 0 <= i < |shards| && shards[i] == selected[0];
      assert i in Selecting(shards, id);
      TheOnlyOne(Selecting(shards, id), i);
    }
  }
}
