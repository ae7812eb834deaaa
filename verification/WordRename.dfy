/** Whole-word search and replacement on UTF-8 bytes (src/application/lsp.rs). */
module WordRename {
  import opened ByteStrings

  /** An ASCII letter or digit, `_` or `-`. */
  predicate WordByte(b: Byte) {
    0x30 <= b <= 0x39 || 0x41 <= b <= 0x5A || 0x61 <= b <= 0x7A || b == 0x5F || b == 0x2D
  }

  predicate Word(w: Bytes) { w != [] && forall i :: 0 <= i < |w| ==> WordByte(w[i]) }

  predicate Identifier(value: Bytes) { Word(value) && |value| <= 128 }

  predicate Matches(text: Bytes, word: Bytes, i: nat) {
    i + |word| <= |text| && text[i..i + |word|] == word
  }

  lemma MatchAt(text: Bytes, word: Bytes, i: nat, k: nat)
    requires Matches(text, word, i) && k < |word|
    ensures text[i + k] == word[k]
  {
    assert text[i..i + |word|][k] == text[i + k];
  }

  predicate BoundaryBefore(text: Bytes, i: nat)
    requires i <= |text|
  {
    i > 0 ==> !WordByte(text[i - 1])
  }

  predicate BoundaryAfter(text: Bytes, i: nat)
    requires i <= |text|
  {
    i < |text| ==> !WordByte(text[i])
  }

  /** A whole-word occurrence. */
  predicate Whole(text: Bytes, word: Bytes, i: nat) {
    Matches(text, word, i) && BoundaryBefore(text, i) && BoundaryAfter(text, i + |word|)
  }

  lemma WholeMatch(text: Bytes, word: Bytes, i: nat)
    requires Matches(text, word, i)
    ensures Whole(text, word, i) <==> BoundaryBefore(text, i) && BoundaryAfter(text, i + |word|)
  {}

  // ----- search -----

  /** `text[from..].find(word)`, as an index into `text`; `|text| + 1` when there is none. */
  function Find(text: Bytes, word: Bytes, from: nat): nat
    decreases |text| - from
  {
    if from + |word| > |text| then |text| + 1
    else if Matches(text, word, from) then from
    else Find(text, word, from + 1)
  }

  lemma {:induction false} FindFirst(text: Bytes, word: Bytes, from: nat)
    ensures var i := Find(text, word, from);
      && (i <= |text| ==> from <= i && Matches(text, word, i))
      && forall j :: from <= j < i ==> !Matches(text, word, j)
    decreases |text| - from
  {
    if from + |word| <= |text| && !Matches(text, word, from) { FindFirst(text, word, from + 1); }
  }

  /** The scan from `cursor`, which jumps past every match, whole or rejected. */
  function Scan(text: Bytes, word: Bytes, cursor: nat): seq<nat>
    requires word != []
    decreases |text| + 1 - cursor
  {
    var i := Find(text, word, cursor);
    FindFirst(text, word, cursor);
    if i > |text| then []
    else (if Whole(text, word, i) then [i] else []) + Scan(text, word, i + |word|)
  }

  ghost predicate SpansOf(spans: seq<(nat, nat)>, starts: seq<nat>, length: nat) {
    |spans| == |starts| && forall k :: 0 <= k < |spans| ==> spans[k] == (starts[k], starts[k] + length)
  }

  lemma ScanOnce(text: Bytes, word: Bytes, cursor: nat)
    requires word != []
    ensures var i := Find(text, word, cursor);
      if i > |text| then Scan(text, word, cursor) == []
      else
        && cursor <= i && Matches(text, word, i)
        && Scan(text, word, cursor) == (if Whole(text, word, i) then [i] else []) + Scan(text, word, i + |word|)
  {
    hide Whole, Find;
    FindFirst(text, word, cursor);
  }

  lemma AppendNested(a: seq<nat>, b: seq<nat>, c: seq<nat>)
    ensures (a + b) + c == a + (b + c)
  {}

  method WordSpans(text: Bytes, word: Bytes) returns (spans: seq<(nat, nat)>)
    ensures word == [] ==> spans == []
    ensures word != [] ==> SpansOf(spans, Scan(text, word, 0), |word|)
  {
    hide Whole, Find, Scan;
    spans := [];
    if word == [] { return; }
    var cursor := 0;
    ghost var starts: seq<nat> := [];
    while Find(text, word, cursor) <= |text|
      invariant starts + Scan(text, word, cursor) == Scan(text, word, 0)
      invariant SpansOf(spans, starts, |word|)
      decreases |text| + 1 - cursor
    {
      ScanOnce(text, word, cursor);
      var start := Find(text, word, cursor);
      var stop := start + |word|;
      WholeMatch(text, word, start);
      AppendNested(starts, if Whole(text, word, start) then [start] else [], Scan(text, word, stop));
      if BoundaryBefore(text, start) && BoundaryAfter(text, stop) {
        spans := spans + [(start, stop)];
        starts := starts + [start];
      }
      cursor := stop;
    }
    ScanOnce(text, word, cursor);
  }

  /** All whole-word occurrences at or after `i`, in ascending order. */
  function Occurrences(text: Bytes, word: Bytes, i: nat): seq<nat>
    decreases |text| + 1 - i
  {
    if i > |text| then []
    else (if Whole(text, word, i) then [i] else []) + Occurrences(text, word, i + 1)
  }

  lemma {:induction false} OccurrencesMeaning(text: Bytes, word: Bytes, i: nat)
    ensures forall j: nat :: j in Occurrences(text, word, i) <==> i <= j && Whole(text, word, j)
    ensures forall k, l :: 0 <= k < l < |Occurrences(text, word, i)| ==>
      Occurrences(text, word, i)[k] < Occurrences(text, word, i)[l]
    decreases |text| + 1 - i
  {
    hide Whole;
    forall j: nat | Whole(text, word, j) ensures j <= |text| { WholeInText(text, word, j); }
    if i <= |text| {
      OccurrencesMeaning(text, word, i + 1);
      var rest := Occurrences(text, word, i + 1);
      forall l | 0 <= l < |rest| ensures i < rest[l] { assert rest[l] in rest; }
    }
  }

  lemma OccurrencesStep(text: Bytes, word: Bytes, i: nat)
    ensures i <= |text| ==>
      Occurrences(text, word, i) == (if Whole(text, word, i) then [i] else []) + Occurrences(text, word, i + 1)
    ensures Occurrences(text, word, |text| + 1) == []
  {}

  lemma NotWhole(text: Bytes, word: Bytes, i: nat)
    requires i <= |text| && (Matches(text, word, i) ==> !BoundaryBefore(text, i))
    ensures !Whole(text, word, i)
  {}

  lemma {:induction false} SkipNone(text: Bytes, word: Bytes, i: nat, j: nat)
    requires i <= j <= |text| + 1 && forall k :: i <= k < j ==> !Whole(text, word, k)
    ensures Occurrences(text, word, i) == Occurrences(text, word, j)
    decreases j - i
  {
    if i < j { SkipNone(text, word, i + 1, j); }
  }

  /** Where the search word overlaps itself by a shift of `k`, the byte before the second copy is a word byte. */
  predicate SafeOverlaps(word: Bytes) {
    forall k :: 0 < k < |word| && word[k..] == word[..|word| - k] ==> WordByte(word[k - 1])
  }

  /** No occurrence starts inside another match: the byte before it is a word byte. */
  lemma NoneInside(text: Bytes, word: Bytes, i: nat, k: nat)
    requires SafeOverlaps(word) && Matches(text, word, i) && i < k < i + |word|
    ensures Matches(text, word, k) ==> !BoundaryBefore(text, k)
  {
    if Matches(text, word, k) {
      var shift := k - i;
      forall j | 0 <= j < |word| - shift ensures word[shift..][j] == word[..|word| - shift][j] {
        MatchAt(text, word, i, shift + j);
        MatchAt(text, word, k, j);
      }
      assert word[shift..] == word[..|word| - shift];
      MatchAt(text, word, i, shift - 1);
    }
  }

  lemma {:induction false} ScanFinds(text: Bytes, word: Bytes, cursor: nat)
    requires word != [] && SafeOverlaps(word) && cursor <= |text|
    ensures Scan(text, word, cursor) == Occurrences(text, word, cursor)
    decreases |text| - cursor
  {
    hide Whole, WordByte, Find, Occurrences;
    FindFirst(text, word, cursor);
    var i := Find(text, word, cursor);
    forall k | cursor <= k < i && k <= |text| ensures !Whole(text, word, k) { NotWhole(text, word, k); }
    OccurrencesStep(text, word, i);
    if i > |text| {
      SkipNone(text, word, cursor, |text| + 1);
    } else {
      SkipNone(text, word, cursor, i);
      forall k | i < k < i + |word| ensures !Whole(text, word, k) {
        NoneInside(text, word, i, k);
        NotWhole(text, word, k);
      }
      SkipNone(text, word, i + 1, i + |word|);
      ScanFinds(text, word, i + |word|);
    }
  }

  /** The jumping scan misses nothing: for a word it finds exactly all whole-word occurrences. */
  lemma ScanExact(text: Bytes, word: Bytes)
    requires Word(word)
    ensures Scan(text, word, 0) == Occurrences(text, word, 0)
  {
    assert SafeOverlaps(word);
    ScanFinds(text, word, 0);
  }

  lemma ScanStep(text: Bytes, word: Bytes, cursor: nat, i: nat)
    requires word != [] && i in Scan(text, word, cursor)
    ensures var first := Find(text, word, cursor);
      cursor <= first <= |text| && (i == first || i in Scan(text, word, first + |word|))
  {
    hide Whole, Find;
    FindFirst(text, word, cursor);
  }

  lemma {:induction false} ScanAtOrAfter(text: Bytes, word: Bytes, cursor: nat, i: nat)
    requires word != [] && i in Scan(text, word, cursor)
    ensures cursor <= i
    decreases |text| + 1 - cursor
  {
    hide Scan, Find;
    ScanStep(text, word, cursor, i);
    var first := Find(text, word, cursor);
    if i != first { ScanAtOrAfter(text, word, first + |word|, i); }
  }

  /** A text that starts with the word has no reported occurrence inside that first match. */
  lemma InsideFirst(text: Bytes, word: Bytes, k: nat)
    requires 0 < k < |word| <= |text| && text[..|word|] == word
    ensures k !in Scan(text, word, 0)
  {
    hide Scan, Whole;
    assert Find(text, word, 0) == 0;
    if k in Scan(text, word, 0) {
      ScanStep(text, word, 0, k);
      ScanAtOrAfter(text, word, |word|, k);
    }
  }

  lemma OverlapText(word: Bytes, k: nat)
    requires 0 < k < |word| && word[k..] == word[..|word| - k]
    ensures var text := word[..k] + word;
      text[..|word|] == word && text[k..k + |word|] == word && text[k - 1] == word[k - 1]
  {
    var text := word[..k] + word;
    assert text[..|word|] == word[..k] + word[..|word| - k] == word[..k] + word[k..];
  }

  /** The text `word[..k] + word` holds an occurrence at `k` inside the first match. */
  lemma OverlapMissed(word: Bytes, k: nat)
    requires 0 < k < |word| && word[k..] == word[..|word| - k] && !WordByte(word[k - 1])
    ensures Whole(word[..k] + word, word, k) && k !in Scan(word[..k] + word, word, 0)
  {
    hide Scan, WordByte;
    var text := word[..k] + word;
    OverlapText(word, k);
    InsideFirst(text, word, k);
  }

  ghost predicate NeverMisses(word: Bytes)
    requires word != []
  {
    forall text: Bytes :: Scan(text, word, 0) == Occurrences(text, word, 0)
  }

  /** The scan finds all whole-word occurrences in every text exactly when the search word never overlaps
      itself behind a byte that is not a word byte. */
  lemma ScanCompleteExactly(word: Bytes)
    requires word != []
    ensures NeverMisses(word) <==> SafeOverlaps(word)
  {
    if SafeOverlaps(word) {
      forall text: Bytes ensures Scan(text, word, 0) == Occurrences(text, word, 0) { ScanFinds(text, word, 0); }
    } else {
      var k :| 0 < k < |word| && word[k..] == word[..|word| - k] && !WordByte(word[k - 1]);
      OverlapMissed(word, k);
      OccurrencesMeaning(word[..k] + word, word, 0);
      assert Scan(word[..k] + word, word, 0) != Occurrences(word[..k] + word, word, 0);
    }
  }

  /** Consecutive spans are disjoint. */
  lemma OccurrencesDisjoint(text: Bytes, word: Bytes, i: nat, j: nat)
    requires Word(word) && Whole(text, word, i) && Whole(text, word, j) && i < j
    ensures i + |word| < j
  {
    if j < i + |word| { NoneInside(text, word, i, j); }
    MatchAt(text, word, i, |word| - 1);
  }

  /** Of the search words with other characters, `a.b` is always found and `a.a` is not: it overlaps itself
      behind the dot, and in `a.a.a` the second occurrence is missed (bytes 61 2E 61 2E 61). */
  lemma DottedWords()
    ensures var found: Bytes, missed: Bytes := [0x61, 0x2E, 0x62], [0x61, 0x2E, 0x61];
      NeverMisses(found) && !NeverMisses(missed) && Whole(missed[..2] + missed, missed, 2)
  {
    var found: Bytes, missed: Bytes := [0x61, 0x2E, 0x62], [0x61, 0x2E, 0x61];
    assert found[1..][0] != found[..2][0] && found[2..][0] != found[..1][0];
    ScanCompleteExactly(found);
    assert missed[2..] == missed[..1];
    ScanCompleteExactly(missed);
    OverlapMissed(missed, 2);
  }

  // ----- replacement -----

  /** Every whole-word occurrence of `old'` from `i` on is replaced. */
  function Renamed(text: Bytes, old': Bytes, new': Bytes, i: nat): Bytes
    requires old' != [] && i <= |text|
    decreases |text| - i
  {
    if i == |text| then []
    else if Whole(text, old', i) then new' + Renamed(text, old', new', i + |old'|)
    else [text[i]] + Renamed(text, old', new', i + 1)
  }

  lemma {:induction false} Verbatim(text: Bytes, old': Bytes, new': Bytes, i: nat, j: nat)
    requires old' != [] && i <= j <= |text| && forall k :: i <= k < j ==> !Whole(text, old', k)
    ensures Renamed(text, old', new', i) == text[i..j] + Renamed(text, old', new', j)
    decreases j - i
  {
    hide Whole;
    if i < j {
      Verbatim(text, old', new', i + 1, j);
      assert text[i..j] == [text[i]] + text[i + 1..j];
      var rest := Renamed(text, old', new', j);
      assert ([text[i]] + text[i + 1..j]) + rest == [text[i]] + (text[i + 1..j] + rest);
    }
  }

  function ReplaceRange(text: Bytes, start: nat, stop: nat, by_: Bytes): Bytes
    requires start <= stop <= |text|
  {
    text[..start] + by_ + text[stop..]
  }

  lemma BetweenStarts(starts: seq<nat>, text: Bytes, word: Bytes, k: nat, j: nat)
    requires starts == Occurrences(text, word, 0) && k <= |starts|
    requires (k > 0 ==> starts[k - 1] < j) && (k < |starts| ==> j < starts[k])
    ensures !Whole(text, word, j)
  {
    hide Whole, Occurrences;
    OccurrencesMeaning(text, word, 0);
    forall l | 0 <= l < |starts| ensures starts[l] != j {
      assert l < k - 1 ==> starts[l] < starts[k - 1];
      assert k < l ==> starts[k] < starts[l];
    }
  }

  /** Where the `k`-th occurrence starts; the end of the text after the last one. */
  function StartOf(starts: seq<nat>, text: Bytes, k: nat): nat
    requires k <= |starts|
  {
    if k < |starts| then starts[k] else |text|
  }

  lemma UpToStart(starts: seq<nat>, text: Bytes, old': Bytes, new': Bytes, k: nat)
    requires Word(old') && starts == Occurrences(text, old', 0) && k < |starts|
    ensures Whole(text, old', starts[k]) && starts[k] + |old'| <= StartOf(starts, text, k + 1) <= |text|
    ensures var stop, next := starts[k] + |old'|, StartOf(starts, text, k + 1);
      Renamed(text, old', new', stop) == text[stop..next] + Renamed(text, old', new', next)
  {
    hide Whole, Renamed, Occurrences;
    OccurrencesMeaning(text, old', 0);
    assert starts[k] in starts;
    WholeInText(text, old', starts[k]);
    if k + 1 < |starts| {
      assert starts[k + 1] in starts;
      WholeInText(text, old', starts[k + 1]);
      OccurrencesDisjoint(text, old', starts[k], starts[k + 1]);
    }
    var stop, next := starts[k] + |old'|, StartOf(starts, text, k + 1);
    forall j | stop <= j < next ensures !Whole(text, old', j) { BetweenStarts(starts, text, old', k + 1, j); }
    Verbatim(text, old', new', stop, next);
  }

  lemma WholeInText(text: Bytes, word: Bytes, i: nat)
    requires Whole(text, word, i)
    ensures i + |word| <= |text|
  {}

  /** The occurrences from the `k`-th on have been replaced. */
  ghost predicate Staged(staged: Bytes, starts: seq<nat>, text: Bytes, old': Bytes, new': Bytes, k: nat)
    requires old' != []
  {
    k <= |starts| && StartOf(starts, text, k) <= |text|
    && staged == text[..StartOf(starts, text, k)] + Renamed(text, old', new', StartOf(starts, text, k))
  }

  lemma StageFirst(starts: seq<nat>, text: Bytes, old': Bytes, new': Bytes)
    requires old' != []
    ensures Staged(text, starts, text, old', new', |starts|)
  {
    RenamedAtEnd(text, old', new');
    assert text[..|text|] + [] == text;
  }

  lemma StageStep(staged: Bytes, starts: seq<nat>, text: Bytes, old': Bytes, new': Bytes, k: nat)
    requires Word(old') && starts == Occurrences(text, old', 0) && k < |starts|
    requires Staged(staged, starts, text, old', new', k + 1)
    ensures starts[k] + |old'| <= |staged|
    ensures Staged(ReplaceRange(staged, starts[k], starts[k] + |old'|, new'), starts, text, old', new', k)
  {
    hide Whole, Renamed, Occurrences;
    UpToStart(starts, text, old', new', k);
    var start, stop, next := starts[k], starts[k] + |old'|, StartOf(starts, text, k + 1);
    RenamedAt(text, old', new', start);
  }

  lemma StageLast(staged: Bytes, starts: seq<nat>, text: Bytes, old': Bytes, new': Bytes)
    requires Word(old') && starts == Occurrences(text, old', 0) && Staged(staged, starts, text, old', new', 0)
    ensures staged == Renamed(text, old', new', 0)
  {
    hide Whole, Renamed, Occurrences;
    var first := StartOf(starts, text, 0);
    forall j | 0 <= j < first ensures !Whole(text, old', j) { BetweenStarts(starts, text, old', 0, j); }
    Verbatim(text, old', new', 0, first);
    assert text[0..first] == text[..first];
  }

  /** The edits are applied from the last to the first, so earlier offsets stay right. */
  method Rename(text: Bytes, old': Bytes, new': Bytes) returns (staged: Bytes)
    requires Word(old')
    ensures staged == Renamed(text, old', new', 0)
  {
    hide Whole, WordByte, Scan, Occurrences, Staged, Renamed;
    var spans := WordSpans(text, old');
    ScanExact(text, old');
    ghost var starts := Occurrences(text, old', 0);
    staged := text;
    var k := |spans|;
    StageFirst(starts, text, old', new');
    while k > 0
      invariant 0 <= k <= |spans| && Staged(staged, starts, text, old', new', k)
    {
      k := k - 1;
      var (start, stop) := spans[k];
      StageStep(staged, starts, text, old', new', k);
      staged := ReplaceRange(staged, start, stop, new');
    }
    StageLast(staged, starts, text, old', new');
  }

  lemma RenamedAt(text: Bytes, old': Bytes, new': Bytes, i: nat)
    requires Word(old') && Whole(text, old', i)
    ensures i + |old'| <= |text| && Renamed(text, old', new', i) == new' + Renamed(text, old', new', i + |old'|)
  {}

  // ----- renaming there and back -----

  /** Two whole words at one place are the same word. */
  lemma OneWordPerPlace(text: Bytes, v: Bytes, w: Bytes, i: nat)
    requires Word(v) && Word(w) && Whole(text, v, i) && Whole(text, w, i)
    ensures v == w
  {
    if |v| < |w| { MatchAt(text, w, i, |v|); }
    if |w| < |v| { MatchAt(text, v, i, |w|); }
  }

  predicate EndsInWord(p: Bytes) { p != [] && WordByte(p[|p| - 1]) }

  /** The renamed rest is empty only at the end, and where no word starts it begins as the text does. */
  lemma RestHead(text: Bytes, old': Bytes, new': Bytes, i: nat)
    requires old' != [] && new' != [] && i <= |text|
    ensures Renamed(text, old', new', i) == [] <==> i == |text|
    ensures i < |text| && !Whole(text, old', i) ==> Renamed(text, old', new', i)[0] == text[i]
  {}

  /** Inside a run of word bytes the renamed rest copies the text. */
  lemma {:induction false} RunCopied(text: Bytes, old': Bytes, new': Bytes, i: nat, n: nat)
    requires Word(old') && new' != [] && i <= |text| && !Whole(text, old', i)
    requires n <= |Renamed(text, old', new', i)|
    requires forall k :: 0 <= k < n ==> WordByte(Renamed(text, old', new', i)[k])
    ensures i + n <= |text| && Renamed(text, old', new', i) == text[i..i + n] + Renamed(text, old', new', i + n)
    ensures n > 0 ==> WordByte(text[i + n - 1])
    decreases n
  {
    hide Renamed, Whole;
    RestHead(text, old', new', i);
    if n > 0 {
      var rest := Renamed(text, old', new', i + 1);
      RenamedSkip(text, old', new', i);
      assert WordByte(Renamed(text, old', new', i)[0]);
      forall k | 0 <= k < n - 1 ensures WordByte(rest[k]) { assert rest[k] == Renamed(text, old', new', i)[k + 1]; }
      if i + 1 <= |text| { NotWhole(text, old', i + 1); }
      RunCopied(text, old', new', i + 1, n - 1);
      assert text[i..i + n] == [text[i]] + text[i + 1..i + n];
      Regroup([text[i]], text[i + 1..i + n], Renamed(text, old', new', i + n));
    }
  }

  lemma BoundaryCarried(p: Bytes, rest: Bytes, text: Bytes, i: nat)
    requires i <= |text| && (EndsInWord(p) <==> EndsInWord(text[..i]))
    ensures BoundaryBefore(p + rest, |p|) <==> BoundaryBefore(text, i)
  {
    if |p| > 0 { assert (p + rest)[|p| - 1] == p[|p| - 1]; }
    if i > 0 { assert text[..i][i - 1] == text[i - 1]; }
  }

  lemma ShiftedMatch(p: Bytes, rest: Bytes, word: Bytes)
    ensures Matches(p + rest, word, |p|) <==> Matches(rest, word, 0)
    ensures Matches(rest, word, 0) ==> (BoundaryAfter(p + rest, |p| + |word|) <==> BoundaryAfter(rest, |word|))
  {
    if |word| <= |rest| { assert (p + rest)[|p|..|p| + |word|] == rest[..|word|] == rest[0..|word|]; }
    if |word| < |rest| { assert (p + rest)[|p| + |word|] == rest[|word|]; }
  }

  /** A new word at the head of the renamed rest was there before. */
  lemma HeadWasNew(text: Bytes, old': Bytes, new': Bytes, i: nat)
    requires Word(old') && Word(new') && i <= |text| && !Whole(text, old', i) && BoundaryBefore(text, i)
    requires var rest := Renamed(text, old', new', i); Matches(rest, new', 0) && BoundaryAfter(rest, |new'|)
    ensures Whole(text, new', i)
  {
    hide Renamed, Whole;
    var rest, n := Renamed(text, old', new', i), |new'|;
    forall k | 0 <= k < n ensures WordByte(rest[k]) { MatchAt(rest, new', 0, k); }
    hide WordByte;
    RunCopied(text, old', new', i, n);
    var tail := Renamed(text, old', new', i + n);
    assert rest[0..n] == text[i..i + n];
    if i + n < |text| {
      NotWhole(text, old', i + n);
      RestHead(text, old', new', i + n);
      assert rest[n] == tail[0];
    }
    WholeMatch(text, new', i);
  }

  lemma HeadStaysNew(text: Bytes, old': Bytes, new': Bytes, i: nat)
    requires Word(old') && Word(new') && Whole(text, new', i) && !Whole(text, old', i)
    ensures var rest := Renamed(text, old', new', i); Matches(rest, new', 0) && BoundaryAfter(rest, |new'|)
  {
    hide Renamed;
    NewStep(text, old', new', i);
    var n, rest := |new'|, Renamed(text, old', new', i);
    assert rest[0..n] == new';
    RestHead(text, old', new', i + n);
    if n < |rest| { assert rest[n] == Renamed(text, old', new', i + n)[0]; }
  }

  /** At a place that is not an old word, the renamed text has a new word exactly when the text has. */
  lemma NewWordKept(p: Bytes, text: Bytes, old': Bytes, new': Bytes, i: nat)
    requires Word(old') && Word(new') && i <= |text| && !Whole(text, old', i)
    requires EndsInWord(p) <==> EndsInWord(text[..i])
    ensures Whole(p + Renamed(text, old', new', i), new', |p|) <==> Whole(text, new', i)
  {
    hide Renamed, EndsInWord, BoundaryBefore, BoundaryAfter;
    var rest := Renamed(text, old', new', i);
    BoundaryCarried(p, rest, text, i);
    ShiftedMatch(p, rest, new');
    if Matches(rest, new', 0) && BoundaryAfter(rest, |new'|) && BoundaryBefore(text, i) {
      HeadWasNew(text, old', new', i);
    }
    if Whole(text, new', i) { HeadStaysNew(text, old', new', i); }
  }

  lemma RenamedSkip(text: Bytes, old': Bytes, new': Bytes, i: nat)
    requires old' != [] && i < |text| && !Whole(text, old', i)
    ensures Renamed(text, old', new', i) == [text[i]] + Renamed(text, old', new', i + 1)
  {}

  lemma Regroup(p: Bytes, w: Bytes, tail: Bytes)
    ensures p + (w + tail) == (p + w) + tail
  {}

  lemma SkipBoth(p: Bytes, text: Bytes, old': Bytes, new': Bytes, i: nat)
    requires Word(old') && Word(new') && i < |text| && !Whole(text, old', i)
    requires EndsInWord(p) <==> EndsInWord(text[..i])
    ensures p + Renamed(text, old', new', i) == (p + [text[i]]) + Renamed(text, old', new', i + 1)
    ensures EndsInWord(p + [text[i]]) <==> EndsInWord(text[..i + 1])
    ensures (p + Renamed(text, old', new', i))[|p|] == text[i]
  {
    hide Whole, Renamed;
    RenamedSkip(text, old', new', i);
    Regroup(p, [text[i]], Renamed(text, old', new', i + 1));
    assert text[..i + 1] == text[..i] + [text[i]];
  }

  /** After renaming `old'` to `new'`, renaming `new'` back to `old'` has the same effect as renaming
      `new'` to `old'` in the original text. */
  lemma {:induction false} RenameBack(p: Bytes, text: Bytes, old': Bytes, new': Bytes, i: nat)
    requires Word(old') && Word(new') && old' != new' && i <= |text|
    requires EndsInWord(p) <==> EndsInWord(text[..i])
    ensures var whole := p + Renamed(text, old', new', i);
      Renamed(whole, new', old', |p|) == Renamed(text, new', old', i)
    decreases |text| - i
  {
    hide Whole, WordByte, Renamed, EndsInWord;
    var whole := p + Renamed(text, old', new', i);
    if i == |text| {
      RenamedAtEnd(text, old', new');
      RenamedAtEnd(text, new', old');
      assert whole == p;
      RenamedAtEnd(whole, new', old');
    } else if Whole(text, old', i) {
      RenamedAt(text, old', new', i);
      OldBecomesNew(p, text, old', new', i);
      RenamedAt(whole, new', old', |p|);
      Regroup(p, new', Renamed(text, old', new', i + |old'|));
      WordEnd(text, old', i);
      WordEnd(whole, new', |p|);
      RenameBack(p + new', text, old', new', i + |old'|);
      OldKept(text, old', new', i);
    } else {
      NewWordKept(p, text, old', new', i);
      if Whole(text, new', i) {
        NewStep(text, old', new', i);
        RenamedAt(whole, new', old', |p|);
        RenamedAt(text, new', old', i);
        Regroup(p, new', Renamed(text, old', new', i + |new'|));
        WordEnd(text, new', i);
        RenameBack(p + new', text, old', new', i + |new'|);
      } else {
        SkipBoth(p, text, old', new', i);
        RenameBack(p + [text[i]], text, old', new', i + 1);
        RenamedSkip(whole, new', old', |p|);
        RenamedSkip(text, new', old', i);
      }
    }
  }

  lemma WordEnd(text: Bytes, word: Bytes, i: nat)
    requires Word(word) && Whole(text, word, i)
    ensures EndsInWord(text[..i + |word|])
    ensures forall p: Bytes :: EndsInWord(p + word)
  {
    MatchAt(text, word, i, |word| - 1);
    forall p: Bytes ensures EndsInWord(p + word) { assert (p + word)[|p + word| - 1] == word[|word| - 1]; }
  }

  lemma OldBecomesNew(p: Bytes, text: Bytes, old': Bytes, new': Bytes, i: nat)
    requires Word(old') && Word(new') && Whole(text, old', i)
    requires EndsInWord(p) <==> EndsInWord(text[..i])
    ensures Whole(p + Renamed(text, old', new', i), new', |p|)
  {
    RenamedAt(text, old', new', i);
    var j, rest := i + |old'|, Renamed(text, old', new', i);
    var whole := p + rest;
    assert BoundaryBefore(text, i) && BoundaryAfter(text, j);
    hide Whole, Renamed;
    assert whole[|p|..|p| + |new'|] == new';
    if |p| > 0 { assert whole[|p| - 1] == p[|p| - 1]; }
    RestHead(text, old', new', j);
    if j < |text| {
      NotWhole(text, old', j);
      assert whole[|p| + |new'|] == Renamed(text, old', new', j)[0];
    }
    WholeMatch(whole, new', |p|);
  }

  /** Renaming the other word copies an old word. */
  lemma OldKept(text: Bytes, old': Bytes, new': Bytes, i: nat)
    requires Word(old') && Word(new') && old' != new' && Whole(text, old', i)
    ensures i + |old'| <= |text| && Renamed(text, new', old', i) == old' + Renamed(text, new', old', i + |old'|)
  {
    hide Renamed;
    var j := i + |old'|;
    forall k | i <= k < j ensures !Whole(text, new', k) {
      if k > i { NoneInside(text, old', i, k); } else if Whole(text, new', i) { OneWordPerPlace(text, old', new', i); }
    }
    Verbatim(text, new', old', i, j);
  }

  lemma NewStep(text: Bytes, old': Bytes, new': Bytes, i: nat)
    requires Word(old') && Word(new') && Whole(text, new', i) && !Whole(text, old', i)
    ensures i + |new'| <= |text| && Renamed(text, old', new', i) == new' + Renamed(text, old', new', i + |new'|)
  {
    hide Renamed;
    forall k | i <= k < i + |new'| ensures !Whole(text, old', k) { if k > i { NoneInside(text, new', i, k); } }
    Verbatim(text, old', new', i, i + |new'|);
  }

  lemma {:induction false} RenameToItself(text: Bytes, word: Bytes, i: nat)
    requires word != [] && i <= |text|
    ensures Renamed(text, word, word, i) == text[i..]
    decreases |text| - i
  {
    if i < |text| {
      if Whole(text, word, i) {
        RenameToItself(text, word, i + |word|);
        assert text[i..] == text[i..i + |word|] + text[i + |word|..];
      } else {
        RenameToItself(text, word, i + 1);
      }
    }
  }

  ghost predicate Occurs(text: Bytes, word: Bytes) { exists i: nat :: Whole(text, word, i) }

  /** A rename to another word leaves the text as it is exactly when the word does not occur. */
  lemma RenameChangesExactly(text: Bytes, old': Bytes, new': Bytes)
    requires Word(old') && Word(new') && old' != new'
    ensures Renamed(text, old', new', 0) == text <==> !Occurs(text, old')
  {
    hide Renamed;
    if Occurs(text, old') {
      var i := FirstOccurrence(text, old');
      Verbatim(text, old', new', 0, i);
      assert text[0..i] == text[..i];
      assert EndsInWord(text[..i]) <==> EndsInWord(text[..i]);
      OldBecomesNew(text[..i], text, old', new', i);
      if Renamed(text, old', new', 0) == text { OneWordPerPlace(text, old', new', i); }
    } else {
      assert Renamed(text, old', new', |text|) == [] by { RenamedAtEnd(text, old', new'); }
      Verbatim(text, old', new', 0, |text|);
      assert text[0..|text|] == text;
    }
  }

  lemma RenamedAtEnd(text: Bytes, old': Bytes, new': Bytes)
    requires old' != []
    ensures Renamed(text, old', new', |text|) == []
  {}

  lemma FirstOccurrence(text: Bytes, word: Bytes) returns (i: nat)
    requires Occurs(text, word)
    ensures Whole(text, word, i) && forall k :: 0 <= k < i ==> !Whole(text, word, k)
  {
    i :| Whole(text, word, i);
    while exists k: nat :: k < i && Whole(text, word, k)
      invariant Whole(text, word, i)
      decreases i
    {
      var k: nat :| k < i && Whole(text, word, k);
      i := k;
    }
  }

  /** Renaming there and back restores the text exactly when the new name was the old one or was not
      already a whole word of the text. */
  lemma RoundTripExactly(text: Bytes, old': Bytes, new': Bytes)
    requires Identifier(old') && Identifier(new')
    ensures Renamed(Renamed(text, old', new', 0), new', old', 0) == text <==> old' == new' || !Occurs(text, new')
  {
    if old' == new' {
      RenameToItself(text, old', 0);
      assert text[0..] == text;
    } else {
      RenameBack([], text, old', new', 0);
      assert [] + Renamed(text, old', new', 0) == Renamed(text, old', new', 0);
      RenameChangesExactly(text, new', old');
    }
  }
}
