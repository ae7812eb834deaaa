/** The differences of two JSON trees as JSON pointers (src/conformance/semantic.rs). */
module SemanticDiff {
  import opened Outcomes
  import opened Orders
  import opened Sequences
  import opened Decimals

  datatype Json =
    | Null
    | Boolean(bit: bool)
    | Integer(number: int)
    | Text(text: string)
    | Array(items: seq<Json>)
    | Object(fields: map<string, Json>)

  // ----- pointer segments -----

  /** `str::replace` of one character by a text. */
  function ReplaceChar(s: string, c: char, with: string): string {
    if s == [] then [] else (if s[0] == c then with else [s[0]]) + ReplaceChar(s[1..], c, with)
  }

  function PointerSegment(value: string): string {
    ReplaceChar(ReplaceChar(value, '~', "~0"), '/', "~1")
  }

  /** Replacement of a two-character text by one character, from left to right. */
  function ReplacePair(s: string, a: char, b: char, with: char): string {
    if |s| < 2 then s
    else if s[0] == a && s[1] == b then [with] + ReplacePair(s[2..], a, b, with)
    else [s[0]] + ReplacePair(s[1..], a, b, with)
  }

  /** Section 4 of RFC 6901: first `~1` becomes `/`, then `~0` becomes `~`. */
  function Unescape(s: string): string {
    ReplacePair(ReplacePair(s, '~', '1', '/'), '~', '0', '~')
  }

  lemma ReplaceFirst(x: char, s: string, c: char, with: string)
    ensures ReplaceChar([x] + s, c, with) == (if x == c then with else [x]) + ReplaceChar(s, c, with)
  {
    assert ([x] + s)[1..] == s;
  }

  lemma {:induction false} SegmentStep(c: char, s: string)
    ensures PointerSegment([c] + s) == (if c == '~' then "~0" else if c == '/' then "~1" else [c]) + PointerSegment(s)
  {
    var rest := ReplaceChar(s, '~', "~0");
    ReplaceFirst(c, s, '~', "~0");
    if c == '~' {
      assert "~0" + rest == ['~'] + (['0'] + rest);
      ReplaceFirst('~', ['0'] + rest, '/', "~1");
      ReplaceFirst('0', rest, '/', "~1");
      assert "~0" + PointerSegment(s) == ['~'] + (['0'] + PointerSegment(s));
    } else {
      ReplaceFirst(c, rest, '/', "~1");
    }
  }

  lemma PairSkips(c: char, s: string, a: char, b: char, with: char)
    requires !(c == a && s != [] && s[0] == b)
    ensures ReplacePair([c] + s, a, b, with) == [c] + ReplacePair(s, a, b, with)
  {
    assert ([c] + s)[1..] == s;
  }

  lemma PairReplaced(s: string, a: char, b: char, with: char)
    ensures ReplacePair([a, b] + s, a, b, with) == [with] + ReplacePair(s, a, b, with)
  {
    assert ([a, b] + s)[2..] == s;
  }

  lemma SlashStep(c: char, tail: string)
    ensures ReplacePair((if c == '~' then "~0" else if c == '/' then "~1" else [c]) + tail, '~', '1', '/')
      == (if c == '~' then "~0" else [c]) + ReplacePair(tail, '~', '1', '/')
  {
    hide ReplacePair;
    if c == '~' {
      PairSkips('~', ['0'] + tail, '~', '1', '/');
      PairSkips('0', tail, '~', '1', '/');
      assert "~0" + tail == ['~'] + (['0'] + tail);
    } else if c == '/' {
      PairReplaced(tail, '~', '1', '/');
    } else {
      PairSkips(c, tail, '~', '1', '/');
    }
  }

  lemma {:induction false} SlashesRestored(s: string)
    ensures ReplacePair(PointerSegment(s), '~', '1', '/') == ReplaceChar(s, '~', "~0")
  {
    if s != [] {
      var c, rest := s[0], s[1..];
      assert s == [c] + rest;
      SegmentStep(c, rest);
      SlashesRestored(rest);
      ReplaceFirst(c, rest, '~', "~0");
      hide ReplacePair, PointerSegment, ReplaceChar;
      SlashStep(c, PointerSegment(rest));
    }
  }

  lemma {:induction false} TildesRestored(s: string)
    ensures ReplacePair(ReplaceChar(s, '~', "~0"), '~', '0', '~') == s
  {
    if s != [] {
      var c, rest := s[0], s[1..];
      TildesRestored(rest);
      var tail := ReplaceChar(rest, '~', "~0");
      if c == '~' {
        assert (['~', '0'] + tail)[2..] == tail;
      }
    }
  }

  lemma UnescapeSegment(s: string)
    ensures Unescape(PointerSegment(s)) == s
  {
    SlashesRestored(s);
    TildesRestored(s);
  }

  lemma {:induction false} SegmentHasNoSlash(s: string)
    ensures '/' !in PointerSegment(s)
  {
    if s != [] {
      assert s == [s[0]] + s[1..];
      SegmentStep(s[0], s[1..]);
      SegmentHasNoSlash(s[1..]);
    }
  }

  // ----- pointers -----

  type Tokens = seq<string>

  /** The tokens as a pointer. */
  function Render(tokens: Tokens): string {
    if tokens == [] then [] else "/" + PointerSegment(tokens[0]) + Render(tokens[1..])
  }

  /** The length of the text before the next slash. */
  function SegmentLength(s: string): nat {
    if s == [] || s[0] == '/' then 0 else 1 + SegmentLength(s[1..])
  }

  lemma {:induction false} SegmentLengthBound(s: string)
    ensures SegmentLength(s) <= |s|
  {
    if s != [] && s[0] != '/' { SegmentLengthBound(s[1..]); }
  }

  /** The reference tokens of a pointer (sections 3 and 4 of RFC 6901). */
  function ParsePointer(s: string): Option<Tokens>
    decreases |s|
  {
    if s == [] then Some([])
    else if s[0] != '/' then None
    else
      var n := SegmentLength(s[1..]);
      SegmentLengthBound(s[1..]);
      match ParsePointer(s[1 + n..])
      case None => None
      case Some(rest) => Some([Unescape(s[1..1 + n])] + rest)
  }

  lemma {:induction false} SegmentEnds(segment: string, rest: string)
    requires '/' !in segment && (rest != [] ==> rest[0] == '/')
    ensures SegmentLength(segment + rest) == |segment|
  {
    if segment == [] {
      assert segment + rest == rest;
    } else {
      assert segment[0] in segment && (segment + rest)[1..] == segment[1..] + rest;
      SegmentEnds(segment[1..], rest);
    }
  }

  lemma ParseStep(s: string, segment: string, rest: string)
    requires s != [] && s[0] == '/' && SegmentLength(s[1..]) == |segment| <= |s[1..]|
    requires s[1..1 + |segment|] == segment && s[1 + |segment|..] == rest && ParsePointer(rest).Some?
    ensures ParsePointer(s) == Some([Unescape(segment)] + ParsePointer(rest).value)
  {
    hide Unescape, SegmentLength;
  }

  lemma ParseFirst(segment: string, rest: string)
    requires SegmentLength(segment + rest) == |segment| && ParsePointer(rest).Some?
    ensures ParsePointer("/" + segment + rest) == Some([Unescape(segment)] + ParsePointer(rest).value)
  {
    hide Unescape, SegmentLength, ParsePointer;
    var s := "/" + segment + rest;
    assert s[0] == '/' && s[1..] == segment + rest;
    assert s[1..1 + |segment|] == segment && s[1 + |segment|..] == rest;
    ParseStep(s, segment, rest);
  }

  /** A rendered pointer is read back as its tokens. */
  lemma {:induction false} ParseRender(tokens: Tokens)
    ensures ParsePointer(Render(tokens)) == Some(tokens)
  {
    hide PointerSegment, Unescape, SegmentLength;
    if tokens != [] {
      var segment, rest := PointerSegment(tokens[0]), Render(tokens[1..]);
      ParseRender(tokens[1..]);
      SegmentHasNoSlash(tokens[0]);
      SegmentEnds(segment, rest);
      UnescapeSegment(tokens[0]);
      ParseFirst(segment, rest);
      assert tokens == [tokens[0]] + tokens[1..];
    }
  }

  lemma RenderInjective(s: Tokens, t: Tokens)
    ensures Render(s) == Render(t) <==> s == t
  {
    ParseRender(s);
    ParseRender(t);
  }

  // ----- array indices -----

  /** An index without leading zeros (section 4 of RFC 6901). */
  function ParseIndex(token: string): Option<nat> {
    if token == [] || DigitValue(token[|token| - 1]) < 0 then None
    else if |token| == 1 then Some(DigitValue(token[0]))
    else
      match ParseIndex(token[..|token| - 1])
      case None => None
      case Some(high) => if high == 0 then None else Some(10 * high + DigitValue(token[|token| - 1]))
  }

  lemma {:induction false} ParseDecimal(n: nat)
    ensures ParseIndex(Decimal(n)) == Some(n)
  {
    DigitValues(n % 10);
    if n >= 10 {
      ParseDecimal(n / 10);
      var s := Decimal(n);
      assert s[..|s| - 1] == Decimal(n / 10);
    }
  }

  lemma {:induction false} DecimalParse(token: string)
    requires ParseIndex(token).Some?
    ensures Decimal(ParseIndex(token).value) == token
  {
    DigitInverse(token[|token| - 1]);
    if |token| > 1 {
      DecimalParse(token[..|token| - 1]);
      var n := ParseIndex(token).value;
      assert n / 10 == ParseIndex(token[..|token| - 1]).value && n % 10 == DigitValue(token[|token| - 1]);
    }
  }

  // ----- evaluation -----

  function Child(value: Json, token: string): Option<Json> {
    match value
    case Object(fields) => if token in fields then Some(fields[token]) else None
    case Array(items) =>
      (match ParseIndex(token)
       case Some(i) => if i < |items| then Some(items[i]) else None
       case None => None)
    case _ => None
  }

  function At(value: Json, tokens: Tokens): Option<Json>
    decreases tokens
  {
    if tokens == [] then Some(value)
    else
      match Child(value, tokens[0])
      case None => None
      case Some(child) => At(child, tokens[1..])
  }

  predicate SameKind(left: Json, right: Json) {
    (left.Object? && right.Object?) || (left.Array? && right.Array?)
  }

  /** The places that the differ reports, relative to the two values. */
  predicate Reported(left: Json, right: Json, tokens: Tokens)
    decreases tokens
  {
    if SameKind(left, right) then
      tokens != [] &&
      (match (Child(left, tokens[0]), Child(right, tokens[0]))
       case (Some(l), Some(r)) => Reported(l, r, tokens[1..])
       case (None, None) => false
       case _ => |tokens| == 1)
    else tokens == [] && left != right
  }

  // ----- the differ -----

  /** A place below `path`; only a difference at the very root is written as a lone slash. */
  function Pointer(path: string, tokens: Tokens): string {
    if path == [] && tokens == [] then "/" else path + Render(tokens)
  }

  ghost predicate PointsTo(s: string, path: string, left: Json, right: Json, tokens: Tokens) {
    Reported(left, right, tokens) && s == Pointer(path, tokens)
  }

  /** `added` lists exactly the pointers of the reported places. */
  ghost predicate Lists(added: seq<string>, path: string, left: Json, right: Json) {
    forall s :: s in added <==> exists t: Tokens :: PointsTo(s, path, left, right, t)
  }

  /** The same for the places whose first token is in `first`. */
  ghost predicate ListsUnder(added: seq<string>, path: string, left: Json, right: Json, first: set<string>) {
    forall s :: s in added <==> exists t: Tokens :: t != [] && t[0] in first && PointsTo(s, path, left, right, t)
  }

  // ----- the order of the reports -----

  /** Keys ascend as texts, indices as numbers. */
  predicate TokenBefore(container: Json, a: string, b: string) {
    if container.Array? then
      ParseIndex(a).Some? && ParseIndex(b).Some? && ParseIndex(a).value < ParseIndex(b).value
    else StringLess(a, b)
  }

  lemma TokenNotBeforeItself(container: Json, a: string)
    ensures !TokenBefore(container, a, a)
  {
    StringIrreflexive(a);
  }

  /** At the first token in which two places differ, the first one has the smaller key or index. */
  predicate Precedes(left: Json, right: Json, s: Tokens, t: Tokens)
    decreases s
  {
    && SameKind(left, right) && s != [] && t != []
    && if s[0] == t[0] then
         Child(left, s[0]).Some? && Child(right, s[0]).Some?
         && Precedes(Child(left, s[0]).value, Child(right, s[0]).value, s[1..], t[1..])
       else TokenBefore(left, s[0], t[0])
  }

  lemma {:induction false} PrecedesIrreflexive(left: Json, right: Json, s: Tokens)
    ensures !Precedes(left, right, s, s)
    decreases s
  {
    if SameKind(left, right) && s != [] && Child(left, s[0]).Some? && Child(right, s[0]).Some? {
      PrecedesIrreflexive(Child(left, s[0]).value, Child(right, s[0]).value, s[1..]);
    }
  }

  /** The pointers are listed in the order of their places. */
  ghost predicate Ordered(added: seq<string>, path: string, left: Json, right: Json) {
    forall i, j, s: Tokens, t: Tokens :: 0 <= i < j < |added|
      && PointsTo(added[i], path, left, right, s) && PointsTo(added[j], path, left, right, t)
      ==> Precedes(left, right, s, t)
  }

  /** Pointers in this order are pairwise different. */
  lemma OrderedDistinct(added: seq<string>, path: string, left: Json, right: Json)
    requires Lists(added, path, left, right) && Ordered(added, path, left, right)
    ensures Distinct(added)
  {
    forall i, j | 0 <= i < j < |added| ensures added[i] != added[j] {
      assert added[i] in added;
      var t: Tokens :| PointsTo(added[i], path, left, right, t);
      PrecedesIrreflexive(left, right, t);
    }
  }

  lemma PointerInjective(path: string, s: Tokens, t: Tokens)
    requires path != [] || (s != [] && t != [])
    ensures Pointer(path, s) == Pointer(path, t) <==> s == t
  {
    RenderInjective(s, t);
    if Pointer(path, s) == Pointer(path, t) {
      assert Render(s) == (path + Render(s))[|path|..] == (path + Render(t))[|path|..] == Render(t);
    }
  }

  lemma ChildPointer(path: string, token: string, t: Tokens)
    ensures Pointer(path + "/" + PointerSegment(token), t) == Pointer(path, [token] + t)
  {
    assert ([token] + t)[1..] == t;
    assert path + ("/" + PointerSegment(token) + Render(t)) == path + "/" + PointerSegment(token) + Render(t);
  }

  /** Reports of a child are the reports of the parent under the child's token. */
  lemma ChildLists(added: seq<string>, path: string, left: Json, right: Json, token: string)
    requires SameKind(left, right) && Child(left, token).Some? && Child(right, token).Some?
    requires Lists(added, path + "/" + PointerSegment(token), Child(left, token).value, Child(right, token).value)
    ensures ListsUnder(added, path, left, right, {token})
  {
    hide PointerSegment, Pointer;
    var child, l, r := path + "/" + PointerSegment(token), Child(left, token).value, Child(right, token).value;
    forall s ensures s in added <==>
      exists t: Tokens :: t != [] && t[0] in {token} && PointsTo(s, path, left, right, t)
    {
      if t: Tokens :| PointsTo(s, child, l, r, t) {
        ChildPointer(path, token, t);
        assert ([token] + t)[1..] == t;
        assert PointsTo(s, path, left, right, [token] + t);
      }
      if t: Tokens :| t != [] && t[0] in {token} && PointsTo(s, path, left, right, t) {
        ChildPointer(path, token, t[1..]);
        assert t == [token] + t[1..];
        assert PointsTo(s, child, l, r, t[1..]);
      }
    }
  }

  lemma ChildOrdered(added: seq<string>, path: string, left: Json, right: Json, token: string)
    requires SameKind(left, right) && Child(left, token).Some? && Child(right, token).Some?
    requires ListsUnder(added, path, left, right, {token})
    requires Ordered(added, path + "/" + PointerSegment(token), Child(left, token).value, Child(right, token).value)
    ensures Ordered(added, path, left, right)
  {
    hide PointerSegment, Child, ListsUnder;
    var child, l, r := path + "/" + PointerSegment(token), Child(left, token).value, Child(right, token).value;
    forall i, j, s: Tokens, t: Tokens | 0 <= i < j < |added|
      && PointsTo(added[i], path, left, right, s) && PointsTo(added[j], path, left, right, t)
      ensures Precedes(left, right, s, t)
    {
      PlaceUnder(added, path, left, right, {token}, i, s);
      PlaceUnder(added, path, left, right, {token}, j, t);
      ChildPointer(path, token, s[1..]);
      ChildPointer(path, token, t[1..]);
      assert s == [token] + s[1..] && t == [token] + t[1..];
      assert PointsTo(added[i], child, l, r, s[1..]) && PointsTo(added[j], child, l, r, t[1..]);
    }
  }

  /** The place of a listed pointer starts with one of the listed tokens. */
  lemma PlaceUnder(added: seq<string>, path: string, left: Json, right: Json, first: set<string>, i: nat, s: Tokens)
    requires SameKind(left, right) && ListsUnder(added, path, left, right, first)
    requires i < |added| && PointsTo(added[i], path, left, right, s)
    ensures s != [] && s[0] in first
  {
    assert added[i] in added;
    var t: Tokens :| t != [] && t[0] in first && PointsTo(added[i], path, left, right, t);
    PointerInjective(path, s, t);
  }

  lemma LoneChild(path: string, left: Json, right: Json, token: string)
    requires SameKind(left, right) && Child(left, token).Some? != Child(right, token).Some?
    ensures ListsUnder([path + "/" + PointerSegment(token)], path, left, right, {token})
    ensures Ordered([path + "/" + PointerSegment(token)], path, left, right)
  {
    var child := path + "/" + PointerSegment(token);
    ChildPointer(path, token, []);
    assert [token] + [] == [token];
    assert PointsTo(child, path, left, right, [token]) by { assert child + [] == child; }
    forall t: Tokens | t != [] && t[0] == token && Reported(left, right, t) ensures t == [token] {}
  }

  lemma ListsGrow(before: seq<string>, more: seq<string>, path: string, left: Json, right: Json,
                  first: set<string>, token: string)
    requires ListsUnder(before, path, left, right, first) && ListsUnder(more, path, left, right, {token})
    ensures ListsUnder(before + more, path, left, right, first + {token})
  {
    hide PointsTo;
    forall s ensures s in before + more <==>
      exists t: Tokens :: t != [] && t[0] in first + {token} && PointsTo(s, path, left, right, t)
    {
      if s in before {
        var t: Tokens :| t != [] && t[0] in first && PointsTo(s, path, left, right, t);
        assert t[0] in first + {token};
      }
      if s in more {
        var t: Tokens :| t != [] && t[0] in {token} && PointsTo(s, path, left, right, t);
        assert t[0] in first + {token};
      }
      if t: Tokens :| t != [] && t[0] in first + {token} && PointsTo(s, path, left, right, t) {
        assert t[0] in first || t[0] in {token};
      }
    }
  }

  lemma OrderGrows(before: seq<string>, more: seq<string>, path: string, left: Json, right: Json,
                   first: set<string>, token: string)
    requires SameKind(left, right)
    requires ListsUnder(before, path, left, right, first) && ListsUnder(more, path, left, right, {token})
    requires Ordered(before, path, left, right) && Ordered(more, path, left, right)
    requires forall f :: f in first ==> TokenBefore(left, f, token)
    ensures Ordered(before + more, path, left, right)
  {
    hide TokenBefore, Child, ListsUnder, PointsTo;
    var all := before + more;
    TokenNotBeforeItself(left, token);
    forall i, j, s: Tokens, t: Tokens | 0 <= i < j < |all|
      && PointsTo(all[i], path, left, right, s) && PointsTo(all[j], path, left, right, t)
      ensures Precedes(left, right, s, t)
    {
      if j < |before| {
        assert all[i] == before[i] && all[j] == before[j];
      } else if |before| <= i {
        assert all[i] == more[i - |before|] && all[j] == more[j - |before|];
      } else {
        PlaceUnder(before, path, left, right, first, i, s);
        PlaceUnder(more, path, left, right, {token}, j - |before|, t);
      }
    }
  }

  lemma NothingListed(path: string, left: Json, right: Json)
    ensures ListsUnder([], path, left, right, {}) && Ordered([], path, left, right)
  {}

  /** All tokens of a container have been visited. */
  lemma AllListed(added: seq<string>, path: string, left: Json, right: Json, first: set<string>)
    requires SameKind(left, right) && ListsUnder(added, path, left, right, first)
    requires forall token :: Child(left, token).Some? || Child(right, token).Some? ==> token in first
    ensures Lists(added, path, left, right)
  {
    forall s, t: Tokens | PointsTo(s, path, left, right, t) ensures t != [] && t[0] in first {}
    forall s ensures s in added <==> exists t: Tokens :: PointsTo(s, path, left, right, t) {}
  }

  /** Appends the pointers of the reported places, in the order of these places. */
  method CollectDifferences(path: string, left: Json, right: Json, output: seq<string>) returns (result: seq<string>)
    ensures output <= result
    ensures Lists(result[|output|..], path, left, right) && Ordered(result[|output|..], path, left, right)
    decreases left, 1
  {
    if left.Object? && right.Object? {
      result := CollectFields(path, left, right, output);
    } else if left.Array? && right.Array? {
      result := CollectItems(path, left, right, output);
    } else if left != right {
      result := output + [if path == [] then "/" else path];
      assert path + [] == path;
      assert result[|output|..] == [Pointer(path, [])];
      assert PointsTo(Pointer(path, []), path, left, right, []);
    } else {
      result := output;
      assert result[|output|..] == [];
    }
  }

  /** One key or index that at least one of the two containers has; `child` is its pointer. */
  method CollectChild(path: string, child: string, left: Json, right: Json, token: string, output: seq<string>)
    returns (result: seq<string>)
    requires SameKind(left, right) && (Child(left, token).Some? || Child(right, token).Some?)
    requires child == path + "/" + PointerSegment(token)
    ensures output <= result
    ensures ListsUnder(result[|output|..], path, left, right, {token})
    ensures Ordered(result[|output|..], path, left, right)
    decreases left, 0
  {
    hide PointerSegment, ListsUnder, Lists, Ordered;
    match (Child(left, token), Child(right, token))
    case (Some(l), Some(r)) =>
      result := CollectDifferences(child, l, r, output);
      ChildLists(result[|output|..], path, left, right, token);
      ChildOrdered(result[|output|..], path, left, right, token);
    case _ =>
      result := output + [child];
      LoneChild(path, left, right, token);
      assert result[|output|..] == [child];
  }

  lemma Appended(output: seq<string>, before: seq<string>, result: seq<string>)
    requires output <= before <= result
    ensures output <= result && result[|output|..] == before[|output|..] + result[|before|..]
  {}

  method CollectFields(path: string, left: Json, right: Json, output: seq<string>) returns (result: seq<string>)
    requires left.Object? && right.Object?
    ensures output <= result
    ensures Lists(result[|output|..], path, left, right) && Ordered(result[|output|..], path, left, right)
    decreases left, 1, 0
  {
    hide PointerSegment, ListsUnder, Lists, Ordered;
    var keys := SortSet(left.fields.Keys + right.fields.Keys);
    result := output;
    NothingListed(path, left, right);
    assert result[|output|..] == [];
    ghost var visited: set<string> := {};
    for i := 0 to |keys|
      invariant visited == set k | k in keys[..i]
      invariant output <= result
      invariant ListsUnder(result[|output|..], path, left, right, visited)
      invariant Ordered(result[|output|..], path, left, right)
    {
      assert keys[i] in keys;
      ghost var before := result;
      var child := path + "/" + PointerSegment(keys[i]);
      result := CollectChild(path, child, left, right, keys[i], result);
      ListsGrow(before[|output|..], result[|before|..], path, left, right, visited, keys[i]);
      OrderGrows(before[|output|..], result[|before|..], path, left, right, visited, keys[i]);
      Appended(output, before, result);
      visited := visited + {keys[i]};
    }
    assert keys[..|keys|] == keys;
    AllListed(result[|output|..], path, left, right, visited);
  }

  method CollectItems(path: string, left: Json, right: Json, output: seq<string>) returns (result: seq<string>)
    requires left.Array? && right.Array?
    ensures output <= result
    ensures Lists(result[|output|..], path, left, right) && Ordered(result[|output|..], path, left, right)
    decreases left, 1, 0
  {
    hide PointerSegment, ParseIndex, Decimal, ListsUnder, Lists, Ordered;
    var count := if |left.items| < |right.items| then |right.items| else |left.items|;
    result := output;
    NothingListed(path, left, right);
    assert result[|output|..] == [];
    ghost var visited: set<string> := {};
    for i := 0 to count
      invariant forall token :: token in visited <==> ParseIndex(token).Some? && ParseIndex(token).value < i
      invariant output <= result
      invariant ListsUnder(result[|output|..], path, left, right, visited)
      invariant Ordered(result[|output|..], path, left, right)
    {
      ParseDecimal(i);
      DecimalSegment(i);
      ghost var before := result;
      var child := path + "/" + Decimal(i);
      result := CollectChild(path, child, left, right, Decimal(i), result);
      ListsGrow(before[|output|..], result[|before|..], path, left, right, visited, Decimal(i));
      OrderGrows(before[|output|..], result[|before|..], path, left, right, visited, Decimal(i));
      Appended(output, before, result);
      visited := visited + {Decimal(i)};
      forall token | ParseIndex(token) == Some(i) ensures token == Decimal(i) { DecimalParse(token); }
    }
    AllListed(result[|output|..], path, left, right, visited);
  }

  /** An index needs no escaping, so its segment is the plain number. */
  lemma {:induction false} DecimalSegment(n: nat)
    ensures PointerSegment(Decimal(n)) == Decimal(n)
  {
    if n < 10 {
      DigitSegment(n);
    } else {
      DecimalSegment(n / 10);
      SegmentAppend(Decimal(n / 10), [Digit(n % 10)]);
      DigitSegment(n % 10);
    }
  }

  lemma DigitSegment(n: int)
    requires 0 <= n < 10
    ensures PointerSegment([Digit(n)]) == [Digit(n)]
  {
    DigitValues(n);
    SegmentStep(Digit(n), []);
    assert [Digit(n)] + [] == [Digit(n)];
  }

  lemma {:induction false} SegmentAppend(s: string, t: string)
    ensures PointerSegment(s + t) == PointerSegment(s) + PointerSegment(t)
  {
    if s == [] {
      assert s + t == t;
    } else {
      SegmentAppend(s[1..], t);
      hide PointerSegment;
      SegmentStep(s[0], s[1..]);
      SegmentStep(s[0], s[1..] + t);
      assert s == [s[0]] + s[1..] && s + t == [s[0]] + (s[1..] + t);
    }
  }

  // ----- what the reports mean -----

  ghost predicate Silent(left: Json, right: Json) { forall t: Tokens :: !Reported(left, right, t) }

  /** Nothing is reported exactly when the trees are equal. */
  lemma {:induction false} NothingReportedExactly(left: Json, right: Json)
    ensures Silent(left, right) <==> left == right
    decreases left
  {
    if SameKind(left, right) {
      if left == right {
        forall t: Tokens ensures !Reported(left, right, t) { EqualReportsNothing(left, t); }
      } else {
        var token := DifferingChild(left, right);
        if Child(left, token).Some? && Child(right, token).Some? {
          var l, r := Child(left, token).value, Child(right, token).value;
          NothingReportedExactly(l, r);
          var t: Tokens :| Reported(l, r, t);
          assert ([token] + t)[1..] == t;
          assert Reported(left, right, [token] + t);
        } else {
          assert Reported(left, right, [token]);
        }
      }
    } else if left != right {
      assert Reported(left, right, []);
    }
  }

  lemma {:induction false} EqualReportsNothing(value: Json, t: Tokens)
    ensures !Reported(value, value, t)
    decreases t
  {
    if SameKind(value, value) && t != [] && Child(value, t[0]).Some? {
      EqualReportsNothing(Child(value, t[0]).value, t[1..]);
    }
  }

  /** Two different containers of a kind have a child that only one has or that differs. */
  lemma DifferingChild(left: Json, right: Json) returns (token: string)
    requires SameKind(left, right) && left != right
    ensures Child(left, token) != Child(right, token)
  {
    SameChildren(left, right);
    token :| Child(left, token) != Child(right, token);
  }

  lemma SameChildren(left: Json, right: Json)
    requires SameKind(left, right)
    ensures (forall token :: Child(left, token) == Child(right, token)) ==> left == right
  {
    if forall token :: Child(left, token) == Child(right, token) {
      if left.Object? {
        forall k ensures k in left.fields <==> k in right.fields { assert Child(left, k) == Child(right, k); }
        forall k | k in left.fields ensures left.fields[k] == right.fields[k] {
          assert Child(left, k) == Child(right, k);
        }
        assert left.fields == right.fields;
      } else {
        ParseDecimal(|left.items|);
        ParseDecimal(|right.items|);
        assert Child(left, Decimal(|left.items|)) == Child(right, Decimal(|left.items|));
        assert Child(left, Decimal(|right.items|)) == Child(right, Decimal(|right.items|));
        forall i | 0 <= i < |left.items| ensures left.items[i] == right.items[i] {
          ParseDecimal(i);
          assert Child(left, Decimal(i)) == Child(right, Decimal(i));
        }
        assert left.items == right.items;
      }
    }
  }

  /** At every reported place the trees differ. */
  lemma {:induction false} ReportedDiffers(left: Json, right: Json, t: Tokens)
    requires Reported(left, right, t)
    ensures At(left, t) != At(right, t)
    decreases t
  {
    if SameKind(left, right) && Child(left, t[0]).Some? && Child(right, t[0]).Some? {
      ReportedDiffers(Child(left, t[0]).value, Child(right, t[0]).value, t[1..]);
    }
  }

  /** A place where the trees differ by themselves: only one has it, or the values are not two
      containers of one kind. */
  predicate DiffersHere(left: Json, right: Json, t: Tokens) {
    At(left, t) != At(right, t)
    && (At(left, t).Some? && At(right, t).Some? ==> !SameKind(At(left, t).value, At(right, t).value))
  }

  /** Every difference lies at or below a reported place. */
  lemma {:induction false} DifferenceCovered(left: Json, right: Json, t: Tokens) returns (n: nat)
    requires DiffersHere(left, right, t)
    ensures n <= |t| && Reported(left, right, t[..n])
    decreases t
  {
    if !SameKind(left, right) {
      n := 0;
    } else {
      var l, r := Child(left, t[0]), Child(right, t[0]);
      if l.Some? && r.Some? {
        n := DifferenceCovered(l.value, r.value, t[1..]);
        n := n + 1;
        assert t[..n][1..] == t[1..][..n - 1];
      } else {
        n := 1;
      }
    }
  }

  /** No reported place lies below another one. */
  lemma {:induction false} ReportedAntichain(left: Json, right: Json, s: Tokens, t: Tokens)
    requires Reported(left, right, s) && Reported(left, right, t) && s <= t
    ensures s == t
    decreases s
  {
    if SameKind(left, right) {
      if Child(left, s[0]).Some? && Child(right, s[0]).Some? {
        assert s[1..] <= t[1..];
        ReportedAntichain(Child(left, s[0]).value, Child(right, s[0]).value, s[1..], t[1..]);
        assert s == [s[0]] + s[1..] && t == [t[0]] + t[1..];
      }
    }
  }

  lemma {:induction false} ReportedDiffersHere(left: Json, right: Json, t: Tokens)
    requires Reported(left, right, t)
    ensures DiffersHere(left, right, t)
    decreases t
  {
    if SameKind(left, right) && Child(left, t[0]).Some? && Child(right, t[0]).Some? {
      ReportedDiffersHere(Child(left, t[0]).value, Child(right, t[0]).value, t[1..]);
    }
  }

  /** The reported places are the topmost ones at which the trees differ by themselves. */
  lemma ReportedExactly(left: Json, right: Json, t: Tokens)
    ensures Reported(left, right, t) <==>
      DiffersHere(left, right, t) && forall n :: 0 <= n < |t| ==> !DiffersHere(left, right, t[..n])
  {
    hide DiffersHere, Reported;
    assert t[..|t|] == t;
    if Reported(left, right, t) {
      ReportedDiffersHere(left, right, t);
      forall n | 0 <= n < |t| ensures !DiffersHere(left, right, t[..n]) {
        if DiffersHere(left, right, t[..n]) {
          var m := DifferenceCovered(left, right, t[..n]);
          ReportedAntichain(left, right, t[..n][..m], t);
        }
      }
    } else if DiffersHere(left, right, t) {
      var n := DifferenceCovered(left, right, t);
      ReportedDiffersHere(left, right, t[..n]);
    }
  }

  /** The pointer decodes to a place where the trees differ. */
  ghost predicate DecodesToDifference(pointer: string, left: Json, right: Json) {
    ParsePointer(pointer).Some?
    && At(left, ParsePointer(pointer).value) != At(right, ParsePointer(pointer).value)
  }

  /** For two containers of a kind the pointer decodes to its reported place. */
  lemma EmittedPointerDecodes(left: Json, right: Json, pointer: string, t: Tokens)
    requires SameKind(left, right) && PointsTo(pointer, "", left, right, t)
    ensures ParsePointer(pointer) == Some(t) && DecodesToDifference(pointer, left, right)
  {
    ParseRender(t);
    assert "" + Render(t) == Render(t);
    ReportedDiffers(left, right, t);
  }

  ghost predicate AllDecode(left: Json, right: Json) {
    forall pointer, t: Tokens :: PointsTo(pointer, "", left, right, t) ==> DecodesToDifference(pointer, left, right)
  }

  /** Every emitted pointer decodes to a difference exactly when the roots are containers of one kind, or
      equal, or differ at the empty key, which is where the lone slash of a root points. */
  lemma PointersDecodeExactly(left: Json, right: Json)
    ensures AllDecode(left, right) <==>
      SameKind(left, right) || left == right || Child(left, "") != Child(right, "")
  {
    ParseRender([""]);
    assert PointerSegment("") == "" && Render([""]) == "/";
    assert At(left, [""]) == Child(left, "") && At(right, [""]) == Child(right, "");
    if SameKind(left, right) {
      forall pointer, t: Tokens | PointsTo(pointer, "", left, right, t)
        ensures DecodesToDifference(pointer, left, right)
      {
        EmittedPointerDecodes(left, right, pointer, t);
      }
    } else if left != right {
      assert PointsTo("/", "", left, right, []);
      assert DecodesToDifference("/", left, right) <==> Child(left, "") != Child(right, "");
    }
  }

  lemma EmptyExactly(differences: seq<string>, left: Json, right: Json)
    requires Lists(differences, "", left, right)
    ensures differences == [] <==> left == right
  {
    NothingReportedExactly(left, right);
    forall t: Tokens ensures Reported(left, right, t) ==> Pointer("", t) in differences {
      assert Reported(left, right, t) ==> PointsTo(Pointer("", t), "", left, right, t);
    }
    if differences != [] { assert differences[0] in differences; } else { assert Silent(left, right); }
  }

  /** The comparison of two documents: equal exactly when nothing is emitted; what is emitted are different
      pointers, in order, to exactly the reported places, and for objects each decodes to a difference. */
  method Compare(left: Json, right: Json) returns (differences: seq<string>)
    ensures differences == [] <==> left == right
    ensures Lists(differences, "", left, right) && Ordered(differences, "", left, right) && Distinct(differences)
    ensures SameKind(left, right) ==>
      forall pointer :: pointer in differences ==> DecodesToDifference(pointer, left, right)
  {
    var none: seq<string> := [];
    differences := CollectDifferences("", left, right, none);
    assert differences[|none|..] == differences;
    EmptyExactly(differences, left, right);
    OrderedDistinct(differences, "", left, right);
    forall pointer | SameKind(left, right) && pointer in differences
      ensures DecodesToDifference(pointer, left, right)
    {
      var t: Tokens :| PointsTo(pointer, "", left, right, t);
      EmittedPointerDecodes(left, right, pointer, t);
    }
  }
}
