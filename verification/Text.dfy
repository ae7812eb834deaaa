/** UTF-8 texts: the byte-level common prefix and the scalar-level common suffix of the join
    (src/domain/abstract_value.rs). A text is its sequence of Unicode scalars; bytes only matter where two
    different scalars share their first byte. */
module Text {
  import opened Outcomes

  /** The UTF-8 encoding of one scalar (section 3 of RFC 3629). */
  function Utf8(c: char): seq<nat> {
    var n := c as int;
    if n < 0x80 then [n]
    else if n < 0x800 then [0xC0 + n / 64, 0x80 + n % 64]
    else if n < 0x1_0000 then [0xE0 + n / 4096, 0x80 + n / 64 % 64, 0x80 + n % 64]
    else [0xF0 + n / 262144, 0x80 + n / 4096 % 64, 0x80 + n / 64 % 64, 0x80 + n % 64]
  }

  function Encode(s: string): seq<nat> {
    if s == [] then [] else Utf8(s[0]) + Encode(s[1..])
  }

  /** `zip` followed by `take_while` of equal pairs and `count`. */
  function MatchingBytes(a: seq<nat>, b: seq<nat>): nat {
    if a == [] || b == [] || a[0] != b[0] then 0 else 1 + MatchingBytes(a[1..], b[1..])
  }

  /** How many scalars of `s` end at the last character boundary that is at most `bytes`. */
  function BoundaryWithin(s: string, bytes: nat): nat {
    if s == [] || |Utf8(s[0])| > bytes then 0 else 1 + BoundaryWithin(s[1..], bytes - |Utf8(s[0])|)
  }

  lemma {:induction false} BoundaryInText(s: string, bytes: nat)
    ensures BoundaryWithin(s, bytes) <= |s|
    ensures |Encode(s[..BoundaryWithin(s, bytes)])| <= bytes
    ensures BoundaryWithin(s, bytes) < |s| ==> bytes < |Encode(s[..BoundaryWithin(s, bytes) + 1])|
  {
    if s != [] && |Utf8(s[0])| <= bytes {
      var k := BoundaryWithin(s[1..], bytes - |Utf8(s[0])|);
      BoundaryInText(s[1..], bytes - |Utf8(s[0])|);
      assert s[..k + 1][1..] == s[1..][..k];
      if k < |s[1..]| { assert s[..k + 2][1..] == s[1..][..k + 1]; }
    } else if s != [] {
      assert s[..1][1..] == [];
      assert Encode(s[..1]) == Utf8(s[0]) + [];
    }
  }

  function CommonPrefix(left: string, right: string): Option<string> {
    var bytes := MatchingBytes(Encode(left), Encode(right));
    if bytes == 0 then None
    else
      BoundaryInText(left, bytes);
      Some(left[..BoundaryWithin(left, bytes)])
  }

  function CommonChars(left: string, right: string): nat {
    if left == [] || right == [] || left[0] != right[0] then 0 else 1 + CommonChars(left[1..], right[1..])
  }

  lemma {:induction false} CommonCharsMeaning(left: string, right: string)
    ensures var k := CommonChars(left, right);
      && k <= |left| && k <= |right| && left[..k] == right[..k]
      && (forall i :: 0 <= i < k ==> left[i] == right[i])
      && (k < |left| && k < |right| ==> left[k] != right[k])
  {
    if left != [] && right != [] && left[0] == right[0] {
      CommonCharsMeaning(left[1..], right[1..]);
      var k := CommonChars(left[1..], right[1..]);
      assert left[..k + 1] == [left[0]] + left[1..][..k];
      assert right[..k + 1] == [right[0]] + right[1..][..k];
    }
  }

  // ----- the byte-level prefix, in scalars -----

  lemma {:induction false} MatchingAppend(p: seq<nat>, a: seq<nat>, b: seq<nat>)
    ensures MatchingBytes(p + a, p + b) == |p| + MatchingBytes(a, b)
  {
    if p == [] {
      assert p + a == a && p + b == b;
    } else {
      MatchingAppend(p[1..], a, b);
      assert (p + a)[1..] == p[1..] + a && (p + b)[1..] == p[1..] + b;
    }
  }

  lemma {:induction false} MatchingDiffers(a: seq<nat>, b: seq<nat>, i: nat)
    requires i < |a| && i < |b| && a[i] != b[i]
    ensures MatchingBytes(a, b) <= i
  {
    if i > 0 && a[0] == b[0] { MatchingDiffers(a[1..], b[1..], i - 1); }
  }

  function Utf8Decode(b: seq<int>): int {
    if |b| == 1 then b[0]
    else if |b| == 2 then (b[0] - 0xC0) * 64 + (b[1] - 0x80)
    else if |b| == 3 then (b[0] - 0xE0) * 4096 + (b[1] - 0x80) * 64 + (b[2] - 0x80)
    else if |b| == 4 then (b[0] - 0xF0) * 262144 + (b[1] - 0x80) * 4096 + (b[2] - 0x80) * 64 + (b[3] - 0x80)
    else -1
  }

  lemma SplitBy64(n: nat)
    ensures n / 64 / 64 == n / 4096 && n / 4096 / 64 == n / 262144
  {}

  lemma Utf8RoundTrip(c: char)
    ensures Utf8Decode(Utf8(c)) == c as int
  {
    SplitBy64(c as int);
  }

  /** Different scalars differ at a byte that both encodings have. */
  lemma Utf8Differs(c: char, d: char) returns (i: nat)
    requires c != d
    ensures i < |Utf8(c)| && i < |Utf8(d)| && Utf8(c)[i] != Utf8(d)[i]
  {
    var p, q := Utf8(c), Utf8(d);
    Utf8RoundTrip(c);
    Utf8RoundTrip(d);
    if p[0] != q[0] { return 0; }
    LeadByteLength(c, d);
    hide Utf8, Utf8Decode;
    i := SomeDifference(p, q);
  }

  lemma SomeDifference(p: seq<nat>, q: seq<nat>) returns (i: nat)
    requires |p| == |q| && p != q
    ensures i < |p| && p[i] != q[i]
  {
    i :| i < |p| && p[i] != q[i];
  }

  /** The first byte tells the length of the encoding. */
  lemma LeadByteLength(c: char, d: char)
    requires Utf8(c)[0] == Utf8(d)[0]
    ensures |Utf8(c)| == |Utf8(d)|
  {}

  lemma {:induction false} BoundaryIsCommon(left: string, right: string)
    ensures BoundaryWithin(left, MatchingBytes(Encode(left), Encode(right))) == CommonChars(left, right)
  {
    var bytes := MatchingBytes(Encode(left), Encode(right));
    if left == [] || right == [] {
      if left != [] { assert bytes == 0; }
    } else if left[0] == right[0] {
      MatchingAppend(Utf8(left[0]), Encode(left[1..]), Encode(right[1..]));
      BoundaryIsCommon(left[1..], right[1..]);
    } else {
      var i := Utf8Differs(left[0], right[0]);
      MatchingDiffers(Encode(left), Encode(right), i);
    }
  }

  /** Both texts start with different scalars whose encodings share the first byte. */
  predicate LeadByteClash(left: string, right: string) {
    left != [] && right != [] && left[0] != right[0] && Utf8(left[0])[0] == Utf8(right[0])[0]
  }

  /** The byte-level prefix is the common run of scalars, except that it is the empty text, and not
      absent, when the first scalars differ but start with the same byte. */
  lemma CommonPrefixExact(left: string, right: string)
    ensures CommonPrefix(left, right) ==
      if CommonChars(left, right) > 0 || LeadByteClash(left, right)
      then Some(left[..(CommonCharsMeaning(left, right); CommonChars(left, right))])
      else None
  {
    BoundaryIsCommon(left, right);
    CommonCharsMeaning(left, right);
    if left != [] && right != [] && left[0] == right[0] {
      MatchingAppend(Utf8(left[0]), Encode(left[1..]), Encode(right[1..]));
    } else if left != [] && right != [] {
      assert Encode(left)[0] == Utf8(left[0])[0] && Encode(right)[0] == Utf8(right[0])[0];
    }
  }

  predicate StartsWith(s: string, prefix: string) { prefix <= s }

  predicate EndsWith(s: string, suffix: string) { |suffix| <= |s| && s[|s| - |suffix|..] == suffix }

  lemma CommonPrefixFacts(left: string, right: string)
    ensures var r := CommonPrefix(left, right);
      && (r.Some? ==> StartsWith(left, r.value) && StartsWith(right, r.value))
      && (r == Some("") <==> LeadByteClash(left, right))
      && (StartsWith(left, right) && right != [] ==> r == Some(right))
      && (StartsWith(right, left) && left != [] ==> r == Some(left))
      && (left == [] || right == [] ==> r == None)
  {
    CommonPrefixExact(left, right);
    CommonCharsMeaning(left, right);
    var k := CommonChars(left, right);
    if StartsWith(left, right) {
      assert forall i :: 0 <= i < |right| ==> left[i] == right[i];
      assert k == |right|;
      assert left[..k] == right;
    }
    if StartsWith(right, left) {
      assert forall i :: 0 <= i < |left| ==> left[i] == right[i];
      assert k == |left|;
      assert left[..k] == left;
    }
  }

  // ----- the suffix, by scalars -----

  function Reversed(s: string): (r: string)
    ensures |r| == |s| && forall i :: 0 <= i < |s| ==> r[i] == s[|s| - 1 - i]
  {
    seq(|s|, i requires 0 <= i < |s| => s[|s| - 1 - i])
  }

  lemma ReversedTwice(s: string)
    ensures Reversed(Reversed(s)) == s
  {}

  lemma ReversedPrefix(s: string, t: string)
    ensures EndsWith(s, t) <==> StartsWith(Reversed(s), Reversed(t))
  {
    var r, q := Reversed(s), Reversed(t);
    if EndsWith(s, t) {
      forall i | 0 <= i < |t| ensures r[i] == q[i] { assert s[|s| - |t|..][|t| - 1 - i] == s[|s| - 1 - i]; }
    }
    if StartsWith(r, q) {
      forall i | 0 <= i < |t| ensures s[|s| - |t|..][i] == t[i] { assert r[|t| - 1 - i] == q[|t| - 1 - i]; }
    }
  }

  /** The common run of both reversed texts, reversed again. */
  function CommonSuffix(left: string, right: string): Option<string> {
    var k := CommonChars(Reversed(left), Reversed(right));
    CommonCharsMeaning(Reversed(left), Reversed(right));
    if k == 0 then None else Some(Reversed(Reversed(left)[..k]))
  }

  lemma CommonCharsWhole(left: string, right: string)
    requires StartsWith(left, right)
    ensures CommonChars(left, right) == CommonChars(right, left) == |right|
    ensures left[..|right|] == right
  {
    CommonCharsMeaning(left, right);
    CommonCharsMeaning(right, left);
    assert forall i :: 0 <= i < |right| ==> left[i] == right[i];
  }

  lemma SuffixOfBoth(left: string, right: string)
    ensures var r := CommonSuffix(left, right);
      r.Some? ==> r.value != [] && EndsWith(left, r.value) && EndsWith(right, r.value)
  {
    var l, r := Reversed(left), Reversed(right);
    var k := CommonChars(l, r);
    CommonCharsMeaning(l, r);
    ReversedTwice(l[..k]);
    ReversedPrefix(left, Reversed(l[..k]));
    ReversedPrefix(right, Reversed(l[..k]));
  }

  lemma SuffixIsWhole(left: string, right: string)
    requires EndsWith(left, right) && right != []
    ensures CommonSuffix(left, right) == Some(right)
    ensures CommonSuffix(right, left) == Some(right)
  {
    ReversedPrefix(left, right);
    CommonCharsWhole(Reversed(left), Reversed(right));
    ReversedTwice(right);
    assert Reversed(right)[..|right|] == Reversed(right);
  }

  lemma CommonSuffixFacts(left: string, right: string)
    ensures var r := CommonSuffix(left, right);
      && (r.Some? ==> r.value != [] && EndsWith(left, r.value) && EndsWith(right, r.value))
      && (EndsWith(left, right) && right != [] ==> r == Some(right))
      && (EndsWith(right, left) && left != [] ==> r == Some(left))
      && (left == [] || right == [] ==> r == None)
  {
    SuffixOfBoth(left, right);
    if EndsWith(left, right) && right != [] { SuffixIsWhole(left, right); }
    if EndsWith(right, left) && left != [] { SuffixIsWhole(right, left); }
  }

  /** The suffix is the longest nonempty text that ends both, and absent exactly when there is none. */
  lemma CommonSuffixExact(left: string, right: string)
    ensures var r := CommonSuffix(left, right);
      && (r.Some? ==> r.value != [] && EndsWith(left, r.value) && EndsWith(right, r.value))
      && forall t :: t != [] && EndsWith(left, t) && EndsWith(right, t) ==> r.Some? && EndsWith(r.value, t)
  {
    hide CommonSuffix, EndsWith, StartsWith;
    var r := CommonSuffix(left, right);
    CommonSuffixFacts(left, right);
    forall t | t != [] && EndsWith(left, t) && EndsWith(right, t) ensures r.Some? && EndsWith(r.value, t) {
      SuffixIsLongest(left, right, t);
    }
  }

  lemma SuffixIsLongest(left: string, right: string, t: string)
    requires t != [] && EndsWith(left, t) && EndsWith(right, t)
    ensures CommonSuffix(left, right).Some? && EndsWith(CommonSuffix(left, right).value, t)
  {
    var l, r, p := Reversed(left), Reversed(right), Reversed(t);
    ReversedPrefix(left, t);
    ReversedPrefix(right, t);
    var k := CommonChars(l, r);
    CommonCharsMeaning(l, r);
    assert forall i :: 0 <= i < |p| ==> l[i] == p[i] && r[i] == p[i];
    assert k >= |p|;
    assert StartsWith(l[..k], p);
    ReversedTwice(l[..k]);
    ReversedPrefix(Reversed(l[..k]), t);
  }

  /** Two reversed iterators are advanced together; the collected scalars are reversed at the end. */
  method FindCommonSuffix(left: string, right: string) returns (result: Option<string>)
    ensures result == CommonSuffix(left, right)
  {
    var leftChars, rightChars := Reversed(left), Reversed(right);
    var suffix: string := [];
    ghost var k := CommonChars(leftChars, rightChars);
    CommonCharsMeaning(leftChars, rightChars);
    while |suffix| < |left| && |suffix| < |right| && leftChars[|suffix|] == rightChars[|suffix|]
      invariant |suffix| <= k
      invariant suffix == leftChars[..|suffix|]
      decreases |left| - |suffix|
    {
      suffix := suffix + [leftChars[|suffix|]];
    }
    assert |suffix| == k;
    result := if suffix == [] then None else Some(Reversed(suffix));
  }

  // ----- three texts -----

  function CommonOfThree(x: string, y: string, z: string): nat {
    if x == [] || y == [] || z == [] || !(x[0] == y[0] == z[0]) then 0 else 1 + CommonOfThree(x[1..], y[1..], z[1..])
  }

  lemma {:induction false} CommonOfThreeMeaning(x: string, y: string, z: string)
    ensures CommonOfThree(x, y, z) <= CommonChars(x, y) <= |x|
    ensures CommonOfThree(x, y, z) <= CommonChars(y, z) <= |y|
    ensures CommonChars(x[..CommonChars(x, y)], z) == CommonOfThree(x, y, z)
    ensures CommonChars(x, y[..CommonChars(y, z)]) == CommonOfThree(x, y, z)
  {
    CommonCharsMeaning(x, y);
    CommonCharsMeaning(y, z);
    var k, l := CommonChars(x, y), CommonChars(y, z);
    if x != [] && y != [] && z != [] && x[0] == y[0] == z[0] {
      CommonOfThreeMeaning(x[1..], y[1..], z[1..]);
      assert x[..k][1..] == x[1..][..k - 1] && y[..l][1..] == y[1..][..l - 1];
    }
  }

  lemma {:induction false} CommonCharsCommute(x: string, y: string)
    ensures CommonChars(x, y) == CommonChars(y, x)
  {
    if x != [] && y != [] && x[0] == y[0] { CommonCharsCommute(x[1..], y[1..]); }
  }

  lemma CommonPrefixCommutes(x: string, y: string)
    ensures CommonPrefix(x, y) == CommonPrefix(y, x)
  {
    CommonPrefixExact(x, y);
    CommonPrefixExact(y, x);
    CommonCharsCommute(x, y);
    CommonCharsMeaning(x, y);
  }

  /** Without a clash the joined prefix is the common run of scalars, if there is one. */
  lemma PrefixRun(x: string, y: string)
    requires !LeadByteClash(x, y)
    ensures CommonChars(x, y) <= |x|
    ensures CommonPrefix(x, y) == if CommonChars(x, y) > 0 then Some(x[..CommonChars(x, y)]) else None
  {
    CommonPrefixExact(x, y);
    CommonCharsMeaning(x, y);
  }

  /** The common suffix of two reversed texts is the reversal of their common run. */
  lemma SuffixRun(x: string, y: string)
    ensures CommonChars(x, y) <= |x|
    ensures CommonSuffix(Reversed(x), Reversed(y)) ==
      if CommonChars(x, y) > 0 then Some(Reversed(x[..CommonChars(x, y)])) else None
  {
    ReversedTwice(x);
    ReversedTwice(y);
    CommonCharsMeaning(x, y);
  }
}
