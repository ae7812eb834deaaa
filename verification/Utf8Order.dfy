/** The order of texts is the order of their UTF-8 bytes, and the scalars that share their first byte. */
module Utf8Order {
  import opened Orders
  import opened Text

  /** At the first place where the sequences differ, the left one has ended or has the smaller number. */
  ghost predicate Before(s: seq<nat>, t: seq<nat>) {
    exists i :: DiffersAt(s, t, i) && (i == |s| || s[i] < t[i])
  }

  predicate DiffersAt(s: seq<nat>, t: seq<nat>, i: int) {
    0 <= i <= |s| && i < |t| && (forall j :: 0 <= j < i ==> s[j] == t[j]) && (i < |s| ==> s[i] != t[i])
  }

  lemma BeforeOneWay(s: seq<nat>, t: seq<nat>)
    requires Before(s, t)
    ensures !Before(t, s) && s != t
  {
    var i :| DiffersAt(s, t, i) && (i == |s| || s[i] < t[i]);
    forall k | DiffersAt(t, s, k) ensures !(k == |t| || t[k] < s[k]) {
      assert !(i < k) && !(k < i);
    }
  }

  lemma NotBeforeItself(s: seq<nat>)
    ensures !Before(s, s)
  {
    if Before(s, s) { BeforeOneWay(s, s); }
  }

  /** The forms of section 3 of RFC 3629; a longer form is only used where the shorter one does not fit. */
  lemma Utf8Forms(c: char)
    ensures var b := Utf8(c); var n := c as int;
      && (n < 0x80 <==> |b| == 1) && (0x80 <= n < 0x800 <==> |b| == 2)
      && (0x800 <= n < 0x1_0000 <==> |b| == 3) && (0x1_0000 <= n <==> |b| == 4)
      && (|b| == 1 ==> b[0] < 0x80) && (|b| == 2 ==> 0xC0 <= b[0] < 0xE0)
      && (|b| == 3 ==> 0xE0 <= b[0] < 0xF0) && (|b| == 4 ==> 0xF0 <= b[0] < 0xF8)
      && forall j :: 1 <= j < |b| ==> 0x80 <= b[j] < 0xC0
  {}

  /** The encodings of two scalars differ first at a byte that both have, in the order of the scalars. */
  lemma ScalarsBefore(c: char, d: char) returns (i: nat)
    requires c < d
    ensures i < |Utf8(c)| && i < |Utf8(d)| && DiffersAt(Utf8(c), Utf8(d), i) && Utf8(c)[i] < Utf8(d)[i]
  {
    var p, q := Utf8(c), Utf8(d);
    Utf8RoundTrip(c);
    Utf8RoundTrip(d);
    Utf8Forms(c);
    Utf8Forms(d);
    hide Utf8;
    i := if p[0] != q[0] then 0 else if p[1] != q[1] then 1 else if p[2] != q[2] then 2 else 3;
  }

  lemma {:induction false} LessIsBefore(a: string, b: string)
    requires StringLess(a, b)
    ensures Before(Encode(a), Encode(b))
  {
    if a == [] {
      assert DiffersAt([], Encode(b), 0);
    } else if a[0] < b[0] {
      var i := ScalarsBefore(a[0], b[0]);
      assert DiffersAt(Encode(a), Encode(b), i);
    } else {
      LessIsBefore(a[1..], b[1..]);
      var s, t, n := Encode(a[1..]), Encode(b[1..]), |Utf8(a[0])|;
      var i :| DiffersAt(s, t, i) && (i == |s| || s[i] < t[i]);
      assert DiffersAt(Utf8(a[0]) + s, Utf8(a[0]) + t, n + i);
    }
  }

  function Scalars(s: string): seq<nat> {
    if s == [] then [] else [s[0] as nat] + Scalars(s[1..])
  }

  lemma {:induction false} LessIsBeforeInScalars(a: string, b: string)
    requires StringLess(a, b)
    ensures Before(Scalars(a), Scalars(b))
  {
    if a == [] || a[0] < b[0] {
      assert DiffersAt(Scalars(a), Scalars(b), 0);
    } else {
      LessIsBeforeInScalars(a[1..], b[1..]);
      var s, t := Scalars(a[1..]), Scalars(b[1..]);
      var i :| DiffersAt(s, t, i) && (i == |s| || s[i] < t[i]);
      assert DiffersAt([a[0] as nat] + s, [a[0] as nat] + t, 1 + i);
    }
  }

  /** Rust compares texts by their UTF-8 bytes; that is the order of their scalars. */
  lemma StringLessExactly(a: string, b: string)
    ensures StringLess(a, b) <==> Before(Encode(a), Encode(b))
    ensures StringLess(a, b) <==> Before(Scalars(a), Scalars(b))
  {
    hide StringLess, Before, Encode, Scalars;
    StringConnex(a, b);
    if StringLess(a, b) {
      LessIsBefore(a, b);
      LessIsBeforeInScalars(a, b);
    } else if StringLess(b, a) {
      LessIsBefore(b, a);
      LessIsBeforeInScalars(b, a);
      BeforeOneWay(Encode(b), Encode(a));
      BeforeOneWay(Scalars(b), Scalars(a));
    } else {
      NotBeforeItself(Encode(a));
      NotBeforeItself(Scalars(a));
    }
  }

  /** Two scalars share their first byte exactly if they are equal or lie in one block of 64, 4096 or 262144,
      according to the length of their encoding. */
  lemma SameFirstByte(c: char, d: char)
    ensures Utf8(c)[0] == Utf8(d)[0] <==> (var (m, n) := (c as int, d as int);
      || m == n
      || (0x80 <= m < 0x800 && 0x80 <= n < 0x800 && m / 64 == n / 64)
      || (0x800 <= m < 0x1_0000 && 0x800 <= n < 0x1_0000 && m / 4096 == n / 4096)
      || (0x1_0000 <= m && 0x1_0000 <= n && m / 262144 == n / 262144))
  {}
}
