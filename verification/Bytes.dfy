/** Byte strings. */
module ByteStrings {
  type Byte = b: int | 0 <= b < 256

  type Bytes = seq<Byte>

  /** Python's `a[from:to]` for bounds that are not negative: both are clamped to the length. */
  function Slice(a: Bytes, from: nat, to: nat): Bytes {
    var hi := if to <= |a| then to else |a|;
    if from <= hi then a[from..hi] else []
  }

  lemma SliceLength(a: Bytes, from: nat, to: nat)
    requires from <= to <= |a|
    ensures |Slice(a, from, to)| == to - from
  {}

  lemma SliceMiddle(a: Bytes, b: Bytes, c: Bytes)
    ensures Slice(a + b + c, |a|, |a| + |b|) == b
  {}

  /** The value of a hexadecimal digit of either case, or -1. */
  function HexValue(b: Byte): int {
    if 0x30 <= b <= 0x39 then b - 0x30
    else if 0x41 <= b <= 0x46 then b - 0x37
    else if 0x61 <= b <= 0x66 then b - 0x57
    else -1
  }

  /** The value of a run of hexadecimal digits, or -1 when another byte is among them. */
  function HexNumber(digits: Bytes): int {
    if digits == [] then 0
    else
      var high := HexNumber(digits[..|digits| - 1]);
      var low := HexValue(digits[|digits| - 1]);
      if high < 0 || low < 0 then -1 else 16 * high + low
  }

  function HexDigit(n: nat): Byte
    requires n < 16
  {
    if n < 10 then 0x30 + n else 0x57 + n
  }

  lemma HexDigitValue(n: nat)
    requires n < 16
    ensures HexValue(HexDigit(n)) == n
  {}

  // ----- what a hexadecimal numeral is -----

  const LowerDigits := "0123456789abcdef"

  const UpperDigits := "0123456789ABCDEF"

  /** The byte is the digit for `d`, of either case. */
  predicate IsDigit(b: Byte, d: nat) {
    d < 16 && (b == LowerDigits[d] as int || b == UpperDigits[d] as int)
  }

  /** The number with these digits, the most significant one first. */
  function Positional(digits: seq<nat>): nat {
    if digits == [] then 0 else 16 * Positional(digits[..|digits| - 1]) + digits[|digits| - 1]
  }

  ghost predicate Spells(s: Bytes, digits: seq<nat>) {
    |s| == |digits| && forall i :: 0 <= i < |s| ==> IsDigit(s[i], digits[i])
  }

  /** The bytes are hexadecimal digits of either case and spell `n`. */
  ghost predicate Numeral(s: Bytes, n: nat) { exists digits :: Spells(s, digits) && Positional(digits) == n }

  predicate SpellsLower(s: Bytes, digits: seq<nat>) {
    |s| == |digits| && forall i :: 0 <= i < |s| ==> digits[i] < 16 && s[i] == LowerDigits[digits[i]] as int
  }

  /** The same with lower-case digits only. */
  ghost predicate LowerNumeral(s: Bytes, n: nat) { exists digits :: SpellsLower(s, digits) && Positional(digits) == n }

  lemma OneDigitMore(s: Bytes, digits: seq<nat>, b: Byte, d: nat)
    requires SpellsLower(s, digits) && d < 16 && b == LowerDigits[d] as int
    ensures SpellsLower(s + [b], digits + [d]) && Positional(digits + [d]) == 16 * Positional(digits) + d
  {
    assert (digits + [d])[..|digits|] == digits;
  }

  lemma HexValueExactly(b: Byte, d: nat)
    ensures HexValue(b) == d <==> IsDigit(b, d)
  {}

  lemma {:induction false} HexNumberExactly(s: Bytes, n: nat)
    ensures HexNumber(s) == n <==> Numeral(s, n)
    decreases |s|
  {
    hide HexValue, IsDigit;
    if s == [] {
      if HexNumber(s) == n { assert Spells(s, []); }
    } else {
      var last := |s| - 1;
      if HexNumber(s) == n {
        var high, low := HexNumber(s[..last]), HexValue(s[last]);
        HexNumberExactly(s[..last], high);
        HexValueExactly(s[last], low);
        var digits :| Spells(s[..last], digits) && Positional(digits) == high;
        assert (digits + [low])[..last] == digits;
        assert Spells(s, digits + [low]);
      }
      if digits :| Spells(s, digits) && Positional(digits) == n {
        assert Spells(s[..last], digits[..last]);
        HexNumberExactly(s[..last], Positional(digits[..last]));
        HexValueExactly(s[last], digits[last]);
      }
    }
  }
}
