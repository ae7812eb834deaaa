/** What the archive reader answers on any bytes (scripts/build_vm_bundle.py): the records that can be read one
    after the other from the start, and then the trailer or the first check that fails. The numbers, the lengths
    and the places of a record are described on the bytes, without the reader's own functions, and the answer
    is shown to be the only one that fits such a description. */
module NewcReading {
  import opened Outcomes
  import opened ByteStrings
  import opened Newc
  import opened NewcLayout

  // ----- one record -----

  /** The bytes of the archive from `from` up to `to`, as far as there are any. */
  ghost predicate Clamped(archive: Bytes, from: nat, to: int, piece: Bytes) {
    && |piece| == (if to <= from || |archive| <= from then 0
                   else if to <= |archive| then to - from else |archive| - from)
    && forall i :: 0 <= i < |piece| ==> piece[i] == archive[from + i]
  }

  ghost predicate IsNumber(s: Bytes) { exists n :: Numeral(s, n) }

  /** The header fits, starts with the magic, and consists of thirteen numbers. */
  ghost predicate HeaderReads(archive: Bytes, at: nat) {
    at + 110 <= |archive| && MagicAt(archive, at)
    && forall k :: 0 <= k < 13 ==> IsNumber(FieldAt(archive, at, k))
  }

  /** The record at this place has this name and these contents, and the next one starts there. */
  ghost predicate Reads(archive: Bytes, at: nat, name: Bytes, contents: Bytes, next: nat) {
    HeaderReads(archive, at)
    && exists size, length :: ReadsSized(archive, at, size, length, name, contents, next)
  }

  ghost predicate ReadsSized(
    archive: Bytes, at: nat, size: nat, length: nat, name: Bytes, contents: Bytes, next: nat)
  {
    && at + 110 <= |archive|
    && Numeral(FieldAt(archive, at, 6), size) && Numeral(FieldAt(archive, at, 11), length)
    && Clamped(archive, at + 110, at + 110 + length - 1, name)
    && var body := RoundUp4(at + 110 + length);
      Clamped(archive, body, body + size, contents) && next == RoundUp4(body + size)
  }

  predicate IsTrailer(name: Bytes) { name == [0x54, 0x52, 0x41, 0x49, 0x4C, 0x45, 0x52, 0x21, 0x21, 0x21] }

  // ----- a chain of records -----

  type Item = (Bytes, Bytes)

  /** From `from` on these records are read, one after the other, up to `to`. */
  ghost predicate Chained(decodable: Bytes -> bool, archive: Bytes, from: nat, items: seq<Item>, to: nat)
    decreases |items|
  {
    if items == [] then from == to
    else
      && decodable(items[0].0) && !IsTrailer(items[0].0)
      && exists next ::
        Reads(archive, from, items[0].0, items[0].1, next) && Chained(decodable, archive, next, items[1..], to)
  }

  /** The `i`-th record is the last one with its name. */
  ghost predicate IsLast(items: seq<Item>, i: nat, name: Bytes, contents: Bytes) {
    i < |items| && items[i] == (name, contents) && forall j :: i < j < |items| ==> items[j].0 != name
  }

  /** The contents of the last record with each name. */
  ghost predicate LastOfEach(items: seq<Item>, result: Contents) {
    && (forall i :: 0 <= i < |items| ==> items[i].0 in result)
    && (forall name :: name in result ==> exists i: nat :: IsLast(items, i, name, result[name]))
  }

  /** Why reading ends here. */
  ghost predicate EndsAt(
    decodable: Bytes -> bool, archive: Bytes, at: nat, items: seq<Item>, result: Result<Contents, ReadError>)
  {
    match result
    case Ok(contents) =>
      LastOfEach(items, contents)
      && exists name, last, next :: Reads(archive, at, name, last, next) && decodable(name) && IsTrailer(name)
    case Err(NoTrailer) => at + 110 > |archive|
    case Err(BadMagic(place)) => at + 110 <= |archive| && place == at && !MagicAt(archive, at)
    case Err(BadField) => at + 110 <= |archive| && MagicAt(archive, at) && !HeaderReads(archive, at)
    case Err(BadName) => exists name, last, next :: Reads(archive, at, name, last, next) && !decodable(name)
  }

  // ----- the reader sees this -----

  lemma ClampedIsSlice(archive: Bytes, from: nat, to: nat, piece: Bytes)
    ensures Clamped(archive, from, to, piece) <==> piece == Slice(archive, from, to)
  {}

  lemma RoundUpIsAlign(n: nat)
    ensures RoundUp4(n) == Align(n) >= n
  {}

  lemma MagicIsPrefix(archive: Bytes, at: nat)
    requires at + 110 <= |archive|
    ensures MagicAt(archive, at) <==> Slice(archive, at, at + 110)[..6] == Magic
  {
    assert archive[at..at + 110][..6] == archive[at..at + 6];
  }

  function Eight(s: Bytes, k: nat): Bytes
    requires 8 * k + 8 <= |s|
  {
    s[8 * k..8 * k + 8]
  }

  lemma {:induction false} ParseFieldsExactly(digits: Bytes, n: nat)
    requires |digits| == 8 * n
    ensures ParseFields(digits).Some? <==> forall k :: 0 <= k < n ==> HexNumber(Eight(digits, k)) >= 0
    ensures ParseFields(digits).Some? ==> |ParseFields(digits).value| == n
    ensures ParseFields(digits).Some? ==>
      forall k :: 0 <= k < n ==> ParseFields(digits).value[k] == HexNumber(Eight(digits, k))
    decreases n
  {
    hide HexNumber;
    if n > 0 {
      var rest := digits[8..];
      ParseFieldsExactly(rest, n - 1);
      forall k | 0 <= k < n - 1 ensures Eight(rest, k) == Eight(digits, k + 1) {}
      assert Eight(digits, 0) == digits[..8];
      assert forall k :: 1 <= k < n ==> Eight(digits, k) == Eight(rest, k - 1);
    }
  }

  lemma NumeralSomehow(s: Bytes)
    ensures HexNumber(s) >= 0 <==> IsNumber(s)
  {
    if HexNumber(s) >= 0 { HexNumberExactly(s, HexNumber(s)); }
    if n: nat :| Numeral(s, n) { HexNumberExactly(s, n); }
  }

  lemma SubSlice(s: Bytes, a: nat, b: nat, c: nat, d: nat)
    requires a <= b <= |s| && c <= d <= b - a
    ensures s[a..b][c..d] == s[a + c..a + d]
  {
    var inner, outer := s[a..b][c..d], s[a + c..a + d];
    assert |inner| == |outer| == d - c;
    forall i | 0 <= i < d - c ensures inner[i] == outer[i] {
      assert s[a..b][c + i] == s[a + (c + i)];
    }
  }

  lemma EightIsField(archive: Bytes, at: nat, k: nat)
    requires at + 110 <= |archive| && k < 13
    ensures Eight(Slice(archive, at, at + 110)[6..], k) == FieldAt(archive, at, k)
  {
    var fields := Slice(archive, at, at + 110)[6..];
    assert fields == archive[at + 6..at + 110];
    SubSlice(archive, at + 6, at + 110, 8 * k, 8 * k + 8);
    assert fields[8 * k..8 * k + 8] == archive[at + 6 + 8 * k..at + 6 + (8 * k + 8)];
    assert at + 6 + (8 * k + 8) == at + 14 + 8 * k;
  }

  /** The parsed fields are the thirteen numbers of the header. */
  lemma HeaderParsed(archive: Bytes, at: nat)
    requires at + 110 <= |archive|
    ensures var header := Slice(archive, at, at + 110);
      && |header| == 110
      && (HeaderReads(archive, at) <==> MagicAt(archive, at) && ParseFields(header[6..]).Some?)
      && (ParseFields(header[6..]).Some? ==> |ParseFields(header[6..]).value| == 13)
      && (ParseFields(header[6..]).Some? ==>
        forall k :: 0 <= k < 13 ==> ParseFields(header[6..]).value[k] == HexNumber(FieldAt(archive, at, k)))
  {
    var header := Slice(archive, at, at + 110);
    var digits := header[6..];
    hide HexNumber, IsNumber, ParseFields, MagicAt, Eight, FieldAt;
    ParseFieldsExactly(digits, 13);
    forall k | 0 <= k < 13
      ensures Eight(digits, k) == FieldAt(archive, at, k)
      ensures HexNumber(FieldAt(archive, at, k)) >= 0 <==> IsNumber(FieldAt(archive, at, k))
    {
      EightIsField(archive, at, k);
      NumeralSomehow(FieldAt(archive, at, k));
    }
    if HeaderReads(archive, at) {
      forall k | 0 <= k < 13 ensures HexNumber(Eight(digits, k)) >= 0 {
        assert IsNumber(FieldAt(archive, at, k));
      }
    }
    if ParseFields(digits).Some? {
      forall k | 0 <= k < 13 ensures IsNumber(FieldAt(archive, at, k)) {
        assert HexNumber(Eight(digits, k)) >= 0;
      }
    }
  }

  lemma ReadsUnique(
    archive: Bytes, at: nat, name: Bytes, contents: Bytes, next: nat, name': Bytes, contents': Bytes, next': nat)
    requires Reads(archive, at, name, contents, next) && Reads(archive, at, name', contents', next')
    ensures name == name' && contents == contents' && next == next'
  {
    hide HeaderReads, Numeral, Clamped, RoundUp4, FieldAt, Slice;
    var size, length :| ReadsSized(archive, at, size, length, name, contents, next);
    var size', length' :| ReadsSized(archive, at, size', length', name', contents', next');
    HexNumberExactly(FieldAt(archive, at, 6), size);
    HexNumberExactly(FieldAt(archive, at, 6), size');
    HexNumberExactly(FieldAt(archive, at, 11), length);
    HexNumberExactly(FieldAt(archive, at, 11), length');
    ClampedIsSlice(archive, at + 110, at + 110 + length - 1, name);
    ClampedIsSlice(archive, at + 110, at + 110 + length - 1, name');
    var body := RoundUp4(at + 110 + length);
    ClampedIsSlice(archive, body, body + size, contents);
    ClampedIsSlice(archive, body, body + size, contents');
  }

  /** One turn of the reader's loop. */
  lemma ReadTurn(decodable: Bytes -> bool, archive: Bytes, at: nat, into: Contents)
    returns (name: Bytes, contents: Bytes, next: nat)
    requires HeaderReads(archive, at)
    ensures Reads(archive, at, name, contents, next) && at < next
    ensures ReadFrom(decodable, archive, at, into) ==
      if !decodable(name) then Err(BadName)
      else if IsTrailer(name) then Ok(into)
      else ReadFrom(decodable, archive, next, into[name := contents])
  {
    hide HexNumber, Numeral, ParseFields, MagicAt, Slice, RoundUp4, Align, FieldAt;
    MagicIsPrefix(archive, at);
    HeaderParsed(archive, at);
    var fields := ParseFields(Slice(archive, at, at + 110)[6..]).value;
    var size, length := fields[6], fields[11];
    HexNumberExactly(FieldAt(archive, at, 6), size);
    HexNumberExactly(FieldAt(archive, at, 11), length);
    var start := at + 110;
    name := Slice(archive, start, start + length - 1);
    var body := Align(start + length);
    contents := Slice(archive, body, body + size);
    next := Align(body + size);
    ClampedIsSlice(archive, start, start + length - 1, name);
    ClampedIsSlice(archive, body, body + size, contents);
    RoundUpIsAlign(start + length);
    RoundUpIsAlign(body + size);
    hide Clamped, HeaderReads;
    assert ReadsSized(archive, at, size, length, name, contents, next);
  }

  lemma ReadRefused(decodable: Bytes -> bool, archive: Bytes, at: nat, into: Contents)
    requires !HeaderReads(archive, at)
    ensures ReadFrom(decodable, archive, at, into) ==
      if at + 110 > |archive| then Err(NoTrailer)
      else if !MagicAt(archive, at) then Err(BadMagic(at))
      else Err(BadField)
  {
    hide HexNumber, Numeral, ParseFields, MagicAt, Slice;
    if at + 110 <= |archive| {
      MagicIsPrefix(archive, at);
      HeaderParsed(archive, at);
    }
  }

  // ----- whole archives -----

  lemma LastOfEachGrows(items: seq<Item>, result: Contents, name: Bytes, contents: Bytes)
    requires LastOfEach(items, result)
    ensures LastOfEach(items + [(name, contents)], result[name := contents])
  {
    var more, grown := items + [(name, contents)], result[name := contents];
    forall key | key in grown ensures exists i: nat :: IsLast(more, i, key, grown[key]) {
      if key == name {
        assert IsLast(more, |items|, key, contents);
      } else {
        var i: nat :| IsLast(items, i, key, result[key]);
        assert IsLast(more, i, key, grown[key]);
      }
    }
  }

  lemma LastOfEachUnique(items: seq<Item>, one: Contents, two: Contents)
    requires LastOfEach(items, one) && LastOfEach(items, two)
    ensures one == two
  {
    forall name | name in one ensures name in two && one[name] == two[name] { SameLast(items, one, two, name); }
    forall name | name in two ensures name in one { SameLast(items, two, one, name); }
  }

  lemma SameLast(items: seq<Item>, one: Contents, two: Contents, name: Bytes)
    requires LastOfEach(items, one) && LastOfEach(items, two) && name in one
    ensures name in two && one[name] == two[name]
  {
    var i: nat :| IsLast(items, i, name, one[name]);
    assert items[i].0 in two;
    var k: nat :| IsLast(items, k, name, two[name]);
    assert i == k;
  }

  /** Reading from some place follows a chain of records to where it ends. */
  lemma {:induction false} ReadFollows(
    decodable: Bytes -> bool, archive: Bytes, at: nat, before: seq<Item>, into: Contents)
    returns (items: seq<Item>, to: nat)
    requires LastOfEach(before, into)
    ensures Chained(decodable, archive, at, items, to)
    ensures EndsAt(decodable, archive, to, before + items, ReadFrom(decodable, archive, at, into))
    decreases |archive| - at
  {
    hide ReadFrom, LastOfEach, Reads;
    items, to := [], at;
    assert before + [] == before;
    if !HeaderReads(archive, at) {
      ReadRefused(decodable, archive, at, into);
    } else {
      assert at < |archive|;
      var name, contents, next := ReadTurn(decodable, archive, at, into);
      if decodable(name) && !IsTrailer(name) {
        LastOfEachGrows(before, into, name, contents);
        var rest;
        rest, to := ReadFollows(decodable, archive, next, before + [(name, contents)], into[name := contents]);
        items := [(name, contents)] + rest;
        assert items[1..] == rest && (before + [(name, contents)]) + rest == before + items;
      }
    }
  }

  lemma ReadsNeedsHeader(archive: Bytes, at: nat, name: Bytes, contents: Bytes, next: nat)
    requires Reads(archive, at, name, contents, next)
    ensures HeaderReads(archive, at)
  {}

  /** Where reading ends, it gives this result. */
  lemma EndReads(
    decodable: Bytes -> bool, archive: Bytes, at: nat, items: seq<Item>, into: Contents,
    result: Result<Contents, ReadError>)
    requires LastOfEach(items, into) && EndsAt(decodable, archive, at, items, result)
    ensures ReadFrom(decodable, archive, at, into) == result
  {
    hide ReadFrom, LastOfEach, Reads;
    if HeaderReads(archive, at) {
      var name, contents, next := ReadTurn(decodable, archive, at, into);
      if result.Ok? || result.error.BadName? {
        var name', contents', next' :| Reads(archive, at, name', contents', next')
          && (if result.Ok? then decodable(name') && IsTrailer(name') else !decodable(name'));
        ReadsUnique(archive, at, name, contents, next, name', contents', next');
      }
      if result.Ok? { LastOfEachUnique(items, into, result.value); }
    } else {
      ReadRefused(decodable, archive, at, into);
      forall name, contents, next ensures !Reads(archive, at, name, contents, next) {
        if Reads(archive, at, name, contents, next) { ReadsNeedsHeader(archive, at, name, contents, next); }
      }
    }
  }

  lemma {:induction false} ChainReads(
    decodable: Bytes -> bool, archive: Bytes, at: nat, before: seq<Item>, into: Contents, items: seq<Item>, to: nat,
    result: Result<Contents, ReadError>)
    requires LastOfEach(before, into) && Chained(decodable, archive, at, items, to)
    requires EndsAt(decodable, archive, to, before + items, result)
    ensures ReadFrom(decodable, archive, at, into) == result
    decreases |items|
  {
    hide ReadFrom, LastOfEach, Reads, EndsAt;
    if items == [] {
      assert before + [] == before;
      EndReads(decodable, archive, at, before, into, result);
    } else {
      var item := items[0];
      var next :| Reads(archive, at, item.0, item.1, next) && Chained(decodable, archive, next, items[1..], to);
      ReadsNeedsHeader(archive, at, item.0, item.1, next);
      var name, contents, next' := ReadTurn(decodable, archive, at, into);
      ReadsUnique(archive, at, name, contents, next', item.0, item.1, next);
      LastOfEachGrows(before, into, item.0, item.1);
      assert (before + [item]) + items[1..] == before + items;
      ChainReads(decodable, archive, next, before + [item], into[item.0 := item.1], items[1..], to, result);
    }
  }

  /** The reader's answer to any bytes is the one that a chain of records explains. */
  lemma ReadExactly(decodable: Bytes -> bool, archive: Bytes, result: Result<Contents, ReadError>)
    ensures ReadFrom(decodable, archive, 0, map[]) == result <==>
      exists items, to :: Chained(decodable, archive, 0, items, to) && EndsAt(decodable, archive, to, items, result)
  {
    assert LastOfEach([], map[]);
    hide ReadFrom, LastOfEach, EndsAt, Chained;
    if ReadFrom(decodable, archive, 0, map[]) == result {
      var items, to := ReadFollows(decodable, archive, 0, [], map[]);
      assert [] + items == items;
    }
    if items, to :| Chained(decodable, archive, 0, items, to) && EndsAt(decodable, archive, to, items, result) {
      assert [] + items == items;
      ChainReads(decodable, archive, 0, [], map[], items, to, result);
    }
  }
}
