/** The bytes of a newc archive (scripts/build_vm_bundle.py): where each record starts, what each field of its header
    reads, and which bytes are padding. All of it is told by the bytes, without the writer's own functions. */
module NewcLayout {
  import opened Outcomes
  import opened ByteStrings
  import opened Newc

  // ----- the layout of one record -----

  /** The next multiple of four. */
  function RoundUp4(n: nat): nat { if n % 4 == 0 then n else n + 4 - n % 4 }

  predicate PieceAt(archive: Bytes, at: nat, piece: Bytes) {
    at + |piece| <= |archive| && archive[at..at + |piece|] == piece
  }

  predicate ZerosAt(archive: Bytes, from: nat, to: nat) {
    from <= to <= |archive| && forall i :: from <= i < to ==> archive[i] == 0
  }

  /** "070701" */
  predicate MagicAt(archive: Bytes, at: nat) { PieceAt(archive, at, [0x30, 0x37, 0x30, 0x37, 0x30, 0x31]) }

  /** The bytes of the `k`-th of the thirteen numbers of a header. */
  function FieldAt(archive: Bytes, start: nat, k: nat): Bytes
    requires k < 13 && start + 110 <= |archive|
  {
    archive[start + 6 + 8 * k..start + 14 + 8 * k]
  }

  /** The number of the entry, its mode, its links, the length of its contents, and the length of its name
      with a zero byte; all other fields are zero. */
  function FieldValue(k: nat, number: nat, e: Entry): nat {
    if k == 0 then number
    else if k == 1 then e.mode
    else if k == 4 then if e.mode % 0x1_0000 - e.mode % 0x1000 == 0x4000 then 2 else 1
    else if k == 6 then |e.contents|
    else if k == 11 then |e.name| + 1
    else 0
  }

  /** A record from `start`, which is a multiple of four, up to `next`: the header, the name and at least one
      zero byte up to a multiple of four, the contents and zero bytes up to a multiple of four. */
  ghost predicate RecordLaid(archive: Bytes, start: nat, number: nat, e: Entry, next: nat) {
    && start % 4 == 0 && start + 110 <= |archive| && MagicAt(archive, start)
    && (forall k :: 0 <= k < 13 ==> LowerNumeral(FieldAt(archive, start, k), FieldValue(k, number, e)))
    && PieceAt(archive, start + 110, e.name)
    && var body := RoundUp4(start + 110 + |e.name| + 1);
      && ZerosAt(archive, start + 110 + |e.name|, body)
      && PieceAt(archive, body, e.contents)
      && next == RoundUp4(body + |e.contents|)
      && ZerosAt(archive, body + |e.contents|, next)
  }

  /** Where the `i`-th record starts. */
  function StartOf(entries: seq<Entry>, i: nat): nat
    requires i <= |entries|
  {
    if i == 0 then 0
    else
      var e := entries[i - 1];
      RoundUp4(RoundUp4(StartOf(entries, i - 1) + 110 + |e.name| + 1) + |e.contents|)
  }

  /** "TRAILER!!!" with mode zero and no contents. */
  const Trailer := Entry([0x54, 0x52, 0x41, 0x49, 0x4C, 0x45, 0x52, 0x21, 0x21, 0x21], 0, [])

  /** The records of the entries and of the trailer, numbered from one, and nothing else. */
  ghost predicate ArchiveLaid(archive: Bytes, entries: seq<Entry>) {
    var all := entries + [Trailer];
    && (forall i :: 0 <= i < |all| ==>
      RecordLaid(archive, StartOf(all, i), i + 1, all[i], StartOf(all, i + 1)))
    && |archive| == StartOf(all, |all|)
  }

  // ----- numerals -----

  lemma LowerDigit(n: nat)
    requires n < 16
    ensures HexDigit(n) == LowerDigits[n] as int
  {}

  lemma {:induction false} HexSpells(value: nat, width: nat) returns (digits: seq<nat>)
    requires value < Power16(width)
    ensures SpellsLower(Hex(value, width), digits) && Positional(digits) == value
  {
    digits := [];
    if width > 0 {
      digits := HexSpells(value / 16, width - 1);
      LowerDigit(value % 16);
      OneDigitMore(Hex(value / 16, width - 1), digits, HexDigit(value % 16), value % 16);
      digits := digits + [value % 16];
    }
  }

  lemma HexFieldSpells(value: nat)
    requires value < 0x1_0000_0000
    ensures |HexField(value)| == 8 && LowerNumeral(HexField(value), value)
  {
    hide SpellsLower, Positional, Hex;
    HexFieldRoundTrip(value);
    assert Power16(4) == 0x1_0000 && Power16(8) == 0x1_0000_0000;
    HexLengthBound(value, 8);
    var digits := HexSpells(value, 8);
    assert HexField(value) == Hex(value, 8);
  }

  lemma {:induction false} HexFieldsAt(values: seq<nat>, k: nat)
    requires k < |values| && forall i :: 0 <= i < |values| ==> values[i] < 0x1_0000_0000
    ensures 8 * k + 8 <= |HexFields(values)| && HexFields(values)[8 * k..8 * k + 8] == HexField(values[k])
  {
    hide HexField, LowerNumeral;
    HexFieldSpells(values[0]);
    var first, rest := HexField(values[0]), HexFields(values[1..]);
    if k > 0 {
      HexFieldsAt(values[1..], k - 1);
      assert (first + rest)[8 * k..8 * k + 8] == rest[8 * k - 8..8 * k];
    }
  }

  lemma FieldsAre(number: nat, e: Entry, k: nat)
    requires number < 0x1_0000_0000 && Writable(e) && k < 13
    ensures |Fields(number, e)| == 13 && Fields(number, e)[k] == FieldValue(k, number, e) < 0x1_0000_0000
  {}

  lemma HeaderSlice(fields: Bytes, k: nat)
    requires |fields| == 104 && k < 13
    ensures (Magic + fields)[6 + 8 * k..14 + 8 * k] == fields[8 * k..8 * k + 8]
    ensures (Magic + fields)[0..6] == Magic
  {}

  lemma HeaderFields(number: nat, e: Entry, k: nat)
    requires number < 0x1_0000_0000 && Writable(e) && k < 13
    ensures |Header(number, e)| == 110 && MagicAt(Header(number, e), 0)
    ensures LowerNumeral(FieldAt(Header(number, e), 0, k), FieldValue(k, number, e))
  {
    hide HexFields, HexField, LowerNumeral, Fields, FieldValue, ParseFields, Writable;
    var values := Fields(number, e);
    HeaderRead(number, e);
    forall i | 0 <= i < 13 ensures |values| == 13 && values[i] < 0x1_0000_0000 { FieldsAre(number, e, i); }
    FieldsAre(number, e, k);
    HexFieldsAt(values, k);
    HexFieldSpells(values[k]);
    HeaderSlice(HexFields(values), k);
  }

  // ----- one written record -----

  lemma PieceIn(a: Bytes, piece: Bytes, c: Bytes)
    ensures PieceAt(a + piece + c, |a|, piece)
  {}

  lemma ZerosIn(a: Bytes, zeros: Bytes, c: Bytes)
    requires forall i :: 0 <= i < |zeros| ==> zeros[i] == 0
    ensures ZerosAt(a + zeros + c, |a|, |a| + |zeros|)
  {
    var archive := a + zeros + c;
    forall i | |a| <= i < |a| + |zeros| ensures archive[i] == 0 { assert archive[i] == zeros[i - |a|]; }
  }

  lemma PaddingRounds(start: nat, length: nat)
    requires start % 4 == 0
    ensures RoundUp4(start + length) == start + length + |Padding(length)|
    ensures RoundUp4(start + length) % 4 == 0 && forall i :: 0 <= i < |Padding(length)| ==> Padding(length)[i] == 0
  {
    MissingBytes(length);
    assert (start + length) % 4 == length % 4;
    hide Missing;
  }

  lemma MissingBytes(length: nat)
    ensures Missing(length) == if length % 4 == 0 then 0 else 4 - length % 4
  {}

  /** A piece at some place keeps what is said about it inside. */
  lemma FieldInPiece(archive: Bytes, start: nat, header: Bytes, k: nat)
    requires |header| == 110 && k < 13 && PieceAt(archive, start, header)
    ensures FieldAt(archive, start, k) == FieldAt(header, 0, k)
    ensures MagicAt(header, 0) ==> MagicAt(archive, start)
  {
    assert archive[start..start + 110][6 + 8 * k..14 + 8 * k] == archive[start + 6 + 8 * k..start + 14 + 8 * k];
    assert archive[start..start + 110][..6] == archive[start..start + 6];
  }

  lemma WrittenRecordLaid(pre: Bytes, number: nat, e: Entry, post: Bytes)
    requires |pre| % 4 == 0 && number < 0x1_0000_0000 && Writable(e)
    ensures RecordLaid(pre + Record(number, e) + post, |pre|, number, e, |pre| + |Record(number, e)|)
    ensures (|pre| + |Record(number, e)|) % 4 == 0
    ensures |pre| + |Record(number, e)| == RoundUp4(RoundUp4(|pre| + 110 + |e.name| + 1) + |e.contents|)
  {
    hide Record, Header, FieldValue, LowerNumeral, Padding, RoundUp4, Writable;
    var header, n, m := Header(number, e), |e.name| + 1, |e.contents|;
    var pad1, pad2 := Padding(110 + n), Padding(m);
    RecordParts(number, e);
    HeaderFields(number, e, 0);
    PaddingRounds(|pre|, 110 + n);
    PaddingRounds(|pre| + 110 + n + |pad1|, m);
    var archive := pre + Record(number, e) + post;
    LaidPieces(archive, pre, header, e.name, pad1, e.contents, pad2, post);
    forall k | 0 <= k < 13 ensures LowerNumeral(FieldAt(archive, |pre|, k), FieldValue(k, number, e)) {
      HeaderFields(number, e, k);
      FieldInPiece(archive, |pre|, header, k);
    }
    FieldInPiece(archive, |pre|, header, 0);
  }

  lemma LaidPieces(archive: Bytes, pre: Bytes, header: Bytes, name: Bytes, pad1: Bytes, contents: Bytes, pad2: Bytes,
                   post: Bytes)
    requires archive == pre + (header + (name + [0]) + pad1 + contents + pad2) + post && |header| == 110
    requires forall i :: 0 <= i < |pad1| ==> pad1[i] == 0
    requires forall i :: 0 <= i < |pad2| ==> pad2[i] == 0
    ensures PieceAt(archive, |pre|, header) && PieceAt(archive, |pre| + 110, name)
    ensures var body := |pre| + 110 + |name| + 1 + |pad1|;
      && ZerosAt(archive, |pre| + 110 + |name|, body) && PieceAt(archive, body, contents)
      && ZerosAt(archive, body + |contents|, body + |contents| + |pad2|)
  {
    hide PieceAt, ZerosAt;
    var behind := contents + (pad2 + post);
    Nest(pre, header, name, pad1, contents, pad2, post);
    StepPiece(pre, header, name + (([0] + pad1) + behind));
    StepPiece(pre + header, name, ([0] + pad1) + behind);
    StepZeros(pre + header + name, [0] + pad1, behind);
    StepPiece(pre + header + name + ([0] + pad1), contents, pad2 + post);
    StepZeros(pre + header + name + ([0] + pad1) + contents, pad2, post);
  }

  lemma Nest(pre: Bytes, header: Bytes, name: Bytes, pad1: Bytes, contents: Bytes, pad2: Bytes, post: Bytes)
    ensures pre + (header + (name + [0]) + pad1 + contents + pad2) + post ==
      pre + (header + (name + (([0] + pad1) + (contents + (pad2 + post)))))
  {}

  lemma StepPiece(a: Bytes, piece: Bytes, c: Bytes)
    ensures PieceAt(a + (piece + c), |a|, piece) && a + (piece + c) == a + piece + c
  {
    PieceIn(a, piece, c);
  }

  lemma StepZeros(a: Bytes, zeros: Bytes, c: Bytes)
    requires forall i :: 0 <= i < |zeros| ==> zeros[i] == 0
    ensures ZerosAt(a + (zeros + c), |a|, |a| + |zeros|) && a + (zeros + c) == a + zeros + c
  {
    ZerosIn(a, zeros, c);
    assert a + (zeros + c) == a + zeros + c;
  }

  // ----- the whole archive -----

  lemma SliceTails(entries: seq<Entry>, i: nat)
    requires 0 < i <= |entries|
    ensures entries[..i] != [] && entries[..i][0] == entries[0]
    ensures entries[..i][1..] == entries[1..][..i - 1] && entries[1..][i - 1..] == entries[i..]
  {}

  lemma {:induction false} RecordsSplit(entries: seq<Entry>, number: nat, i: nat)
    requires i <= |entries|
    ensures Records(entries, number) == Records(entries[..i], number) + Records(entries[i..], number + i)
    decreases i
  {
    if i == 0 {
      assert Records(entries[..0], number) == [] && entries[0..] == entries;
    } else {
      SliceTails(entries, i);
      hide Record, Records;
      RecordsHead(entries, number);
      RecordsHead(entries[..i], number);
      RecordsSplit(entries[1..], number + 1, i - 1);
      Associate(Record(number, entries[0]), Records(entries[..i][1..], number + 1), Records(entries[i..], number + i));
    }
  }

  lemma RecordsHead(entries: seq<Entry>, number: nat)
    requires entries != []
    ensures Records(entries, number) == Record(number, entries[0]) + Records(entries[1..], number + 1)
  {}

  lemma Associate(a: Bytes, b: Bytes, c: Bytes)
    ensures a + (b + c) == a + b + c
  {}

  ghost predicate Numbered(entries: seq<Entry>) {
    |entries| < 0x1_0000_0000 && forall i :: 0 <= i < |entries| ==> Writable(entries[i])
  }

  lemma StartStep(entries: seq<Entry>, i: nat)
    requires 0 < i <= |entries|
    ensures StartOf(entries, i) ==
      RoundUp4(RoundUp4(StartOf(entries, i - 1) + 110 + |entries[i - 1].name| + 1) + |entries[i - 1].contents|)
  {}

  lemma OneRecordMore(entries: seq<Entry>, i: nat)
    requires 0 < i <= |entries|
    ensures Records(entries[..i], 1) == Records(entries[..i - 1], 1) + Record(i, entries[i - 1])
  {
    hide Record, Records;
    RecordsAppend(entries[..i - 1], entries[i - 1], 1);
    assert entries[..i] == entries[..i - 1] + [entries[i - 1]];
  }

  lemma RecordEnd(start: nat, number: nat, e: Entry)
    requires start % 4 == 0 && number < 0x1_0000_0000 && Writable(e)
    ensures start + |Record(number, e)| == RoundUp4(RoundUp4(start + 110 + |e.name| + 1) + |e.contents|)
    ensures RoundUp4(RoundUp4(start + 110 + |e.name| + 1) + |e.contents|) % 4 == 0
  {
    hide Record, Header, Padding, RoundUp4, Writable;
    RecordParts(number, e);
    HeaderFields(number, e, 0);
    PaddingRounds(start, 110 + |e.name| + 1);
    PaddingRounds(RoundUp4(start + 110 + |e.name| + 1), |e.contents|);
  }

  lemma OneStartMore(entries: seq<Entry>, i: nat)
    requires 0 < i <= |entries| && i < 0x1_0000_0000 && Writable(entries[i - 1]) && StartOf(entries, i - 1) % 4 == 0
    ensures StartOf(entries, i) == StartOf(entries, i - 1) + |Record(i, entries[i - 1])| && StartOf(entries, i) % 4 == 0
  {
    hide RoundUp4, Record, Writable;
    RecordEnd(StartOf(entries, i - 1), i, entries[i - 1]);
  }

  /** The first `i` records fill the archive up to the start of the next one. */
  lemma {:induction false} RecordsStart(entries: seq<Entry>, i: nat)
    requires Numbered(entries) && i <= |entries|
    ensures |Records(entries[..i], 1)| == StartOf(entries, i) && StartOf(entries, i) % 4 == 0
  {
    assert entries[..0] == [] && Records([], 1) == [] && StartOf(entries, 0) == 0;
    hide Record, Records, Writable, RoundUp4, StartOf;
    if i > 0 {
      RecordsStart(entries, i - 1);
      OneRecordMore(entries, i);
      OneStartMore(entries, i);
    }
  }

  lemma RecordLaidAt(entries: seq<Entry>, i: nat)
    requires Numbered(entries) && i < |entries|
    ensures RecordLaid(Records(entries, 1), StartOf(entries, i), i + 1, entries[i], StartOf(entries, i + 1))
  {
    hide Record, Writable, RecordLaid, RoundUp4;
    var pre, post := Records(entries[..i], 1), Records(entries[i + 1..], i + 2);
    RecordsStart(entries, i);
    RecordsSplit(entries, 1, i);
    RecordsHead(entries[i..], i + 1);
    assert entries[i..][1..] == entries[i + 1..];
    Associate(pre, Record(i + 1, entries[i]), post);
    WrittenRecordLaid(pre, i + 1, entries[i], post);
  }

  /** A written archive is laid out as described, when all numbers fit into eight digits. */
  lemma ArchiveLayout(entries: seq<Entry>)
    requires |entries| + 2 <= 0x1_0000_0000 && forall i :: 0 <= i < |entries| ==> Writable(entries[i])
    ensures ArchiveLaid(Archive(entries), entries)
  {
    hide Record, Records, RecordLaid, StartOf;
    var all := entries + [Trailer];
    assert Numbered(all);
    forall i | 0 <= i < |all|
      ensures RecordLaid(Archive(entries), StartOf(all, i), i + 1, all[i], StartOf(all, i + 1))
    {
      RecordLaidAt(all, i);
    }
    RecordsStart(all, |all|);
    assert all[..|all|] == all;
  }
}
