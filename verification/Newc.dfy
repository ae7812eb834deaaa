/** The newc archive writer and reader (scripts/build_vm_bundle.py). */
module Newc {
  import opened Outcomes
  import opened ByteStrings

  /** A name is given by its UTF-8 bytes. */
  datatype Entry = Entry(name: Bytes, mode: nat, contents: Bytes)

  /** "070701" */
  const Magic: Bytes := [0x30, 0x37, 0x30, 0x37, 0x30, 0x31]

  /** "TRAILER!!!" */
  const TrailerName: Bytes := [0x54, 0x52, 0x41, 0x49, 0x4C, 0x45, 0x52, 0x21, 0x21, 0x21]

  const Limit := 0x1_0000_0000

  const HeaderLength := 110

  // ----- writer -----

  /** How many bytes are missing to a multiple of four. */
  function Missing(length: int): nat { (-length) % 4 }

  function Padding(length: nat): Bytes { seq(Missing(length), _ => 0) }

  function Hex(value: nat, width: nat): Bytes {
    if width == 0 then [] else Hex(value / 16, width - 1) + [HexDigit(value % 16)]
  }

  function HexLength(value: nat): nat {
    if value < 16 then 1 else 1 + HexLength(value / 16)
  }

  /** `{:08x}`: at least eight digits, and more for a larger value. */
  function HexField(value: nat): Bytes {
    Hex(value, if HexLength(value) < 8 then 8 else HexLength(value))
  }

  function HexFields(values: seq<nat>): Bytes {
    if values == [] then [] else HexField(values[0]) + HexFields(values[1..])
  }

  predicate IsDirectory(mode: nat) { mode / 0x1000 % 16 == 4 }

  function Fields(inode: nat, e: Entry): seq<nat> {
    [inode, e.mode, 0, 0, if IsDirectory(e.mode) then 2 else 1, 0, |e.contents|, 0, 0, 0, 0, |e.name| + 1, 0]
  }

  function Header(inode: nat, e: Entry): Bytes { Magic + HexFields(Fields(inode, e)) }

  function Record(inode: nat, e: Entry): Bytes {
    var name := e.name + [0];
    Header(inode, e) + name + Padding(|Header(inode, e)| + |name|) + e.contents + Padding(|e.contents|)
  }

  function Records(entries: seq<Entry>, inode: nat): Bytes {
    if entries == [] then [] else Record(inode, entries[0]) + Records(entries[1..], inode + 1)
  }

  function Archive(entries: seq<Entry>): Bytes {
    Records(entries + [Entry(TrailerName, 0, [])], 1)
  }

  lemma {:induction false} RecordsAppend(entries: seq<Entry>, e: Entry, inode: nat)
    ensures Records(entries + [e], inode) == Records(entries, inode) + Record(inode + |entries|, e)
  {
    hide Record;
    if entries == [] {
      assert [e][1..] == [];
    } else {
      RecordsAppend(entries[1..], e, inode + 1);
      assert (entries + [e])[1..] == entries[1..] + [e];
    }
  }

  method WriteNewc(entries: seq<Entry>) returns (output: Bytes)
    ensures output == Archive(entries)
  {
    hide Header, Padding;
    output := [];
    var all := entries + [Entry(TrailerName, 0, [])];
    for i := 0 to |all|
      invariant output == Records(all[..i], 1)
    {
      var e := all[i];
      var name := e.name + [0];
      var header := Header(i + 1, e);
      ghost var before := output;
      output := output + header;
      output := output + name;
      output := output + Padding(|header| + |name|);
      output := output + e.contents;
      output := output + Padding(|e.contents|);
      assert output == before + Record(i + 1, e);
      RecordsAppend(all[..i], e, 1);
      assert all[..i + 1] == all[..i] + [e];
    }
    assert all[..|all|] == all;
  }

  // ----- reader -----

  datatype ReadError = BadMagic(offset: nat) | BadField | BadName | NoTrailer

  /** The eight-digit fields of a header, as long as all of them are numbers. */
  function ParseFields(digits: Bytes): Option<seq<nat>> {
    if |digits| < 8 then Some([])
    else if HexNumber(digits[..8]) < 0 then None
    else
      match ParseFields(digits[8..])
      case None => None
      case Some(rest) => Some([HexNumber(digits[..8])] + rest)
  }

  lemma {:induction false} ParseFieldsLength(digits: Bytes)
    ensures ParseFields(digits).Some? ==> |ParseFields(digits).value| == |digits| / 8
  {
    if |digits| >= 8 { ParseFieldsLength(digits[8..]); }
  }

  type Contents = map<Bytes, Bytes>

  function Align(offset: nat): nat { offset + Missing(offset) }

  /** `decodable` tells which names are UTF-8. */
  function ReadFrom(decodable: Bytes -> bool, archive: Bytes, offset: nat, entries: Contents)
    : Result<Contents, ReadError>
    decreases |archive| - offset
  {
    if offset + HeaderLength > |archive| then Err(NoTrailer)
    else
      var header := Slice(archive, offset, offset + HeaderLength);
      var fields := ParseFields(header[6..]);
      ParseFieldsLength(header[6..]);
      if header[..6] != Magic then Err(BadMagic(offset))
      else if fields.None? then Err(BadField)
      else
        var size, nameSize := fields.value[6], fields.value[11];
        var start := offset + HeaderLength;
        var name := Slice(archive, start, start + nameSize - 1);
        var body := Align(start + nameSize);
        var contents := Slice(archive, body, body + size);
        if !decodable(name) then Err(BadName)
        else if name == TrailerName then Ok(entries)
        else ReadFrom(decodable, archive, Align(body + size), entries[name := contents])
  }

  method ReadNewc(decodable: Bytes -> bool, archive: Bytes) returns (result: Result<Contents, ReadError>)
    ensures result == ReadFrom(decodable, archive, 0, map[])
  {
    hide Slice, ParseFields, Missing;
    var offset := 0;
    var entries: Contents := map[];
    while offset + HeaderLength <= |archive|
      invariant ReadFrom(decodable, archive, offset, entries) == ReadFrom(decodable, archive, 0, map[])
      decreases |archive| - offset
    {
      var header := Slice(archive, offset, offset + HeaderLength);
      SliceLength(archive, offset, offset + HeaderLength);
      if header[..6] != Magic { return Err(BadMagic(offset)); }
      var fields := ParseFields(header[6..]);
      if fields.None? { return Err(BadField); }
      ParseFieldsLength(header[6..]);
      var size, nameSize := fields.value[6], fields.value[11];
      offset := offset + HeaderLength;
      var name := Slice(archive, offset, offset + nameSize - 1);
      if !decodable(name) { return Err(BadName); }
      offset := offset + nameSize;
      offset := offset + Missing(offset);
      ghost var body := offset;
      var contents := Slice(archive, offset, offset + size);
      offset := offset + size;
      offset := offset + Missing(offset);
      assert offset == Align(body + size);
      if name == TrailerName { return Ok(entries); }
      entries := entries[name := contents];
    }
    result := Err(NoTrailer);
  }

  // ----- round trip -----

  predicate Writable(e: Entry) { e.mode < Limit && |e.contents| < Limit && |e.name| + 1 < Limit }

  function Power16(n: nat): nat { if n == 0 then 1 else 16 * Power16(n - 1) }

  lemma {:induction false} HexRoundTrip(value: nat, width: nat)
    requires value < Power16(width)
    ensures |Hex(value, width)| == width && HexNumber(Hex(value, width)) == value
  {
    if width > 0 {
      HexRoundTrip(value / 16, width - 1);
      HexDigitValue(value % 16);
      var digits := Hex(value, width);
      assert digits[..|digits| - 1] == Hex(value / 16, width - 1);
    }
  }

  lemma {:induction false} HexLengthBound(value: nat, width: nat)
    requires width > 0 && value < Power16(width)
    ensures HexLength(value) <= width
  {
    if value >= 16 { HexLengthBound(value / 16, width - 1); }
  }

  lemma HexFieldRoundTrip(value: nat)
    requires value < Limit
    ensures |HexField(value)| == 8 && HexNumber(HexField(value)) == value
  {
    assert Power16(3) == 0x1000 && Power16(6) == 0x100_0000 && Power16(8) == Limit;
    HexLengthBound(value, 8);
    HexRoundTrip(value, 8);
  }

  lemma {:induction false} FieldsRoundTrip(values: seq<nat>)
    requires forall i :: 0 <= i < |values| ==> values[i] < Limit
    ensures |HexFields(values)| == 8 * |values| && ParseFields(HexFields(values)) == Some(values)
  {
    if values != [] {
      HexFieldRoundTrip(values[0]);
      FieldsRoundTrip(values[1..]);
      var all := HexFields(values);
      assert values == [values[0]] + values[1..];
      assert all[..8] == HexField(values[0]) && all[8..] == HexFields(values[1..]);
    }
  }

  lemma HeaderRead(inode: nat, e: Entry)
    requires inode < Limit && Writable(e)
    ensures var header := Header(inode, e);
      |header| == HeaderLength && header[..6] == Magic && ParseFields(header[6..]) == Some(Fields(inode, e))
  {
    FieldsRoundTrip(Fields(inode, e));
    assert Header(inode, e)[6..] == HexFields(Fields(inode, e));
  }

  /** The writer pads relative to the start of the record and the reader to the start of the archive:
      the same at a multiple of four. */
  lemma Alignment(offset: nat, length: nat)
    requires offset % 4 == 0
    ensures Align(offset + length) == offset + length + |Padding(length)|
    ensures (length + |Padding(length)|) % 4 == 0
  {
    MissingStep(offset, length);
  }

  lemma MissingStep(offset: nat, length: nat)
    requires offset % 4 == 0
    ensures Missing(offset + length) == Missing(length) && (length + Missing(length)) % 4 == 0
  {}

  lemma RecordParts(inode: nat, e: Entry)
    requires inode < Limit && Writable(e)
    ensures Record(inode, e) == Header(inode, e) + (e.name + [0]) + Padding(HeaderLength + |e.name| + 1)
      + e.contents + Padding(|e.contents|)
  {
    hide Header, Padding, Writable;
    HeaderRead(inode, e);
  }

  lemma RecordAligned(inode: nat, e: Entry)
    requires inode < Limit && Writable(e)
    ensures |Record(inode, e)| % 4 == 0
  {
    hide *;
    HeaderRead(inode, e);
    RecordParts(inode, e);
    Alignment(0, HeaderLength + |e.name| + 1);
    Alignment(0, |e.contents|);
  }

  /** Where the reader finds the header, the name and the contents of a written record. */
  lemma RecordSlices(pre: Bytes, inode: nat, e: Entry, post: Bytes)
    requires |pre| % 4 == 0 && inode < Limit && Writable(e)
    ensures var archive, start := pre + Record(inode, e) + post, |pre| + HeaderLength;
      var body := Align(start + |e.name| + 1);
      && start <= |archive|
      && Slice(archive, |pre|, start) == Header(inode, e)
      && Slice(archive, start, start + |e.name|) == e.name
      && Slice(archive, body, body + |e.contents|) == e.contents
      && Align(body + |e.contents|) == |pre| + |Record(inode, e)|
  {
    hide Record, Header, Padding, Align, Slice, Missing, Fields;
    HeaderRead(inode, e);
    RecordParts(inode, e);
    var header, n := Header(inode, e), |e.name| + 1;
    var pad1, pad2 := Padding(HeaderLength + n), Padding(|e.contents|);
    Alignment(|pre|, HeaderLength + n);
    Alignment(|pre| + HeaderLength + n + |pad1|, |e.contents|);
    PartSlices(pre, header, e.name, pad1, e.contents, pad2, post);
  }

  /** The header, the name and the contents inside the archive. */
  lemma PartSlices(pre: Bytes, header: Bytes, name: Bytes, pad1: Bytes, contents: Bytes, pad2: Bytes, post: Bytes)
    ensures var archive := pre + (header + (name + [0]) + pad1 + contents + pad2) + post;
      var start, body := |pre| + |header|, |pre| + |header| + |name| + 1 + |pad1|;
      && Slice(archive, |pre|, start) == header
      && Slice(archive, start, start + |name|) == name
      && Slice(archive, body, body + |contents|) == contents
  {
    hide Slice;
    var archive := pre + (header + (name + [0]) + pad1 + contents + pad2) + post;
    SliceAt(archive, pre, header, (name + [0]) + pad1 + contents + pad2 + post);
    SliceAt(archive, pre + header, name, [0] + pad1 + contents + pad2 + post);
    SliceAt(archive, pre + header + (name + [0]) + pad1, contents, pad2 + post);
  }

  lemma SliceAt(archive: Bytes, a: Bytes, b: Bytes, c: Bytes)
    requires archive == a + b + c
    ensures Slice(archive, |a|, |a| + |b|) == b
  {
    SliceMiddle(a, b, c);
  }

  /** One turn of the reader's loop over a well-formed header. */
  lemma ReadStep(decodable: Bytes -> bool, archive: Bytes, offset: nat, fields: seq<nat>, name: Bytes, contents: Bytes,
                 entries: Contents)
    requires offset + HeaderLength <= |archive| && |fields| == 13 && decodable(name)
    requires var header := Slice(archive, offset, offset + HeaderLength);
      |header| == HeaderLength && header[..6] == Magic && ParseFields(header[6..]) == Some(fields)
    requires fields[11] > 0
    requires var start := offset + HeaderLength; var body := Align(start + fields[11]);
      Slice(archive, start, start + fields[11] - 1) == name && Slice(archive, body, body + fields[6]) == contents
    ensures ReadFrom(decodable, archive, offset, entries) ==
      if name == TrailerName then Ok(entries)
      else
        var next := Align(Align(offset + HeaderLength + fields[11]) + fields[6]);
        ReadFrom(decodable, archive, next, entries[name := contents])
  {
    hide Slice, Align, ParseFields;
  }

  lemma FieldsFacts(inode: nat, e: Entry)
    ensures |Fields(inode, e)| == 13 && Fields(inode, e)[6] == |e.contents| && Fields(inode, e)[11] == |e.name| + 1
  {}

  /** The reader takes one written record at an aligned offset. */
  lemma ReadRecord(decodable: Bytes -> bool, pre: Bytes, inode: nat, e: Entry, post: Bytes, entries: Contents)
    requires |pre| % 4 == 0 && inode < Limit && Writable(e) && decodable(e.name)
    ensures var archive := pre + Record(inode, e) + post;
      ReadFrom(decodable, archive, |pre|, entries) ==
        if e.name == TrailerName then Ok(entries)
        else ReadFrom(decodable, archive, |pre| + |Record(inode, e)|, entries[e.name := e.contents])
  {
    hide *;
    FieldsFacts(inode, e);
    HeaderRead(inode, e);
    RecordSlices(pre, inode, e, post);
    ReadStep(decodable, pre + Record(inode, e) + post, |pre|, Fields(inode, e), e.name, e.contents, entries);
  }

  /** The entries before the first one with the trailer's name; a later entry replaces an earlier one. */
  function Collected(entries: seq<Entry>, into: Contents): Contents {
    if entries == [] || entries[0].name == TrailerName then into
    else Collected(entries[1..], into[entries[0].name := entries[0].contents])
  }

  lemma Regroup(a: Bytes, b: Bytes, c: Bytes, d: Bytes)
    ensures a + (b + c) + d == a + b + (c + d) == (a + b) + c + d
  {}

  lemma {:induction false} ReadRecords(
    decodable: Bytes -> bool, pre: Bytes, entries: seq<Entry>, inode: nat, post: Bytes, into: Contents)
    requires |pre| % 4 == 0 && inode + |entries| <= Limit
    requires forall i :: 0 <= i < |entries| ==> Writable(entries[i]) && decodable(entries[i].name)
    requires Named(entries, TrailerName)
    ensures ReadFrom(decodable, pre + Records(entries, inode) + post, |pre|, into) == Ok(Collected(entries, into))
    decreases |entries|
  {
    hide Record, ReadFrom, Writable;
    var e := entries[0];
    var rest := Records(entries[1..], inode + 1);
    ReadRecord(decodable, pre, inode, e, rest + post, into);
    Regroup(pre, Record(inode, e), rest, post);
    if e.name != TrailerName {
      RecordAligned(inode, e);
      ReadRecords(decodable, pre + Record(inode, e), entries[1..], inode + 1, post, into[e.name := e.contents]);
    }
  }

  ghost predicate AllWritable(decodable: Bytes -> bool, entries: seq<Entry>) {
    && |entries| + 2 <= Limit
    && decodable(TrailerName)
    && forall i :: 0 <= i < |entries| ==> Writable(entries[i]) && decodable(entries[i].name)
  }

  /** What the reader makes of any written archive whose fields fit into eight digits. */
  lemma ReadWritten(decodable: Bytes -> bool, entries: seq<Entry>)
    requires AllWritable(decodable, entries)
    ensures ReadFrom(decodable, Archive(entries), 0, map[]) == Ok(Collected(entries, map[]))
  {
    var all := entries + [Entry(TrailerName, 0, [])];
    assert all[|entries|].name == TrailerName && Named(all, TrailerName);
    ReadRecords(decodable, [], all, 1, [], map[]);
    assert [] + Records(all, 1) + [] == Archive(entries);
    CollectedWithTrailer(entries, map[]);
  }

  lemma {:induction false} CollectedWithTrailer(entries: seq<Entry>, into: Contents)
    ensures Collected(entries + [Entry(TrailerName, 0, [])], into) == Collected(entries, into)
  {
    if entries != [] {
      assert (entries + [Entry(TrailerName, 0, [])])[1..] == entries[1..] + [Entry(TrailerName, 0, [])];
      CollectedWithTrailer(entries[1..], into[entries[0].name := entries[0].contents]);
    }
  }

  ghost predicate DistinctNames(entries: seq<Entry>) {
    forall i, j :: 0 <= i < j < |entries| ==> entries[i].name != entries[j].name
  }

  /** The result holds every entry under its own name and nothing else. */
  ghost predicate Holds(result: Contents, entries: seq<Entry>) {
    && (forall i :: 0 <= i < |entries| ==> entries[i].name in result && result[entries[i].name] == entries[i].contents)
    && (forall name :: name in result ==> Named(entries, name))
  }

  predicate Named(entries: seq<Entry>, name: Bytes) {
    exists i :: 0 <= i < |entries| && entries[i].name == name
  }

  lemma {:induction false} CollectedKeys(entries: seq<Entry>, into: Contents, name: Bytes)
    requires forall i :: 0 <= i < |entries| ==> entries[i].name != TrailerName
    ensures name in Collected(entries, into) <==> name in into || Named(entries, name)
    ensures name in into && !Named(entries, name) ==> Collected(entries, into)[name] == into[name]
  {
    if entries != [] {
      CollectedKeys(entries[1..], into[entries[0].name := entries[0].contents], name);
    }
  }

  lemma {:induction false} CollectedValue(entries: seq<Entry>, into: Contents, i: nat)
    requires DistinctNames(entries) && i < |entries|
    requires forall i :: 0 <= i < |entries| ==> entries[i].name != TrailerName
    ensures entries[i].name in Collected(entries, into)
    ensures Collected(entries, into)[entries[i].name] == entries[i].contents
  {
    var e := entries[0];
    if i > 0 {
      CollectedValue(entries[1..], into[e.name := e.contents], i - 1);
    } else {
      CollectedKeys(entries[1..], into[e.name := e.contents], e.name);
    }
  }

  /** Reading a written archive gives back every name with its contents. */
  lemma RoundTrip(decodable: Bytes -> bool, entries: seq<Entry>)
    requires AllWritable(decodable, entries) && DistinctNames(entries)
    requires forall i :: 0 <= i < |entries| ==> entries[i].name != TrailerName
    ensures var result := ReadFrom(decodable, Archive(entries), 0, map[]);
      result.Ok? && Holds(result.value, entries)
  {
    ReadWritten(decodable, entries);
    forall i | 0 <= i < |entries|
      ensures entries[i].name in Collected(entries, map[])
      ensures Collected(entries, map[])[entries[i].name] == entries[i].contents
    {
      CollectedValue(entries, map[], i);
    }
    forall name { CollectedKeys(entries, map[], name); }
  }
}
