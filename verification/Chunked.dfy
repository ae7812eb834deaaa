/** Decoding of a chunked HTTP body (`decode_chunked`, src/application/network.rs). */
module Chunked {
  import opened Outcomes
  import opened ByteStrings

  /** CR LF */
  const Crlf: Bytes := [0x0D, 0x0A]

  const Semicolon := 0x3B

  const Plus := 0x2B

  /** Sixteen hexadecimal digits fill a 64-bit `usize`. */
  const MaxSizeDigits := 16

  const UsizeMax := 0xFFFF_FFFF_FFFF_FFFF

  datatype DecodeError =
    | SizeIncomplete
    | SizeMalformed
    | TrailerMalformed
    | LimitExceeded
    | LengthOverflow
    | DataIncomplete
    | DelimiterMalformed

  function SaturatingAdd(a: nat, b: nat): nat { if a + b > UsizeMax then UsizeMax else a + b }

  predicate TerminatorAt(bytes: Bytes, i: nat) { i + 2 <= |bytes| && bytes[i..i + 2] == Crlf }

  /** Where the first line terminator at or after `cursor` begins; past the end when there is none. */
  function LineEnd(bytes: Bytes, cursor: nat): nat
    decreases |bytes| - cursor
  {
    if cursor + 2 > |bytes| then |bytes| + 1
    else if TerminatorAt(bytes, cursor) then cursor
    else LineEnd(bytes, cursor + 1)
  }

  /** `usize::from_str_radix(line, 16)`: one leading plus sign is allowed before at least one digit. */
  function ParseSize(line: Bytes): int {
    if line == [] then -1
    else if line[0] == Plus then if |line| == 1 then -1 else HexNumber(line[1..])
    else HexNumber(line)
  }

  /** The checks on a size line; -1 when it is malformed. */
  function SizeOf(line: Bytes): int {
    if line == [] || Semicolon in line || |line| > MaxSizeDigits then -1 else ParseSize(line)
  }

  method DecodeChunked(bytes: Bytes, maximum: nat) returns (result: Result<Bytes, DecodeError>)
    ensures result == Decode(bytes, 0, [], maximum)
  {
    hide LineEnd, ParseSize, Decode, TerminatorAt, SaturatingAdd;
    var cursor := 0;
    var output: Bytes := [];
    while true
      invariant cursor <= |bytes|
      invariant Decode(bytes, cursor, output, maximum) == Decode(bytes, 0, [], maximum)
      decreases |bytes| - cursor
    {
      DecodeStep(bytes, cursor, output, maximum);
      var lineEnd := LineEnd(bytes, cursor);
      if lineEnd > |bytes| { return Err(SizeIncomplete); }
      var line := bytes[cursor..lineEnd];
      if line == [] || Semicolon in line || |line| > MaxSizeDigits { return Err(SizeMalformed); }
      var length := ParseSize(line);
      if length < 0 { return Err(SizeMalformed); }
      cursor := lineEnd + 2;
      if length == 0 {
        if bytes[cursor..] != Crlf { return Err(TrailerMalformed); }
        return Ok(output);
      }
      if SaturatingAdd(|output|, length) > maximum { return Err(LimitExceeded); }
      if cursor + length > UsizeMax { return Err(LengthOverflow); }
      var end := cursor + length;
      if end > |bytes| { return Err(DataIncomplete); }
      var data := bytes[cursor..end];
      if !TerminatorAt(bytes, end) { return Err(DelimiterMalformed); }
      output := output + data;
      cursor := end + 2;
    }
  }

  lemma {:induction false} LineEndMeaning(bytes: Bytes, cursor: nat)
    ensures var e := LineEnd(bytes, cursor);
      && (e <= |bytes| ==> cursor <= e && TerminatorAt(bytes, e))
      && (forall k: nat :: cursor <= k < e ==> !TerminatorAt(bytes, k))
    decreases |bytes| - cursor
  {
    if cursor + 2 <= |bytes| && !TerminatorAt(bytes, cursor) { LineEndMeaning(bytes, cursor + 1); }
  }

  /** What one turn of the loop does. */
  datatype Turn = Stop(result: Result<Bytes, DecodeError>) | Go(cursor: nat, data: Bytes)

  function TakeTurn(bytes: Bytes, lineEnd: nat, length: int, output: Bytes, maximum: nat): Turn
    requires lineEnd + 2 <= |bytes|
  {
    var start := lineEnd + 2;
    if length < 0 then Stop(Err(SizeMalformed))
    else if length == 0 then Stop(if bytes[start..] == Crlf then Ok(output) else Err(TrailerMalformed))
    else if SaturatingAdd(|output|, length) > maximum then Stop(Err(LimitExceeded))
    else if start + length > UsizeMax then Stop(Err(LengthOverflow))
    else if start + length > |bytes| then Stop(Err(DataIncomplete))
    else if !TerminatorAt(bytes, start + length) then Stop(Err(DelimiterMalformed))
    else Go(start + length + 2, bytes[start..start + length])
  }

  /** The loop from `cursor` on. */
  function Decode(bytes: Bytes, cursor: nat, output: Bytes, maximum: nat): Result<Bytes, DecodeError>
    requires cursor <= |bytes|
    decreases |bytes| - cursor
  {
    var lineEnd := LineEnd(bytes, cursor);
    LineEndMeaning(bytes, cursor);
    if lineEnd > |bytes| then Err(SizeIncomplete)
    else
      match TakeTurn(bytes, lineEnd, SizeOf(bytes[cursor..lineEnd]), output, maximum)
      case Stop(result) => result
      case Go(next, data) => Decode(bytes, next, output + data, maximum)
  }

  /** The next turn of the loop decides the rest. */
  lemma DecodeStep(bytes: Bytes, cursor: nat, output: Bytes, maximum: nat)
    requires cursor <= |bytes|
    ensures var lineEnd := LineEnd(bytes, cursor);
      if lineEnd > |bytes| then Decode(bytes, cursor, output, maximum) == Err(SizeIncomplete)
      else
        && cursor <= lineEnd <= |bytes| - 2
        && var turn := TakeTurn(bytes, lineEnd, SizeOf(bytes[cursor..lineEnd]), output, maximum);
          && (turn.Stop? ==> Decode(bytes, cursor, output, maximum) == turn.result)
          && (turn.Go? ==>
            && lineEnd < turn.cursor <= |bytes|
            && Decode(bytes, cursor, output, maximum) == Decode(bytes, turn.cursor, output + turn.data, maximum))
  {
    hide LineEnd, SizeOf;
    LineEndMeaning(bytes, cursor);
  }

  // ----- the grammar -----

  datatype Frame = Frame(line: Bytes, data: Bytes)

  /** A size line: at most sixteen bytes, an optional plus sign and then a hexadecimal numeral for `n`. */
  ghost predicate SizeLine(line: Bytes, n: nat) {
    && |line| <= 16
    && exists numeral :: numeral != [] && Numeral(numeral, n) && (line == numeral || line == [0x2B] + numeral)
  }

  lemma NumeralBytes(s: Bytes, n: nat, i: nat)
    requires Numeral(s, n) && i < |s|
    ensures s[i] != 0x2B && s[i] != 0x3B
  {}

  lemma SizeFound(line: Bytes, n: nat)
    requires SizeOf(line) == n
    ensures SizeLine(line, n)
  {
    hide HexNumber, Numeral;
    HexNumberExactly(line, n);
    HexNumberExactly(line[1..], n);
    assert line[0] == 0x2B ==> line == [0x2B] + line[1..];
  }

  lemma SizeRead(line: Bytes, numeral: Bytes, n: nat)
    requires |line| <= 16 && numeral != [] && Numeral(numeral, n) && (line == numeral || line == [0x2B] + numeral)
    ensures SizeOf(line) == n
  {
    hide HexNumber, Numeral;
    HexNumberExactly(numeral, n);
    NumeralBytes(numeral, n, 0);
    forall i | 0 <= i < |line| ensures line[i] != 0x3B {
      if line == numeral { NumeralBytes(numeral, n, i); } else if i > 0 { NumeralBytes(numeral, n, i - 1); }
    }
    assert line != numeral ==> line[1..] == numeral;
  }

  /** The decoder reads a size line as `n` exactly when it is one for `n`. */
  lemma SizeLineExactly(line: Bytes, n: nat)
    ensures SizeOf(line) == n <==> SizeLine(line, n)
  {
    hide SizeOf;
    if SizeOf(line) == n { SizeFound(line, n); }
    if SizeLine(line, n) {
      var numeral :| numeral != [] && Numeral(numeral, n) && (line == numeral || line == [0x2B] + numeral);
      SizeRead(line, numeral, n);
    }
  }

  ghost predicate ValidFrame(f: Frame) { |f.data| > 0 && SizeLine(f.line, |f.data|) }

  /** A body: frames, each a size line and its data, then a zero chunk and an empty trailer. */
  datatype Body = Body(frames: seq<Frame>, last: Bytes)

  ghost predicate ValidBody(b: Body) {
    (forall i :: 0 <= i < |b.frames| ==> ValidFrame(b.frames[i])) && SizeLine(b.last, 0)
  }

  function FrameBytes(f: Frame): Bytes { f.line + [0x0D, 0x0A] + f.data + [0x0D, 0x0A] }

  function BodyBytes(frames: seq<Frame>, last: Bytes): Bytes {
    if frames == [] then last + [0x0D, 0x0A] + [0x0D, 0x0A] else FrameBytes(frames[0]) + BodyBytes(frames[1..], last)
  }

  function Data(frames: seq<Frame>): Bytes {
    if frames == [] then [] else frames[0].data + Data(frames[1..])
  }

  // ----- size lines contain no line terminator -----

  lemma {:induction false} DigitsAreDigits(s: Bytes, i: nat)
    requires HexNumber(s) >= 0 && i < |s|
    ensures HexValue(s[i]) >= 0
    decreases |s|
  {
    if i < |s| - 1 { DigitsAreDigits(s[..|s| - 1], i); }
  }

  lemma SizeLineBytes(line: Bytes, i: nat)
    requires SizeOf(line) >= 0 && i < |line|
    ensures line[i] != 0x0D && line[i] != 0x0A
  {
    if line[0] == Plus {
      if i > 0 { DigitsAreDigits(line[1..], i - 1); }
    } else {
      DigitsAreDigits(line, i);
    }
  }

  lemma TerminatorByte(bytes: Bytes, k: nat)
    requires TerminatorAt(bytes, k)
    ensures bytes[k] == 0x0D
  {
    assert bytes[k..k + 2][0] == bytes[k];
  }

  /** The terminator that the decoder finds is the one right after the size line. */
  lemma LineFound(pre: Bytes, line: Bytes, post: Bytes)
    requires SizeOf(line) >= 0
    ensures LineEnd(pre + (line + Crlf + post), |pre|) == |pre| + |line|
  {
    hide SizeOf, LineEnd;
    var bytes := pre + (line + Crlf + post);
    var end := |pre| + |line|;
    LineEndMeaning(bytes, |pre|);
    assert TerminatorAt(bytes, end) by { assert bytes[end..end + 2] == Crlf; }
    forall k: nat | |pre| <= k < end ensures !TerminatorAt(bytes, k) {
      SizeLineBytes(line, k - |pre|);
      assert bytes[k] == line[k - |pre|];
      if TerminatorAt(bytes, k) { TerminatorByte(bytes, k); }
    }
  }

  /** Bytes that fit into memory, so that no length of a part overflows. */
  predicate InMemory(bytes: Bytes) { |bytes| <= UsizeMax }

  // ----- the decoder accepts exactly the bodies of the grammar -----

  /** One frame at the cursor. */
  lemma DecodeFrame(pre: Bytes, f: Frame, post: Bytes, output: Bytes, maximum: nat)
    requires ValidFrame(f) && |output| <= |pre| && InMemory(pre + (FrameBytes(f) + post))
    ensures var bytes := pre + (FrameBytes(f) + post);
      Decode(bytes, |pre|, output, maximum) ==
        if |output| + |f.data| > maximum then Err(LimitExceeded)
        else Decode(bytes, |pre| + |FrameBytes(f)|, output + f.data, maximum)
  {
    hide SizeOf, LineEnd, SizeLine;
    SizeLineExactly(f.line, |f.data|);
    var bytes := pre + (FrameBytes(f) + post);
    LineFound(pre, f.line, f.data + Crlf + post);
    assert bytes == pre + (f.line + Crlf + (f.data + Crlf + post));
    FrameSlices(pre, f, post);
    var lineEnd := |pre| + |f.line|;
    var turn := TakeTurn(bytes, lineEnd, |f.data|, output, maximum);
    assert turn ==
      if |output| + |f.data| > maximum then Stop(Err(LimitExceeded)) else Go(|pre| + |FrameBytes(f)|, f.data);
  }

  lemma FrameSlices(pre: Bytes, f: Frame, post: Bytes)
    ensures var bytes, lineEnd := pre + (FrameBytes(f) + post), |pre| + |f.line|;
      var start := lineEnd + 2;
      && start + |f.data| + 2 == |pre| + |FrameBytes(f)| <= |bytes|
      && bytes[|pre|..lineEnd] == f.line
      && bytes[start..start + |f.data|] == f.data
      && TerminatorAt(bytes, start + |f.data|)
  {
    var bytes, start := pre + (FrameBytes(f) + post), |pre| + |f.line| + 2;
    assert bytes[start + |f.data|..start + |f.data| + 2] == Crlf;
  }

  lemma DecodeLast(pre: Bytes, last: Bytes, output: Bytes, maximum: nat)
    requires SizeOf(last) == 0
    ensures Decode(pre + (last + Crlf + Crlf), |pre|, output, maximum) == Ok(output)
  {
    var bytes := pre + (last + Crlf + Crlf);
    LineFound(pre, last, Crlf);
    assert bytes[|pre|..|pre| + |last|] == last;
    assert bytes[|pre| + |last| + 2..] == Crlf;
  }

  lemma Nested(a: Bytes, b: Bytes, c: Bytes)
    ensures a + (b + c) == (a + b) + c
  {}

  lemma FrameLength(f: Frame)
    ensures |FrameBytes(f)| == |f.line| + |f.data| + 4
  {}

  /** Complete: every body of the grammar within the limit decodes to its data. */
  lemma {:induction false} DecodeComplete(pre: Bytes, frames: seq<Frame>, last: Bytes, output: Bytes, maximum: nat)
    requires ValidBody(Body(frames, last)) && |output| <= maximum && |output| <= |pre|
    requires InMemory(pre + BodyBytes(frames, last))
    ensures Decode(pre + BodyBytes(frames, last), |pre|, output, maximum) ==
      if |output| + |Data(frames)| <= maximum then Ok(output + Data(frames)) else Err(LimitExceeded)
    decreases |frames|
  {
    hide Decode, FrameBytes, ValidFrame, SizeOf;
    if frames == [] {
      SizeLineExactly(last, 0);
      DecodeLast(pre, last, output, maximum);
      assert output + [] == output;
    } else {
      var f, rest := frames[0], frames[1..];
      assert ValidFrame(f);
      DecodeFrame(pre, f, BodyBytes(rest, last), output, maximum);
      FrameLength(f);
      Nested(pre, FrameBytes(f), BodyBytes(rest, last));
      Nested(output, f.data, Data(rest));
      if |output| + |f.data| <= maximum {
        assert forall i :: 0 <= i < |rest| ==> ValidFrame(frames[i + 1]) && rest[i] == frames[i + 1];
        DecodeComplete(pre + FrameBytes(f), rest, last, output + f.data, maximum);
      }
    }
  }

  /** What an accepting turn has found. */
  lemma AcceptedTurn(bytes: Bytes, cursor: nat, output: Bytes, maximum: nat)
    requires |output| <= cursor <= |bytes| && InMemory(bytes) && Decode(bytes, cursor, output, maximum).Ok?
    ensures var lineEnd := LineEnd(bytes, cursor);
      && cursor <= lineEnd && TerminatorAt(bytes, lineEnd)
      && var length, start := SizeOf(bytes[cursor..lineEnd]), lineEnd + 2;
      && length >= 0
      && (length == 0 ==> bytes[start..] == Crlf && Decode(bytes, cursor, output, maximum) == Ok(output))
      && (length > 0 ==> |output| + length <= maximum && TerminatorAt(bytes, start + length))
      && (length > 0 ==>
        (var next := output + bytes[start..start + length];
        Decode(bytes, cursor, output, maximum) == Decode(bytes, start + length + 2, next, maximum)))
  {
    hide SizeOf, LineEnd;
    LineEndMeaning(bytes, cursor);
  }

  /** Sound: whatever is accepted is a body of the grammar, and the output is its data. */
  lemma {:induction false} DecodeSound(bytes: Bytes, cursor: nat, output: Bytes, maximum: nat)
    returns (frames: seq<Frame>, last: Bytes)
    requires |output| <= cursor <= |bytes| && |output| <= maximum && InMemory(bytes)
    requires Decode(bytes, cursor, output, maximum).Ok?
    ensures ValidBody(Body(frames, last)) && bytes[cursor..] == BodyBytes(frames, last)
    ensures Decode(bytes, cursor, output, maximum).value == output + Data(frames)
    ensures |Decode(bytes, cursor, output, maximum).value| <= maximum
    decreases |bytes| - cursor
  {
    hide SizeOf, LineEnd, FrameBytes, ValidFrame, Decode;
    AcceptedTurn(bytes, cursor, output, maximum);
    LineEndMeaning(bytes, cursor);
    var lineEnd := LineEnd(bytes, cursor);
    var line := bytes[cursor..lineEnd];
    var length, start := SizeOf(line), lineEnd + 2;
    if length == 0 {
      frames, last := [], line;
      SizeLineExactly(line, 0);
      assert bytes[cursor..] == line + bytes[lineEnd..start] + bytes[start..];
    } else {
      var end := start + length;
      var f := Frame(line, bytes[start..end]);
      FrameAt(bytes, cursor, lineEnd, f);
      var rest;
      rest, last := DecodeSound(bytes, end + 2, output + f.data, maximum);
      frames := [f] + rest;
      assert frames[1..] == rest;
      Nested(output, f.data, Data(rest));
    }
  }

  lemma FrameAt(bytes: Bytes, cursor: nat, lineEnd: nat, f: Frame)
    requires cursor <= lineEnd && TerminatorAt(bytes, lineEnd) && f.line == bytes[cursor..lineEnd]
    requires SizeOf(f.line) == |f.data| > 0
    requires lineEnd + 2 + |f.data| <= |bytes| && f.data == bytes[lineEnd + 2..lineEnd + 2 + |f.data|]
    requires TerminatorAt(bytes, lineEnd + 2 + |f.data|)
    ensures ValidFrame(f) && lineEnd + 4 + |f.data| <= |bytes|
    ensures bytes[cursor..] == FrameBytes(f) + bytes[lineEnd + 4 + |f.data|..]
  {
    hide SizeOf, SizeLine;
    SizeLineExactly(f.line, |f.data|);
    var start := lineEnd + 2;
    var end := start + |f.data|;
    assert bytes[end..end + 2] == Crlf && bytes[lineEnd..start] == Crlf;
    assert bytes[cursor..] ==
      bytes[cursor..lineEnd] + bytes[lineEnd..start] + bytes[start..end] + bytes[end..end + 2] + bytes[end + 2..];
  }

  /** A body of the grammar for these bytes and this output. */
  ghost predicate Parses(bytes: Bytes, body: Body, output: Bytes) {
    ValidBody(body) && bytes == BodyBytes(body.frames, body.last) && output == Data(body.frames)
  }

  /** Accepted exactly when the bytes are a body whose data fits; the output is that data. */
  lemma AcceptsExactly(bytes: Bytes, maximum: nat, output: Bytes)
    requires InMemory(bytes)
    ensures Decode(bytes, 0, [], maximum) == Ok(output) <==>
      |output| <= maximum && exists body :: Parses(bytes, body, output)
  {
    if Decode(bytes, 0, [], maximum) == Ok(output) {
      var frames, last := DecodeSound(bytes, 0, [], maximum);
      assert bytes[0..] == bytes && [] + Data(frames) == Data(frames);
      assert Parses(bytes, Body(frames, last), output);
    }
    if |output| <= maximum && exists body :: Parses(bytes, body, output) {
      var body :| Parses(bytes, body, output);
      DecodeComplete([], body.frames, body.last, [], maximum);
      assert [] + bytes == bytes && [] + output == output;
    }
  }

  lemma SameFrame(f: Frame, tail: Bytes, g: Frame, rest: Bytes)
    requires ValidFrame(f) && ValidFrame(g) && f.line == g.line && FrameBytes(f) + tail == FrameBytes(g) + rest
    ensures f == g && tail == rest
  {
    hide FrameBytes, SizeOf, SizeLine;
    SizeLineExactly(f.line, |f.data|);
    SizeLineExactly(g.line, |g.data|);
    FrameTail(f, tail);
    FrameTail(g, rest);
  }

  lemma SameHead(frames: seq<Frame>, last: Bytes, others: seq<Frame>, final: Bytes)
    requires ValidBody(Body(frames, last)) && ValidBody(Body(others, final))
    requires BodyBytes(frames, last) == BodyBytes(others, final)
    ensures HeadOf(frames, last).0 == HeadOf(others, final).0
    ensures frames == [] <==> others == []
  {
    HeadLine(frames, last);
    HeadLine(others, final);
    hide *;
    var (line, after) := HeadOf(frames, last);
    var (line', after') := HeadOf(others, final);
    SamePrefix(line, after, line', after');
  }

  lemma SamePrefix(a: Bytes, x: Bytes, b: Bytes, y: Bytes)
    requires |a| == |b| && a + Crlf + x == b + Crlf + y
    ensures a == b
  {
    assert a == (a + Crlf + x)[..|a|] && b == (b + Crlf + y)[..|b|];
  }

  /** A body has one parse. */
  lemma {:induction false} UniqueParse(frames: seq<Frame>, last: Bytes, others: seq<Frame>, final: Bytes)
    requires ValidBody(Body(frames, last)) && ValidBody(Body(others, final))
    requires BodyBytes(frames, last) == BodyBytes(others, final)
    ensures frames == others && last == final
    decreases |frames|
  {
    SameHead(frames, last, others, final);
    if frames != [] {
      var f, g := frames[0], others[0];
      assert ValidFrame(f) && ValidFrame(g);
      hide FrameBytes, ValidFrame, SizeLine;
      SameFrame(f, BodyBytes(frames[1..], last), g, BodyBytes(others[1..], final));
      UniqueParse(frames[1..], last, others[1..], final);
      assert frames == [f] + frames[1..] && others == [g] + others[1..];
    }
  }

  lemma FrameTail(f: Frame, tail: Bytes)
    ensures var bytes, start := FrameBytes(f) + tail, |f.line| + 2;
      && start + |f.data| + 2 == |FrameBytes(f)|
      && bytes[start..start + |f.data|] == f.data
      && bytes[start + |f.data| + 2..] == tail
  {}

  function HeadOf(frames: seq<Frame>, last: Bytes): (Bytes, Bytes) {
    if frames == [] then (last, Crlf) else (frames[0].line, frames[0].data + Crlf + BodyBytes(frames[1..], last))
  }

  lemma HeadLine(frames: seq<Frame>, last: Bytes)
    requires ValidBody(Body(frames, last))
    ensures var (line, after) := HeadOf(frames, last);
      && BodyBytes(frames, last) == line + Crlf + after
      && LineEnd(BodyBytes(frames, last), 0) == |line|
      && SizeOf(line) >= 0
      && (SizeOf(line) == 0 <==> frames == [])
  {
    var (line, after) := HeadOf(frames, last);
    HeadBytes(frames, last);
    SizeLineExactly(last, 0);
    if frames != [] {
      assert ValidFrame(frames[0]);
      SizeLineExactly(frames[0].line, |frames[0].data|);
    }
    hide LineEnd, BodyBytes, SizeOf, SizeLine;
    LineFound([], line, after);
    assert [] + (line + Crlf + after) == line + Crlf + after;
  }

  lemma HeadBytes(frames: seq<Frame>, last: Bytes)
    ensures var (line, after) := HeadOf(frames, last);
      BodyBytes(frames, last) == line + Crlf + after
  {
    if frames != [] {
      var f := frames[0];
      assert FrameBytes(f) + BodyBytes(frames[1..], last) ==
        f.line + Crlf + (f.data + Crlf + BodyBytes(frames[1..], last));
    }
  }

  // ----- why a body is refused -----

  /** The bytes of whole frames. */
  function Framed(frames: seq<Frame>): Bytes {
    if frames == [] then [] else FrameBytes(frames[0]) + Framed(frames[1..])
  }

  /** A carriage return and a line feed. */
  predicate LineBreakAt(bytes: Bytes, k: nat) { k + 2 <= |bytes| && bytes[k] == 0x0D && bytes[k + 1] == 0x0A }

  /** The line before the first line break, and what comes after the break. */
  ghost predicate StartsWithLine(bytes: Bytes, line: Bytes, after: Bytes) {
    && LineBreakAt(bytes, |line|) && (forall k: nat :: k < |line| ==> !LineBreakAt(bytes, k))
    && line == bytes[..|line|] && after == bytes[|line| + 2..]
  }

  /** The first check that fails on a chunk of `n` bytes, whose data start at this position. */
  predicate ChunkFails(start: nat, after: Bytes, n: nat, filled: nat, maximum: nat, error: DecodeError) {
    if filled + n > maximum && maximum < 0xFFFF_FFFF_FFFF_FFFF then error == LimitExceeded
    else if start + n > 0xFFFF_FFFF_FFFF_FFFF then error == LengthOverflow
    else if |after| < n then error == DataIncomplete
    else error == DelimiterMalformed && !LineBreakAt(after, n)
  }

  /** What is wrong with this line and what follows it. */
  ghost predicate LineFails(
    line: Bytes, after: Bytes, position: nat, filled: nat, maximum: nat, error: DecodeError)
  {
    if SizeLine(line, 0) then error == TrailerMalformed && after != [0x0D, 0x0A]
    else if exists n: nat :: SizeLine(line, n) then
      exists n: nat :: SizeLine(line, n) && ChunkFails(position + |line| + 2, after, n, filled, maximum, error)
    else error == SizeMalformed
  }

  /** What is wrong right after `position` bytes of whole frames with `filled` bytes of data. */
  ghost predicate FailsHere(rest: Bytes, position: nat, filled: nat, maximum: nat, error: DecodeError) {
    if error == SizeIncomplete then forall k :: !LineBreakAt(rest, k)
    else
      exists line, after ::
        StartsWithLine(rest, line, after) && LineFails(line, after, position, filled, maximum, error)
  }

  lemma BreakIsTerminator(bytes: Bytes, cursor: nat, k: nat)
    requires cursor <= |bytes|
    ensures TerminatorAt(bytes, cursor + k) <==> LineBreakAt(bytes[cursor..], k)
  {
    if cursor + k + 2 <= |bytes| {
      var rest := bytes[cursor..];
      assert rest[k] == bytes[cursor + k] && rest[k + 1] == bytes[cursor + k + 1];
      if LineBreakAt(rest, k) { assert bytes[cursor + k..cursor + k + 2] == Crlf; }
      if TerminatorAt(bytes, cursor + k) {
        assert bytes[cursor + k..cursor + k + 2][0] == 0x0D && bytes[cursor + k..cursor + k + 2][1] == 0x0A;
      }
    }
  }

  /** The line that the decoder takes is the line before the first break. */
  /** The first line break of the rest is where the decoder's line ends. */
  lemma FirstBreak(bytes: Bytes, cursor: nat)
    requires cursor <= |bytes|
    ensures var e, rest := LineEnd(bytes, cursor), bytes[cursor..];
      if e <= |bytes| then
        cursor <= e && LineBreakAt(rest, e - cursor) && forall k: nat :: k < e - cursor ==> !LineBreakAt(rest, k)
      else forall k :: !LineBreakAt(rest, k)
  {
    hide LineEnd, TerminatorAt, LineBreakAt;
    LineEndMeaning(bytes, cursor);
    var e, rest := LineEnd(bytes, cursor), bytes[cursor..];
    forall k: nat | k < e - cursor ensures !LineBreakAt(rest, k) {
      BreakIsTerminator(bytes, cursor, k);
      assert !TerminatorAt(bytes, cursor + k);
    }
    if e <= |bytes| {
      BreakIsTerminator(bytes, cursor, e - cursor);
    } else {
      forall k: nat ensures !LineBreakAt(rest, k) { if k + 2 > |rest| { BreakInside(rest, k); } }
    }
  }

  lemma BreakInside(bytes: Bytes, k: nat)
    requires k + 2 > |bytes|
    ensures !LineBreakAt(bytes, k)
  {}

  lemma LineSplit(bytes: Bytes, cursor: nat, line: Bytes, after: Bytes)
    requires cursor <= |bytes|
    ensures StartsWithLine(bytes[cursor..], line, after) <==>
      (cursor <= LineEnd(bytes, cursor) <= |bytes| - 2
       && line == bytes[cursor..LineEnd(bytes, cursor)] && after == bytes[LineEnd(bytes, cursor) + 2..])
  {
    hide LineEnd;
    FirstBreak(bytes, cursor);
    var e, rest := LineEnd(bytes, cursor), bytes[cursor..];
    if StartsWithLine(rest, line, after) {
      assert LineBreakAt(rest, |line|) && e == cursor + |line|;
      assert rest[..|line|] == bytes[cursor..e] && rest[|line| + 2..] == bytes[e + 2..];
    }
    if cursor <= e <= |bytes| - 2 && line == bytes[cursor..e] && after == bytes[e + 2..] {
      assert rest[..|line|] == line && rest[|line| + 2..] == after;
    }
  }

  /** What the turn of the loop at the cursor refuses. */
  ghost predicate TurnFails(bytes: Bytes, cursor: nat, output: Bytes, maximum: nat, error: DecodeError)
    requires cursor <= |bytes|
  {
    var e := LineEnd(bytes, cursor);
    if e > |bytes| then error == SizeIncomplete
    else
      && cursor <= e <= |bytes| - 2
      && TakeTurn(bytes, e, SizeOf(bytes[cursor..e]), output, maximum) == Stop(Err(error))
  }

  lemma TurnFailsExactly(bytes: Bytes, cursor: nat, output: Bytes, maximum: nat, error: DecodeError)
    requires cursor <= |bytes|
    ensures TurnFails(bytes, cursor, output, maximum, error) <==>
      FailsHere(bytes[cursor..], cursor, |output|, maximum, error)
  {
    hide LineEnd, TakeTurn, LineFails, StartsWithLine, LineBreakAt, SizeOf;
    FirstBreak(bytes, cursor);
    var e := LineEnd(bytes, cursor);
    forall line, after { LineSplit(bytes, cursor, line, after); }
    if e <= |bytes| {
      BreakFits(bytes[cursor..], e - cursor);
      var line, after := bytes[cursor..e], bytes[e + 2..];
      LineFailsExactly(bytes, e, line, output, maximum, error, cursor);
      NeverIncomplete(bytes, e, SizeOf(line), output, maximum);
    }
  }

  lemma BreakFits(bytes: Bytes, k: nat)
    requires LineBreakAt(bytes, k)
    ensures k + 2 <= |bytes|
  {}

  lemma NeverIncomplete(bytes: Bytes, lineEnd: nat, length: int, output: Bytes, maximum: nat)
    requires lineEnd + 2 <= |bytes|
    ensures TakeTurn(bytes, lineEnd, length, output, maximum) != Stop(Err(SizeIncomplete))
  {}

  lemma LineFailsExactly(
    bytes: Bytes, e: nat, line: Bytes, output: Bytes, maximum: nat, error: DecodeError, cursor: nat)
    requires cursor + |line| == e <= |bytes| - 2
    ensures TakeTurn(bytes, e, SizeOf(line), output, maximum) == Stop(Err(error)) <==>
      LineFails(line, bytes[e + 2..], cursor, |output|, maximum, error)
  {
    hide SizeOf, SizeLine, LineBreakAt, TerminatorAt;
    forall n: nat ensures SizeOf(line) == n <==> SizeLine(line, n) { SizeLineExactly(line, n); }
    if SizeOf(line) > 0 {
      var n := SizeOf(line);
      BreakIsTerminator(bytes, e + 2, n);
      assert SizeLine(line, n);
      ChunkFailsExactly(bytes, e, n, output, maximum, error);
    }
  }

  lemma ChunkFailsExactly(bytes: Bytes, e: nat, n: nat, output: Bytes, maximum: nat, error: DecodeError)
    requires e <= |bytes| - 2 && n > 0
    ensures TakeTurn(bytes, e, n, output, maximum) == Stop(Err(error)) <==>
      ChunkFails(e + 2, bytes[e + 2..], n, |output|, maximum, error)
  {
    hide LineBreakAt, TerminatorAt;
    BreakIsTerminator(bytes, e + 2, n);
  }

  // ----- the decoder refuses exactly what fails after whole frames -----

  lemma {:induction false} DecodeAlong(pre: Bytes, frames: seq<Frame>, rest: Bytes, output: Bytes, maximum: nat)
    requires (forall f :: f in frames ==> ValidFrame(f)) && |output| <= |pre| && |output| + |Data(frames)| <= maximum
    requires InMemory(pre + Framed(frames) + rest)
    ensures |output + Data(frames)| <= |pre + Framed(frames)|
    ensures Decode(pre + Framed(frames) + rest, |pre|, output, maximum) ==
      Decode(pre + Framed(frames) + rest, |pre + Framed(frames)|, output + Data(frames), maximum)
    decreases |frames|
  {
    hide Decode, FrameBytes, ValidFrame;
    if frames == [] {
      assert output + [] == output && pre + [] == pre;
    } else {
      var f, tail := frames[0], frames[1..];
      assert pre + Framed(frames) + rest == pre + (FrameBytes(f) + (Framed(tail) + rest));
      assert pre + Framed(frames) + rest == (pre + FrameBytes(f)) + Framed(tail) + rest;
      assert pre + Framed(frames) == (pre + FrameBytes(f)) + Framed(tail);
      DecodeFrame(pre, f, Framed(tail) + rest, output, maximum);
      FrameLength(f);
      Nested(output, f.data, Data(tail));
      DecodeAlong(pre + FrameBytes(f), tail, rest, output + f.data, maximum);
    }
  }

  /** Whole frames whose data fit, and then something that fails. */
  ghost predicate Refused(bytes: Bytes, frames: seq<Frame>, rest: Bytes, maximum: nat, error: DecodeError) {
    && (forall f :: f in frames ==> ValidFrame(f)) && bytes == Framed(frames) + rest
    && |Data(frames)| <= maximum && FailsHere(rest, |Framed(frames)|, |Data(frames)|, maximum, error)
  }

  /** A turn of the loop ends the decoding, or takes a whole frame. */
  lemma TurnOrFrame(bytes: Bytes, cursor: nat, output: Bytes, maximum: nat) returns (f: Frame)
    requires |output| <= cursor <= |bytes| && InMemory(bytes) && |output| <= maximum
    requires Decode(bytes, cursor, output, maximum).Err?
    ensures
      || TurnFails(bytes, cursor, output, maximum, Decode(bytes, cursor, output, maximum).error)
      || (ValidFrame(f) && |output| + |f.data| <= maximum
          && var next := cursor + |FrameBytes(f)|;
            && cursor < next <= |bytes| && bytes[cursor..] == FrameBytes(f) + bytes[next..]
            && Decode(bytes, cursor, output, maximum) == Decode(bytes, next, output + f.data, maximum))
  {
    hide LineEnd, SizeOf, Decode, TakeTurn, FrameBytes, ValidFrame;
    DecodeStep(bytes, cursor, output, maximum);
    var e := LineEnd(bytes, cursor);
    f := Frame([], []);
    if e <= |bytes| {
      var line := bytes[cursor..e];
      var turn := TakeTurn(bytes, e, SizeOf(line), output, maximum);
      if turn.Go? {
        GoMeans(bytes, e, SizeOf(line), output, maximum);
        f := Frame(line, turn.data);
        LineEndMeaning(bytes, cursor);
        FrameAt(bytes, cursor, e, f);
        FrameLength(f);
      }
    }
  }

  lemma GoMeans(bytes: Bytes, lineEnd: nat, length: int, output: Bytes, maximum: nat)
    requires lineEnd + 2 <= |bytes| && TakeTurn(bytes, lineEnd, length, output, maximum).Go?
    ensures var turn, start := TakeTurn(bytes, lineEnd, length, output, maximum), lineEnd + 2;
      && length > 0 && start + length <= |bytes| && turn.data == bytes[start..start + length]
      && turn.cursor == start + length + 2 && TerminatorAt(bytes, start + length)
      && (InMemory(bytes) && |output| <= start ==> |output| + length <= maximum)
  {}

  lemma {:induction false} DecodeRefused(bytes: Bytes, cursor: nat, output: Bytes, maximum: nat)
    returns (frames: seq<Frame>, rest: Bytes)
    requires |output| <= cursor <= |bytes| && InMemory(bytes) && |output| <= maximum
    requires Decode(bytes, cursor, output, maximum).Err?
    ensures (forall f :: f in frames ==> ValidFrame(f)) && bytes[cursor..] == Framed(frames) + rest
    ensures |output| + |Data(frames)| <= maximum
    ensures FailsHere(rest, cursor + |Framed(frames)|, |output| + |Data(frames)|, maximum,
      Decode(bytes, cursor, output, maximum).error)
    decreases |bytes| - cursor
  {
    hide FailsHere, TurnFails, FrameBytes, ValidFrame, Decode;
    var error := Decode(bytes, cursor, output, maximum).error;
    if TurnFails(bytes, cursor, output, maximum, error) {
      TurnFailsExactly(bytes, cursor, output, maximum, error);
      frames, rest := [], bytes[cursor..];
    } else {
      var f := TurnOrFrame(bytes, cursor, output, maximum);
      FrameLength(f);
      var tail;
      tail, rest := DecodeRefused(bytes, cursor + |FrameBytes(f)|, output + f.data, maximum);
      frames := [f] + tail;
      assert frames[1..] == tail;
    }
  }

  lemma FailureDecodes(bytes: Bytes, frames: seq<Frame>, rest: Bytes, maximum: nat, error: DecodeError)
    requires InMemory(bytes) && Refused(bytes, frames, rest, maximum, error)
    ensures Decode(bytes, 0, [], maximum) == Err(error)
  {
    hide FailsHere, TurnFails, Decode;
    assert [] + Framed(frames) == Framed(frames) && [] + Data(frames) == Data(frames);
    DecodeAlong([], frames, rest, [], maximum);
    var cursor, output := |Framed(frames)|, Data(frames);
    assert bytes[cursor..] == rest;
    TurnFailsExactly(bytes, cursor, output, maximum, error);
    TurnFailsDecodes(bytes, cursor, output, maximum, error);
  }

  lemma TurnFailsDecodes(bytes: Bytes, cursor: nat, output: Bytes, maximum: nat, error: DecodeError)
    requires cursor <= |bytes| && TurnFails(bytes, cursor, output, maximum, error)
    ensures Decode(bytes, cursor, output, maximum) == Err(error)
  {
    hide LineEnd, TakeTurn, SizeOf;
  }

  /** Refused with an error exactly when, after whole frames whose data fit, that check is the first to fail. */
  lemma RefusesExactly(bytes: Bytes, maximum: nat, error: DecodeError)
    requires InMemory(bytes)
    ensures Decode(bytes, 0, [], maximum) == Err(error) <==>
      exists frames, rest :: Refused(bytes, frames, rest, maximum, error)
  {
    hide FailsHere, Decode;
    if Decode(bytes, 0, [], maximum) == Err(error) {
      var frames, rest := DecodeRefused(bytes, 0, [], maximum);
      assert bytes[0..] == bytes;
      assert Refused(bytes, frames, rest, maximum, error);
    }
    if frames, rest :| Refused(bytes, frames, rest, maximum, error) {
      FailureDecodes(bytes, frames, rest, maximum, error);
    }
  }
}
