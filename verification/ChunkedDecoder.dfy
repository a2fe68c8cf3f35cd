/** The resumable decoder of the chunked transfer coding (src/server/picohttpparser/picohttpparser.c 476-611;
    section 4.1 of RFC 7230). */
module ChunkedDecoder {

  newtype Byte = x: int | 0 <= x < 256

  const CR: Byte := 13
  const LF: Byte := 10

  /** sizeof(size_t) * 2 */
  const MAX_DIGITS: nat := 16

  datatype Phase = Size | Ext | Data | Crlf | LineHead | LineMiddle

  /** The fields of struct phr_chunked_decoder. */
  datatype Decoder = Decoder(phase: Phase, left: nat, hexCount: nat, trailer: bool)

  /** decode_hex: the value of a hexadecimal digit, or -1. */
  function DecodeHex(ch: Byte): (v: int)
    ensures -1 <= v < 16
  {
    if 48 <= ch <= 57 then (ch - 48) as int
    else if 65 <= ch <= 70 then (ch - 65) as int + 10
    else if 97 <= ch <= 102 then (ch - 97) as int + 10
    else -1
  }

  // ---------------------------------------------------------------- one byte at a time

  /** What one byte does: it is consumed, perhaps as payload; it is consumed and ends the body; it is refused. */
  datatype Outcome = Go(d: Decoder, out: seq<Byte>) | Done(d: Decoder) | Fail(d: Decoder)

  function StepExt(d: Decoder, b: Byte): Outcome {
    if b != LF then Go(d, [])
    else if d.left > 0 then Go(d.(phase := Data), [])
    else if d.trailer then Go(d.(phase := LineHead), [])
    else Done(d)
  }

  function Step(d: Decoder, b: Byte): Outcome {
    match d.phase
    case Size =>
      var v := DecodeHex(b);
      if v == -1 then if d.hexCount == 0 then Fail(d) else StepExt(d.(phase := Ext, hexCount := 0), b)
      else if d.hexCount == MAX_DIGITS then Fail(d)
      else Go(d.(left := d.left * 16 + v, hexCount := d.hexCount + 1), [])
    case Ext => StepExt(d, b)
    case Data => if d.left <= 1 then Go(d.(phase := Crlf, left := 0), [b]) else Go(d.(left := d.left - 1), [b])
    case Crlf => if b == CR then Go(d, []) else if b == LF then Go(d.(phase := Size), []) else Fail(d)
    case LineHead => if b == CR then Go(d, []) else if b == LF then Done(d) else Go(d.(phase := LineMiddle), [])
    case LineMiddle => if b == LF then Go(d.(phase := LineHead), []) else Go(d, [])
  }

  /** What is refused: a size line without a digit or with more than 16, and anything but CR and LF behind the data. */
  lemma RefusedExactly(d: Decoder, b: Byte)
    ensures Step(d, b).Fail? <==>
              var digit := 48 <= b <= 57 || 65 <= b <= 70 || 97 <= b <= 102;
              || (d.phase.Size? && digit && d.hexCount == 16)
              || (d.phase.Size? && !digit && d.hexCount == 0)
              || (d.phase.Crlf? && b != 13 && b != 10)
  {
  }

  /** Where the body ends: at the line feed of a size line with size 0, or of a blank line behind the trailers. */
  lemma EndsExactly(d: Decoder, b: Byte)
    ensures Step(d, b).Done? <==>
              b == 10 && (d.phase.LineHead?
                          || (d.left == 0 && !d.trailer && (d.phase.Ext? || (d.phase.Size? && d.hexCount > 0))))
  {
  }

  /** Decoding an input: all of it was consumed and more is expected, the body ended after `consumed` bytes, or the
      byte at index `consumed` was refused. */
  datatype Result =
    | More(d: Decoder, out: seq<Byte>)
    | Complete(d: Decoder, out: seq<Byte>, consumed: nat)
    | Error(d: Decoder, out: seq<Byte>, consumed: nat)

  /** After a result for n bytes, one byte more. */
  function Extended(before: Result, n: nat, b: Byte): Result {
    if !before.More? then before else
      match Step(before.d, b)
      case Go(e, out) => More(e, before.out + out)
      case Done(e) => Complete(e, before.out, n + 1)
      case Fail(e) => Error(e, before.out, n)
  }

  function Decode(d: Decoder, s: seq<Byte>): Result {
    if s == [] then More(d, []) else Extended(Decode(d, s[..|s| - 1]), |s| - 1, s[|s| - 1])
  }

  function Consumed(r: Result, s: seq<Byte>): nat { if r.More? then |s| else r.consumed }

  /** The result of a second call after a first one that returned -2. */
  function Continued(first: Result, n: nat, second: Result): Result
    requires first.More?
  {
    match second
    case More(d, out) => More(d, first.out + out)
    case Complete(d, out, consumed) => Complete(d, first.out + out, n + consumed)
    case Error(d, out, consumed) => Error(d, first.out + out, n + consumed)
  }

  /** The definition, one byte more. */
  lemma DecodeOneMore(d: Decoder, s: seq<Byte>, b: Byte)
    ensures Decode(d, s + [b]) == Extended(Decode(d, s), |s|, b)
  {
    assert (s + [b])[..|s|] == s;
  }

  /** One byte more behind a second call is one byte more behind both. */
  lemma ContinuedOneMore(first: Result, n: nat, second: Result, k: nat, b: Byte)
    requires first.More?
    ensures Extended(Continued(first, n, second), n + k, b) == Continued(first, n, Extended(second, k, b))
  {
  }

  /** Feeding a then b with the decoder state in between is feeding a + b; once the body ended or was refused,
      further input changes nothing. */
  lemma {:induction false} SplitInvariance(d: Decoder, a: seq<Byte>, b: seq<Byte>)
    ensures var first := Decode(d, a);
            Decode(d, a + b) == if first.More? then Continued(first, |a|, Decode(first.d, b)) else first
  {
    var first := Decode(d, a);
    if b == [] {
      assert a + b == a;
    } else {
      var front, last := b[..|b| - 1], b[|b| - 1];
      SplitInvariance(d, a, front);
      DecodeOneMore(d, a + front, last);
      assert a + front + [last] == a + b;
      if first.More? { ContinuedOneMore(first, |a|, Decode(first.d, front), |front|, last); }
    }
  }

  lemma MoreAndMore(d: Decoder, a: seq<Byte>, b: seq<Byte>, e: Decoder, x: seq<Byte>, f: Decoder, y: seq<Byte>)
    requires Decode(d, a) == More(e, x) && Decode(e, b) == More(f, y)
    ensures Decode(d, a + b) == More(f, x + y)
  {
    SplitInvariance(d, a, b);
  }

  /** The write index never passes the read index, and nothing is read twice or past the end. */
  lemma {:induction false} WriteBehindRead(d: Decoder, s: seq<Byte>)
    ensures |Decode(d, s).out| <= Consumed(Decode(d, s), s) <= |s|
  {
    if s != [] { WriteBehindRead(d, s[..|s| - 1]); }
  }

  // ---------------------------------------------------------------- no overflow

  function Pow16(k: nat): (p: nat)
    ensures p > 0
  {
    if k == 0 then 1 else 16 * Pow16(k - 1)
  }

  lemma {:induction false} Pow16Monotone(j: nat, k: nat)
    requires j <= k
    ensures Pow16(j) <= Pow16(k)
  {
    if j < k { Pow16Monotone(j, k - 1); }
  }

  /** The range of size_t. */
  const SIZE_T: nat := 0x1_0000_0000_0000_0000

  lemma DigitsFit(k: nat)
    requires k <= MAX_DIGITS
    ensures Pow16(k) <= SIZE_T
  {
    assert Pow16(1) == 0x10 && Pow16(2) == 0x100 && Pow16(3) == 0x1000 && Pow16(4) == 0x10000;
    assert Pow16(5) == 0x10_0000 && Pow16(6) == 0x100_0000 && Pow16(7) == 0x1000_0000 && Pow16(8) == 0x1_0000_0000;
    assert Pow16(9) == 0x10_0000_0000 && Pow16(10) == 0x100_0000_0000;
    assert Pow16(11) == 0x1000_0000_0000 && Pow16(12) == 0x1_0000_0000_0000;
    assert Pow16(13) == 0x10_0000_0000_0000 && Pow16(14) == 0x100_0000_0000_0000;
    assert Pow16(15) == 0x1000_0000_0000_0000 && Pow16(16) == SIZE_T;
    Pow16Monotone(k, MAX_DIGITS);
  }

  /** The states a zero-initialised decoder can reach. */
  predicate Valid(d: Decoder) {
    && d.left < SIZE_T
    && (if d.phase.Size? then d.hexCount <= MAX_DIGITS && d.left < Pow16(d.hexCount) else d.hexCount == 0)
    && (d.phase.Data? ==> d.left > 0) && (d.phase.Crlf? ==> d.left == 0)
  }

  lemma DigitValid(d: Decoder, v: nat)
    requires Valid(d) && d.phase.Size? && d.hexCount < MAX_DIGITS && v < 16
    ensures Valid(d.(left := d.left * 16 + v, hexCount := d.hexCount + 1))
  {
    DigitsFit(d.hexCount + 1);
    assert Pow16(d.hexCount + 1) == 16 * Pow16(d.hexCount);
  }

  lemma StepExtValid(d: Decoder, b: Byte)
    requires Valid(d) && d.phase.Ext?
    ensures Valid(StepExt(d, b).d) && StepExt(d, b).d.trailer == d.trailer
  {
  }

  lemma SizeStepValid(d: Decoder, b: Byte)
    requires Valid(d) && d.phase.Size?
    ensures Valid(Step(d, b).d) && Step(d, b).d.trailer == d.trailer
  {
    if DecodeHex(b) == -1 { StepExtValid(d.(phase := Ext, hexCount := 0), b); }
    else if d.hexCount < MAX_DIGITS { DigitValid(d, DecodeHex(b)); }
  }

  lemma StepValid(d: Decoder, b: Byte)
    requires Valid(d)
    ensures Valid(Step(d, b).d) && Step(d, b).d.trailer == d.trailer
  {
    if d.phase.Size? { SizeStepValid(d, b); }
    else if d.phase.Ext? { StepExtValid(d, b); }
  }

  /** The chunk size stays below 16^16, so size_t arithmetic does not wrap around. */
  lemma {:induction false} DecodeValid(d: Decoder, s: seq<Byte>)
    requires Valid(d)
    ensures Valid(Decode(d, s).d) && Decode(d, s).d.trailer == d.trailer
  {
    if s != [] {
      DecodeValid(d, s[..|s| - 1]);
      var before := Decode(d, s[..|s| - 1]);
      if before.More? { StepValid(before.d, s[|s| - 1]); }
    }
  }

  // ---------------------------------------------------------------- decoding inverts encoding

  /** One chunk as it is on the wire: size line, data. */
  datatype Chunk = Chunk(digits: seq<Byte>, ext: seq<Byte>, data: seq<Byte>)

  function SizeOf(digits: seq<Byte>): int {
    if digits == [] then 0 else SizeOf(digits[..|digits| - 1]) * 16 + DecodeHex(digits[|digits| - 1])
  }

  /** A size of at most 16 digits, and extensions on the same line that do not go on with a digit. */
  ghost predicate SizeLineOk(c: Chunk) {
    && 0 < |c.digits| <= MAX_DIGITS && (forall b <- c.digits :: DecodeHex(b) != -1)
    && LF !in c.ext && (c.ext != [] ==> DecodeHex(c.ext[0]) == -1)
    && SizeOf(c.digits) == |c.data|
  }

  function SizeLine(c: Chunk): seq<Byte> { c.digits + c.ext + [CR, LF] }

  function EncodeChunk(c: Chunk): seq<Byte> { SizeLine(c) + c.data + [CR, LF] }

  function EncodeChunks(cs: seq<Chunk>): seq<Byte> {
    if cs == [] then [] else EncodeChunks(cs[..|cs| - 1]) + EncodeChunk(cs[|cs| - 1])
  }

  function Payload(cs: seq<Chunk>): seq<Byte> {
    if cs == [] then [] else Payload(cs[..|cs| - 1]) + cs[|cs| - 1].data
  }

  /** A trailer field: one line that is not blank. */
  ghost predicate TrailerOk(line: seq<Byte>) { line != [] && line[0] != CR && LF !in line }

  function EncodeTrailers(lines: seq<seq<Byte>>): seq<Byte> {
    if lines == [] then [] else EncodeTrailers(lines[..|lines| - 1]) + (lines[|lines| - 1] + [CR, LF])
  }

  /** A whole body: chunks of data, the last chunk of size 0, trailer fields, a blank line. */
  function EncodeBody(cs: seq<Chunk>, last: Chunk, trailers: seq<seq<Byte>>): seq<Byte> {
    EncodeChunks(cs) + SizeLine(last) + (EncodeTrailers(trailers) + [CR, LF])
  }

  ghost predicate BodyOk(cs: seq<Chunk>, last: Chunk, trailers: seq<seq<Byte>>) {
    && (forall c <- cs :: SizeLineOk(c) && c.data != [])
    && SizeLineOk(last) && last.data == []
    && (forall line <- trailers :: TrailerOk(line))
  }

  function Start(trailer: bool): Decoder { Decoder(Size, 0, 0, trailer) }

  lemma {:induction false} DigitsDecode(trailer: bool, digits: seq<Byte>)
    requires |digits| <= MAX_DIGITS && forall b <- digits :: DecodeHex(b) != -1
    ensures SizeOf(digits) >= 0
    ensures Decode(Start(trailer), digits) == More(Decoder(Size, SizeOf(digits), |digits|, trailer), [])
  {
    if digits != [] { DigitsDecode(trailer, digits[..|digits| - 1]); }
  }

  /** Everything up to the end of the line is skipped. */
  lemma {:induction false} ExtDecode(d: Decoder, ext: seq<Byte>)
    requires d.phase.Ext? || (d.phase.Size? && d.hexCount > 0 && (ext != [] ==> DecodeHex(ext[0]) == -1))
    requires LF !in ext
    ensures Decode(d, ext)
              == More(if ext == [] then d else d.(phase := Ext, hexCount := if d.phase.Ext? then d.hexCount else 0), [])
  {
    if ext != [] {
      ExtDecode(d, ext[..|ext| - 1]);
      assert ext[0] == if |ext| == 1 then ext[|ext| - 1] else ext[..|ext| - 1][0];
    }
  }

  lemma One(d: Decoder, b: Byte)
    ensures Decode(d, [b]) ==
      match Step(d, b)
      case Go(e, out) => More(e, out)
      case Done(e) => Complete(e, [], 1)
      case Fail(e) => Error(e, [], 0)
  {
    assert [b][..0] == [];
    assert Decode(d, []) == More(d, []);
  }

  /** A size line leads to the data, to the trailers or to the end. */
  lemma SizeLineDecode(trailer: bool, c: Chunk)
    requires SizeLineOk(c)
    ensures var d := Decoder(Ext, |c.data|, 0, trailer);
            Decode(Start(trailer), SizeLine(c)) ==
              if c.data != [] then More(d.(phase := Data), [])
              else if trailer then More(d.(phase := LineHead), [])
              else Complete(d, [], |SizeLine(c)|)
  {
    DigitsDecode(trailer, c.digits);
    var d := Decoder(Size, |c.data|, |c.digits|, trailer);
    ExtDecode(d, c.ext + [CR]);
    SplitInvariance(Start(trailer), c.digits, c.ext + [CR]);
    var e := Decoder(Ext, |c.data|, 0, trailer);
    SplitInvariance(Start(trailer), c.digits + (c.ext + [CR]), [LF]);
    One(e, LF);
    assert c.digits + (c.ext + [CR]) + [LF] == SizeLine(c);
  }

  lemma {:induction false} DataDecode(d: Decoder, data: seq<Byte>)
    requires d.phase.Data? && 0 < d.left && |data| <= d.left
    ensures Decode(d, data)
              == More(if |data| == d.left then d.(phase := Crlf, left := 0) else d.(left := d.left - |data|), data)
  {
    if data != [] {
      DataDecode(d, data[..|data| - 1]);
      assert data[..|data| - 1] + [data[|data| - 1]] == data;
    }
  }

  lemma CrlfDecode(d: Decoder)
    requires d.phase.Crlf?
    ensures Decode(d, [CR, LF]) == More(d.(phase := Size), [])
  {
    One(d, CR); One(d, LF);
    SplitInvariance(d, [CR], [LF]);
    assert [CR] + [LF] == [CR, LF];
  }

  /** Data behind its size line. */
  lemma LineAndData(trailer: bool, line: seq<Byte>, data: seq<Byte>)
    requires data != [] && Decode(Start(trailer), line) == More(Decoder(Data, |data|, 0, trailer), [])
    ensures Decode(Start(trailer), line + data) == More(Decoder(Crlf, 0, 0, trailer), data)
  {
    var d := Decoder(Data, |data|, 0, trailer);
    DataDecode(d, data);
    MoreAndMore(Start(trailer), line, data, d, [], Decoder(Crlf, 0, 0, trailer), data);
    assert [] + data == data;
  }

  /** ... and the line end behind the data. */
  lemma FramedData(trailer: bool, head: seq<Byte>, data: seq<Byte>)
    requires Decode(Start(trailer), head) == More(Decoder(Crlf, 0, 0, trailer), data)
    ensures Decode(Start(trailer), head + [CR, LF]) == More(Start(trailer), data)
  {
    var e := Decoder(Crlf, 0, 0, trailer);
    CrlfDecode(e);
    MoreAndMore(Start(trailer), head, [CR, LF], e, data, Start(trailer), []);
    assert data + [] == data;
  }

  lemma ChunkDecode(trailer: bool, c: Chunk)
    requires SizeLineOk(c) && c.data != []
    ensures Decode(Start(trailer), EncodeChunk(c)) == More(Start(trailer), c.data)
  {
    SizeLineDecode(trailer, c);
    LineAndData(trailer, SizeLine(c), c.data);
    FramedData(trailer, SizeLine(c) + c.data, c.data);
  }

  lemma {:induction false} ChunksDecode(trailer: bool, cs: seq<Chunk>)
    requires forall c <- cs :: SizeLineOk(c) && c.data != []
    ensures Decode(Start(trailer), EncodeChunks(cs)) == More(Start(trailer), Payload(cs))
  {
    if cs != [] {
      var front, c := cs[..|cs| - 1], cs[|cs| - 1];
      ChunksDecode(trailer, front);
      ChunkDecode(trailer, c);
      SplitInvariance(Start(trailer), EncodeChunks(front), EncodeChunk(c));
    }
  }

  lemma {:induction false} LineDecode(d: Decoder, line: seq<Byte>)
    requires d.phase.LineHead? && TrailerOk(line)
    ensures Decode(d, line) == More(d.(phase := LineMiddle), [])
  {
    One(d, line[0]);
    if |line| == 1 {
      assert line == [line[0]];
    } else {
      LineDecode(d, line[..|line| - 1]);
    }
  }

  lemma TrailerDecode(d: Decoder, line: seq<Byte>)
    requires d.phase.LineHead? && TrailerOk(line)
    ensures Decode(d, line + [CR, LF]) == More(d, [])
  {
    LineDecode(d, line);
    var e := d.(phase := LineMiddle);
    One(e, CR); One(e, LF);
    SplitInvariance(e, [CR], [LF]);
    assert [CR] + [LF] == [CR, LF];
    SplitInvariance(d, line, [CR, LF]);
  }

  lemma {:induction false} TrailersDecode(d: Decoder, lines: seq<seq<Byte>>)
    requires d.phase.LineHead? && forall line <- lines :: TrailerOk(line)
    ensures Decode(d, EncodeTrailers(lines)) == More(d, [])
  {
    if lines != [] {
      TrailersDecode(d, lines[..|lines| - 1]);
      TrailerDecode(d, lines[|lines| - 1]);
      SplitInvariance(d, EncodeTrailers(lines[..|lines| - 1]), lines[|lines| - 1] + [CR, LF]);
    }
  }

  lemma BlankLine(d: Decoder)
    requires d.phase.LineHead?
    ensures Decode(d, [CR, LF]) == Complete(d, [], 2)
  {
    One(d, CR); One(d, LF);
    SplitInvariance(d, [CR], [LF]);
    assert [CR] + [LF] == [CR, LF];
  }

  lemma EndDecode(d: Decoder, lines: seq<seq<Byte>>)
    requires d.phase.LineHead? && forall line <- lines :: TrailerOk(line)
    ensures Decode(d, EncodeTrailers(lines) + [CR, LF]) == Complete(d, [], |EncodeTrailers(lines) + [CR, LF]|)
  {
    TrailersDecode(d, lines);
    BlankLine(d);
    SplitInvariance(d, EncodeTrailers(lines), [CR, LF]);
  }

  /** Decoding any well-formed body gives back the data of its chunks and stops exactly behind it: behind the blank
      line if trailers are consumed, else behind the line of the last chunk. What follows is not looked at. */
  lemma DecodeInvertsEncode(trailer: bool, cs: seq<Chunk>, last: Chunk, trailers: seq<seq<Byte>>, rest: seq<Byte>)
    requires BodyOk(cs, last, trailers)
    ensures var r := Decode(Start(trailer), EncodeBody(cs, last, trailers) + rest);
            r.Complete? && r.out == Payload(cs)
            && r.consumed == if trailer then |EncodeBody(cs, last, trailers)| else |EncodeChunks(cs) + SizeLine(last)|
  {
    ChunksDecode(trailer, cs);
    SizeLineDecode(trailer, last);
    var body, end := EncodeChunks(cs) + SizeLine(last), EncodeTrailers(trailers) + [CR, LF];
    SplitInvariance(Start(trailer), EncodeChunks(cs), SizeLine(last));
    if trailer { EndDecode(Decoder(LineHead, 0, 0, true), trailers); }
    SplitInvariance(Start(trailer), body, end);
    SplitInvariance(Start(trailer), body + end, rest);
  }
}
