/** Bodies as an encoder writes them, with sizes in hexadecimal notation (section 4.1 of RFC 7230): an independent
    measure for ChunkedDecoder. */
module ChunkedEncoder {
  import opened ChunkedDecoder

  /** The digits, written out. */
  const LOWER: string := "0123456789abcdef"
  const UPPER: string := "0123456789ABCDEF"

  function HexDigit(v: nat, upper: bool): Byte
    requires v < 16
  {
    if upper then UPPER[v] as Byte else LOWER[v] as Byte
  }

  /** A number in base 16. */
  function HexNumber(n: nat, upper: bool): seq<Byte> {
    if n < 16 then [HexDigit(n, upper)] else HexNumber(n / 16, upper) + [HexDigit(n % 16, upper)]
  }

  /** Each digit, in either case, has its value; no other byte has one. */
  lemma DigitValue(b: Byte)
    ensures forall v: nat, upper: bool | v < 16 && HexDigit(v, upper) == b :: DecodeHex(b) == v
    ensures (forall v: nat, upper: bool | v < 16 :: HexDigit(v, upper) != b) ==> DecodeHex(b) == -1
  {
    if DecodeHex(b) != -1 {
      assert HexDigit(DecodeHex(b), 65 <= b <= 70) == b;
    }
  }

  lemma DigitDecodes(v: nat, upper: bool)
    requires v < 16
    ensures DecodeHex(HexDigit(v, upper)) == v
  {
    DigitValue(HexDigit(v, upper));
  }

  /** The written number is read back. */
  lemma {:induction false} NumberDecodes(n: nat, upper: bool, k: nat)
    requires 0 < k && n < Pow16(k)
    ensures 0 < |HexNumber(n, upper)| <= k
    ensures forall b <- HexNumber(n, upper) :: DecodeHex(b) != -1
    ensures SizeOf(HexNumber(n, upper)) == n
  {
    if n < 16 {
      DigitDecodes(n, upper);
      assert [HexDigit(n, upper)][..0] == [];
    } else {
      assert k > 1 by { assert Pow16(1) == 16; }
      assert Pow16(k) == 16 * Pow16(k - 1);
      NumberDecodes(n / 16, upper, k - 1);
      DigitDecodes(n % 16, upper);
      var s := HexNumber(n / 16, upper) + [HexDigit(n % 16, upper)];
      assert s[..|s| - 1] == HexNumber(n / 16, upper);
    }
  }

  /** A piece of payload, the extensions behind its size, and the case of its size digits. */
  datatype Piece = Piece(data: seq<Byte>, ext: seq<Byte>, upper: bool)

  /** Extensions are on the line of the size and do not begin with a digit. */
  ghost predicate ExtOk(ext: seq<Byte>) {
    && (forall b <- ext :: b != 10)
    && (ext != [] ==> forall v: nat, upper: bool | v < 16 :: HexDigit(v, upper) != ext[0])
  }

  function AsChunk(p: Piece): Chunk { Chunk(HexNumber(|p.data|, p.upper), p.ext, p.data) }

  lemma PowIsSizeT()
    ensures Pow16(16) == SIZE_T
  {
    assert Pow16(4) == 0x10000;
    assert Pow16(8) == 0x1_0000_0000;
    assert Pow16(12) == 0x1_0000_0000_0000;
  }

  lemma PieceOk(p: Piece)
    requires |p.data| < SIZE_T && ExtOk(p.ext)
    ensures SizeLineOk(AsChunk(p))
  {
    DigitsFit(16);
    PowIsSizeT();
    NumberDecodes(|p.data|, p.upper, 16);
    if p.ext != [] { DigitValue(p.ext[0]); }
  }

  /** The whole body: for each piece its size in hexadecimal, extensions, CR LF, data, CR LF; then a 0, trailer lines
      and a blank line. */
  function Written(pieces: seq<Piece>): seq<Byte> {
    if pieces == [] then []
    else
      var p := pieces[|pieces| - 1];
      Written(pieces[..|pieces| - 1]) + HexNumber(|p.data|, p.upper) + p.ext + [13, 10] + p.data + [13, 10]
  }

  function WrittenTrailers(lines: seq<seq<Byte>>): seq<Byte> {
    if lines == [] then [] else WrittenTrailers(lines[..|lines| - 1]) + lines[|lines| - 1] + [13, 10]
  }

  function Contents(pieces: seq<Piece>): seq<Byte> {
    if pieces == [] then [] else Contents(pieces[..|pieces| - 1]) + pieces[|pieces| - 1].data
  }

  function Chunks(pieces: seq<Piece>): seq<Chunk> { seq(|pieces|, i requires 0 <= i < |pieces| => AsChunk(pieces[i])) }

  lemma {:induction false} WrittenIsEncoded(pieces: seq<Piece>)
    ensures Written(pieces) == EncodeChunks(Chunks(pieces)) && Contents(pieces) == Payload(Chunks(pieces))
  {
    if pieces != [] {
      var front, p := pieces[..|pieces| - 1], pieces[|pieces| - 1];
      WrittenIsEncoded(front);
      var cs := Chunks(pieces);
      assert cs[..|cs| - 1] == Chunks(front) && cs[|cs| - 1] == AsChunk(p);
    }
  }

  lemma {:induction false} TrailersAreEncoded(lines: seq<seq<Byte>>)
    ensures WrittenTrailers(lines) == EncodeTrailers(lines)
  {
    if lines != [] {
      TrailersAreEncoded(lines[..|lines| - 1]);
    }
  }

  /** What the encoder writes is decoded to what it was given; decoding stops behind the blank line, or, without
      trailers, behind the line of the last chunk. */
  lemma DecodesWhatWasWritten(trailer: bool, pieces: seq<Piece>, trailers: seq<seq<Byte>>, rest: seq<Byte>)
    requires forall p <- pieces :: 0 < |p.data| < 0x1_0000_0000_0000_0000 && ExtOk(p.ext)
    requires forall line: seq<Byte> | line in trailers :: line != [] && line[0] != 13 && 10 as Byte !in line
    ensures var head, tail := Written(pieces) + [48, 13, 10], WrittenTrailers(trailers) + [13, 10];
            var r := Decode(Decoder(Size, 0, 0, trailer), head + tail + rest);
            r.Complete? && r.out == Contents(pieces) && r.consumed == if trailer then |head + tail| else |head|
  {
    var cs, last := Chunks(pieces), Chunk(HexNumber(0, false), [], []);
    WrittenIsEncoded(pieces);
    TrailersAreEncoded(trailers);
    forall c <- cs ensures SizeLineOk(c) && c.data != [] {
      var i: nat :| i < |cs| && cs[i] == c;
      PieceOk(pieces[i]);
    }
    PieceOk(Piece([], [], false));
    assert AsChunk(Piece([], [], false)) == last;
    assert SizeLine(last) == [48, 13, 10];
    DecodeInvertsEncode(trailer, cs, last, trailers, rest);
    assert EncodeBody(cs, last, trailers)
        == Written(pieces) + [48, 13, 10] + (WrittenTrailers(trailers) + [13, 10]);
  }

  /** Ten digits in one chunk: 'a', CR LF, the data, CR LF, '0', CR LF, CR LF. The two bytes of the blank line are
      left. */
  lemma TenBytesExample()
    ensures var ten: seq<Byte> := [48, 49, 50, 51, 52, 53, 54, 55, 56, 57];
            var body: seq<Byte> := [97, 13, 10] + ten + [13, 10] + [48, 13, 10] + [13, 10];
            var r := Decode(Decoder(Size, 0, 0, false), body);
            r.Complete? && r.out == ten && |body| - r.consumed == 2
  {
    var ten: seq<Byte> := [48, 49, 50, 51, 52, 53, 54, 55, 56, 57];
    var pieces := [Piece(ten, [], false)];
    assert pieces[..0] == [] && HexNumber(10, false) == [97];
    assert Written(pieces) == [97, 13, 10] + ten + [13, 10];
    assert Contents(pieces) == ten;
    DecodesWhatWasWritten(false, pieces, [], []);
    assert WrittenTrailers([]) == [];
    assert [97, 13, 10] + ten + [13, 10] + [48, 13, 10] + [13, 10]
        == Written(pieces) + [48, 13, 10] + (WrittenTrailers([]) + [13, 10]) + [];
  }
}
