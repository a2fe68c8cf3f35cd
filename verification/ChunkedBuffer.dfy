/** phr_decode_chunked: the decoder of ChunkedDecoder working in place on a buffer. */
module ChunkedBuffer {
  import opened ChunkedDecoder

  /** How a case of the switch ends: go on, input used up, byte refused, body complete. */
  datatype Exit = Proceed | Incomplete | Bad | End

  /** The input from `src` on is still in the buffer. */
  ghost predicate Unread(buf: array<Byte>, s: seq<Byte>, src: nat)
    requires |s| <= buf.Length
    reads buf
  {
    forall i: nat | src <= i < |s| :: buf[i] == s[i]
  }

  /** The first `src` bytes of s, decoded from state d, gave state e and the payload `out`. */
  ghost predicate Reached(d: Decoder, s: seq<Byte>, out: seq<Byte>, e: Decoder, src: nat) {
    src <= |s| && Decode(d, s[..src]) == More(e, out)
  }

  /** In front of the extensions: the byte after the size was looked at, but not consumed. */
  ghost predicate ReachedExt(d: Decoder, s: seq<Byte>, out: seq<Byte>, e: Decoder, src: nat) {
    && src <= |s| && e.phase.Ext?
    && exists f: Decoder ::
         Reached(d, s, out, f, src) && (f == e || (src < |s| && Step(f, s[src]) == StepExt(e, s[src])))
  }

  /** How the cases of the switch leave the decoder. */
  ghost predicate Left(d: Decoder, s: seq<Byte>, out: seq<Byte>, e: Decoder, src: nat, exit: Exit) {
    match exit
    case Proceed => Reached(d, s, out, e, src)
    case Incomplete => Reached(d, s, out, e, src) && src == |s|
    case Bad => src < |s| && Decode(d, s) == Error(e, out, src)
    case End => src <= |s| && Decode(d, s) == Complete(e, out, src)
  }

  /** The effect of the next byte, on the whole input if it ends the decoding. */
  lemma Advance(d: Decoder, s: seq<Byte>, out: seq<Byte>, e: Decoder, src: nat)
    requires Reached(d, s, out, e, src) && src < |s|
    ensures match Step(e, s[src])
            case Go(f, o) => Reached(d, s, out + o, f, src + 1)
            case Done(f) => Left(d, s, out, f, src + 1, End)
            case Fail(f) => Left(d, s, out, f, src, Bad)
  {
    assert s[..src + 1] == s[..src] + [s[src]];
    DecodeOneMore(d, s[..src], s[src]);
    SplitInvariance(d, s[..src + 1], s[src + 1..]);
    assert s[..src + 1] + s[src + 1..] == s;
  }

  lemma Quiet(d: Decoder, s: seq<Byte>, out: seq<Byte>, e: Decoder, src: nat, f: Decoder)
    requires Reached(d, s, out, e, src) && src < |s| && Step(e, s[src]) == Go(f, [])
    ensures Reached(d, s, out, f, src + 1)
  {
    Advance(d, s, out, e, src);
    assert out + [] == out;
  }

  lemma {:induction false} ExtSkipped(d: Decoder, s: seq<Byte>, out: seq<Byte>, e: Decoder, a: nat, b: nat)
    requires ReachedExt(d, s, out, e, a) && a <= b <= |s| && forall i: nat | a <= i < b :: s[i] != LF
    ensures ReachedExt(d, s, out, e, b)
  {
    if a < b {
      ExtSkipped(d, s, out, e, a, b - 1);
      var f: Decoder :| Reached(d, s, out, f, b - 1) && (f == e || Step(f, s[b - 1]) == StepExt(e, s[b - 1]));
      Quiet(d, s, out, f, b - 1, e);
    }
  }

  lemma ExtEnd(d: Decoder, s: seq<Byte>, out: seq<Byte>, e: Decoder, b: nat)
    requires ReachedExt(d, s, out, e, b)
    ensures b == |s| ==> Left(d, s, out, e, b, Incomplete)
    ensures b < |s| && s[b] == LF ==>
              if e.left == 0 && !e.trailer then Left(d, s, out, e, b + 1, End)
              else Reached(d, s, out, e.(phase := if e.left == 0 then LineHead else Data), b + 1)
  {
    var f: Decoder :| Reached(d, s, out, f, b) && (f == e || (b < |s| && Step(f, s[b]) == StepExt(e, s[b])));
    if b < |s| && s[b] == LF {
      Advance(d, s, out, f, b);
      assert out + [] == out;
    }
  }

  /** Bytes that change nothing: carriage returns in front of a line end, or the rest of a trailer line. */
  lemma {:induction false} Skipped(d: Decoder, s: seq<Byte>, out: seq<Byte>, e: Decoder, a: nat, b: nat)
    requires Reached(d, s, out, e, a) && a <= b <= |s|
    requires e.phase.Crlf? || e.phase.LineHead? || e.phase.LineMiddle?
    requires forall i: nat | a <= i < b :: if e.phase.LineMiddle? then s[i] != LF else s[i] == CR
    ensures Reached(d, s, out, e, b)
  {
    if a < b {
      Skipped(d, s, out, e, a, b - 1);
      Quiet(d, s, out, e, b - 1, e);
    }
  }

  /** Bytes of the current chunk are payload: the rest of the input, if it does not fill the chunk. */
  lemma DataPart(d: Decoder, s: seq<Byte>, out: seq<Byte>, e: Decoder, src: nat)
    requires Reached(d, s, out, e, src) && e.phase.Data? && |s| - src < e.left
    ensures Left(d, s, out + s[src..|s|], e.(left := e.left - (|s| - src)), |s|, Incomplete)
  {
    assert s[..|s|] == s[..src] + s[src..|s|];
    SplitInvariance(d, s[..src], s[src..|s|]);
    DataDecode(e, s[src..|s|]);
  }

  /** ... else the rest of the chunk. */
  lemma DataWhole(d: Decoder, s: seq<Byte>, out: seq<Byte>, e: Decoder, src: nat)
    requires Reached(d, s, out, e, src) && e.phase.Data? && 0 < e.left <= |s| - src
    ensures Left(d, s, out + s[src..src + e.left], e.(phase := Crlf, left := 0), src + e.left, Proceed)
  {
    assert s[..src + e.left] == s[..src] + s[src..src + e.left];
    SplitInvariance(d, s[..src], s[src..src + e.left]);
    DataDecode(e, s[src..src + e.left]);
  }

  /** memmove(buf + dst, buf + src, n) */
  method MemMove(buf: array<Byte>, dst: nat, src: nat, n: nat)
    requires dst <= src && src + n <= buf.Length
    modifies buf
    ensures buf[..dst] == old(buf[..dst]) && buf[dst..dst + n] == old(buf[src..src + n])
    ensures forall i: nat | dst + n <= i < buf.Length :: buf[i] == old(buf[i])
  {
    forall i | 0 <= i < n { buf[dst + i] := buf[src + i]; }
  }

  /** Moves the next n bytes of the input behind the payload. */
  method Take(buf: array<Byte>, dst: nat, src: nat, n: nat, ghost s: seq<Byte>)
    requires dst <= src && src + n <= |s| <= buf.Length && Unread(buf, s, src)
    modifies buf
    ensures buf[..dst + n] == old(buf[..dst]) + s[src..src + n]
    ensures Unread(buf, s, src + n) && buf[|s|..] == old(buf[|s|..])
  {
    ghost var was := buf[..];
    assert was[src..src + n] == s[src..src + n];
    if dst != src { MemMove(buf, dst, src, n); }
    assert buf[..dst + n] == buf[..dst] + buf[dst..dst + n];
  }

  /** The loop over carriage returns. */
  method SkipCr(buf: array<Byte>, ghost s: seq<Byte>, src0: nat, bufsz: nat) returns (src: nat)
    requires src0 <= bufsz == |s| <= buf.Length && Unread(buf, s, src0)
    ensures src0 <= src <= bufsz && (src < bufsz ==> buf[src] != CR) && forall i: nat | src0 <= i < src :: s[i] == CR
  {
    src := src0;
    while src < bufsz && buf[src] == CR
      invariant src0 <= src <= bufsz && forall i: nat | src0 <= i < src :: s[i] == CR
    {
      src := src + 1;
    }
  }

  class Parser {
    var state: Phase
    var bytesLeftInChunk: nat
    var hexCount: nat
    var consumeTrailer: bool

    constructor (consumeTrailer: bool)
      ensures Value() == Start(consumeTrailer)
    {
      state, bytesLeftInChunk, hexCount := Size, 0, 0;
      this.consumeTrailer := consumeTrailer;
    }

    function Value(): Decoder
      reads this
    {
      Decoder(state, bytesLeftInChunk, hexCount, consumeTrailer)
    }

    /** CHUNKED_IN_CHUNK_SIZE */
    method ChunkSize(buf: array<Byte>, ghost d: Decoder, ghost s: seq<Byte>, ghost out: seq<Byte>, src0: nat,
                     bufsz: nat)
      returns (src: nat, exit: Exit)
      requires Reached(d, s, out, Value(), src0) && state.Size? && bufsz == |s| <= buf.Length && Unread(buf, s, src0)
      modifies this
      ensures if exit.Proceed? then ReachedExt(d, s, out, Value(), src) else Left(d, s, out, Value(), src, exit)
      ensures src0 <= src
    {
      src := src0;
      while true
        invariant Reached(d, s, out, Value(), src) && src0 <= src <= bufsz && state.Size?
        decreases bufsz - src
      {
        if src == bufsz { return src, Incomplete; }
        Advance(d, s, out, Value(), src);
        var v := DecodeHex(buf[src]);
        if v == -1 {
          if hexCount == 0 { return src, Bad; }
          break;
        }
        if hexCount == MAX_DIGITS { return src, Bad; }
        ghost var e := Value();
        bytesLeftInChunk := bytesLeftInChunk * 16 + v;
        hexCount := hexCount + 1;
        Quiet(d, s, out, e, src, Value());
        src := src + 1;
      }
      hexCount := 0;
      state := Ext;
      exit := Proceed;
    }

    /** CHUNKED_IN_CHUNK_EXT */
    method ChunkExt(buf: array<Byte>, ghost d: Decoder, ghost s: seq<Byte>, ghost out: seq<Byte>, src0: nat, bufsz: nat)
      returns (src: nat, exit: Exit)
      requires ReachedExt(d, s, out, Value(), src0) && bufsz == |s| <= buf.Length && Unread(buf, s, src0)
      modifies this
      ensures Left(d, s, out, Value(), src, exit)
      ensures src0 <= src && (exit.Proceed? ==> src0 < src)
    {
      src := src0;
      while src < bufsz && buf[src] != LF
        invariant src0 <= src <= bufsz && forall i: nat | src0 <= i < src :: s[i] != LF
      {
        src := src + 1;
      }
      ExtSkipped(d, s, out, Value(), src0, src);
      ExtEnd(d, s, out, Value(), src);
      if src == bufsz { return src, Incomplete; }
      src := src + 1;
      if bytesLeftInChunk == 0 {
        if consumeTrailer {
          state := LineHead;
          return src, Proceed;
        } else {
          return src, End;
        }
      }
      state := Data;
      exit := Proceed;
    }

    /** n bytes less are left of the chunk; it ends with them, or the input does. */
    method TakeOff(ghost d: Decoder, ghost s: seq<Byte>, ghost out: seq<Byte>, ghost src: nat, n: nat)
      returns (exit: Exit)
      requires Reached(d, s, out, Value(), src) && state.Data? && 0 < bytesLeftInChunk
      requires n == if |s| - src < bytesLeftInChunk then |s| - src else bytesLeftInChunk
      modifies this
      ensures Left(d, s, out + s[src..src + n], Value(), src + n, exit) && (exit.Proceed? ==> n > 0)
    {
      if n < bytesLeftInChunk {
        DataPart(d, s, out, Value(), src);
        bytesLeftInChunk := bytesLeftInChunk - n;
        return Incomplete;
      }
      DataWhole(d, s, out, Value(), src);
      bytesLeftInChunk := 0;
      state := Crlf;
      exit := Proceed;
    }

    /** CHUNKED_IN_CHUNK_DATA */
    method ChunkData(buf: array<Byte>, ghost d: Decoder, ghost s: seq<Byte>, ghost out: seq<Byte>, dst0: nat, src0: nat,
                     bufsz: nat)
      returns (dst: nat, src: nat, exit: Exit)
      requires dst0 <= src0 && Reached(d, s, out, Value(), src0) && state.Data? && bytesLeftInChunk > 0
      requires bufsz == |s| <= buf.Length && Unread(buf, s, src0) && buf[..dst0] == out
      modifies this, buf
      ensures src0 <= src <= bufsz && dst - dst0 == src - src0
      ensures buf[..dst] == out + s[src0..src] && Left(d, s, out + s[src0..src], Value(), src, exit)
      ensures Unread(buf, s, src) && buf[bufsz..] == old(buf[bufsz..])
      ensures exit.Proceed? ==> src0 < src
    {
      var avail := bufsz - src0;
      var n := if avail < bytesLeftInChunk then avail else bytesLeftInChunk;
      Take(buf, dst0, src0, n, s);
      src, dst := src0 + n, dst0 + n;
      exit := TakeOff(d, s, out, src0, n);
    }

    /** CHUNKED_IN_CHUNK_CRLF */
    method ChunkCrlf(buf: array<Byte>, ghost d: Decoder, ghost s: seq<Byte>, ghost out: seq<Byte>, src0: nat,
                     bufsz: nat)
      returns (src: nat, exit: Exit)
      requires Reached(d, s, out, Value(), src0) && state.Crlf? && bufsz == |s| <= buf.Length && Unread(buf, s, src0)
      modifies this
      ensures Left(d, s, out, Value(), src, exit)
      ensures src0 <= src && (exit.Proceed? ==> src0 < src)
    {
      src := SkipCr(buf, s, src0, bufsz);
      ghost var e := Value();
      Skipped(d, s, out, e, src0, src);
      if src == bufsz { return src, Incomplete; }
      Advance(d, s, out, e, src);
      if buf[src] != LF { return src, Bad; }
      Quiet(d, s, out, e, src, e.(phase := Size));
      src := src + 1;
      state := Size;
      exit := Proceed;
    }

    /** CHUNKED_IN_TRAILERS_LINE_HEAD */
    method TrailersLineHead(buf: array<Byte>, ghost d: Decoder, ghost s: seq<Byte>, ghost out: seq<Byte>, src0: nat,
                            bufsz: nat)
      returns (src: nat, exit: Exit)
      requires Reached(d, s, out, Value(), src0) && state.LineHead? && bufsz == |s| <= buf.Length
      requires Unread(buf, s, src0)
      modifies this
      ensures Left(d, s, out, Value(), src, exit)
      ensures src0 <= src && (exit.Proceed? ==> src0 < src)
    {
      src := SkipCr(buf, s, src0, bufsz);
      ghost var e := Value();
      Skipped(d, s, out, e, src0, src);
      if src == bufsz { return src, Incomplete; }
      Advance(d, s, out, e, src);
      src := src + 1;
      if buf[src - 1] == LF { return src, End; }
      Quiet(d, s, out, e, src - 1, e.(phase := LineMiddle));
      state := LineMiddle;
      exit := Proceed;
    }

    /** CHUNKED_IN_TRAILERS_LINE_MIDDLE */
    method TrailersLineMiddle(buf: array<Byte>, ghost d: Decoder, ghost s: seq<Byte>, ghost out: seq<Byte>, src0: nat,
                              bufsz: nat)
      returns (src: nat, exit: Exit)
      requires Reached(d, s, out, Value(), src0) && state.LineMiddle? && bufsz == |s| <= buf.Length
      requires Unread(buf, s, src0)
      modifies this
      ensures Left(d, s, out, Value(), src, exit)
      ensures src0 <= src && (exit.Proceed? ==> src0 < src)
    {
      src := src0;
      while src < bufsz && buf[src] != LF
        invariant src0 <= src <= bufsz && forall i: nat | src0 <= i < src :: s[i] != LF
      {
        src := src + 1;
      }
      ghost var e := Value();
      Skipped(d, s, out, e, src0, src);
      if src == bufsz { return src, Incomplete; }
      Quiet(d, s, out, e, src, e.(phase := LineHead));
      src := src + 1;
      state := LineHead;
      exit := Proceed;
    }

    /** The switch: one case after another until the input is used up, refused or complete. */
    method Run(buf: array<Byte>, ghost s: seq<Byte>, bufsz: nat) returns (dst: nat, src: nat, exit: Exit)
      requires bufsz <= buf.Length && s == buf[..bufsz] && Valid(Value())
      modifies this, buf
      ensures dst <= src <= bufsz && Left(old(Value()), s, buf[..dst], Value(), src, exit) && !exit.Proceed?
      ensures Unread(buf, s, src) && buf[bufsz..] == old(buf[bufsz..])
    {
      dst, src, exit := 0, 0, Proceed;
      ghost var d := Value();
      assert s[..0] == [] && buf[..0] == [];
      while exit.Proceed?
        invariant 0 <= dst <= src <= bufsz && Left(d, s, buf[..dst], Value(), src, exit)
        invariant Unread(buf, s, src) && buf[bufsz..] == old(buf[bufsz..])
        decreases exit.Proceed?, bufsz - src
      {
        DecodeValid(d, s[..src]);
        ghost var out := buf[..dst];
        match state {
          case Size =>
            src, exit := ChunkSize(buf, d, s, out, src, bufsz);
            if exit.Proceed? { src, exit := ChunkExt(buf, d, s, out, src, bufsz); }
          case Ext => src, exit := ChunkExt(buf, d, s, out, src, bufsz);
          case Data => dst, src, exit := ChunkData(buf, d, s, out, dst, src, bufsz);
          case Crlf => src, exit := ChunkCrlf(buf, d, s, out, src, bufsz);
          case LineHead => src, exit := TrailersLineHead(buf, d, s, out, src, bufsz);
          case LineMiddle => src, exit := TrailersLineMiddle(buf, d, s, out, src, bufsz);
        }
      }
    }

    /** phr_decode_chunked: `size` is the new *bufsz. */
    method DecodeChunked(buf: array<Byte>, bufsz: nat) returns (ret: int, size: nat)
      requires bufsz <= buf.Length && Valid(Value())
      modifies this, buf
      ensures Valid(Value())
      ensures var s := old(buf[..bufsz]);
              var r := Decode(old(Value()), s);
              Value() == r.d && size == |r.out| && size <= Consumed(r, s) <= bufsz && buf[..size] == r.out
              && ret == (match r case More(_, _) => -2 case Error(_, _, _) => -1 case Complete(_, _, n) => bufsz - n)
              && buf[size..size + (bufsz - Consumed(r, s))] == s[Consumed(r, s)..]
              && buf[bufsz..] == old(buf[bufsz..])
    {
      ghost var d, s := Value(), buf[..bufsz];
      var dst, src, exit := Run(buf, s, bufsz);
      assert exit.Incomplete? ==> s[..src] == s;
      DecodeValid(d, s);
      ret := if exit.Incomplete? then -2 else if exit.Bad? then -1 else bufsz - src;
      ghost var was := buf[..];
      assert was[src..bufsz] == s[src..];
      if dst != src { MemMove(buf, dst, src, bufsz - src); }
      assert forall i: nat | bufsz <= i < buf.Length :: buf[i] == was[i];
      size := dst;
    }
  }
}
