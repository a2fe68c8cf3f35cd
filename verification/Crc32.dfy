/** CRC-32 (src/shared/crc32.c): the table-driven forms against the bit-by-bit definition of section 8 of
    RFC 1952. A machine word is the sequence of its 32 bits, least significant bit first. */
module Crc32 {
  import opened Blocks

  datatype BitString = BitString(bits: seq<bool>)

  type Word = w: BitString | |w.bits| == 32 witness BitString(seq(32, _ => false))

  lemma SameWord(a: Word, b: Word)
    requires forall i: nat | i < 32 :: a.bits[i] == b.bits[i]
    ensures a == b
  {
    assert a.bits == b.bits;
  }

  /** The four bits of a hexadecimal digit. */
  function Hex(d: nat): (s: seq<bool>)
    ensures |s| == 4
  {
    [d % 2 == 1, d / 2 % 2 == 1, d / 4 % 2 == 1, d / 8 % 2 == 1]
  }

  function Zeros(n: nat): (s: seq<bool>)
    ensures |s| == n && forall i: nat | i < n :: !s[i]
  {
    seq(n, _ => false)
  }

  function Zero(): Word { BitString(Zeros(32)) }

  /** A byte as a word, as integer promotion makes it. */
  function ByteWord(b: bv8): (w: Word)
    ensures forall i: nat | i < 32 :: w.bits[i] == (i < 8 && Bit(b, i))
  {
    BitString(seq(32, i requires 0 <= i < 32 => i < 8 && Bit(b, i)))
  }

  /** `^` */
  function Xor(a: Word, b: Word): (w: Word)
    ensures forall i: nat | i < 32 :: w.bits[i] == (a.bits[i] != b.bits[i])
  {
    BitString(seq(32, i requires 0 <= i < 32 => a.bits[i] != b.bits[i]))
  }

  /** `~` */
  function Not(a: Word): (w: Word)
    ensures forall i: nat | i < 32 :: w.bits[i] == !a.bits[i]
  {
    BitString(seq(32, i requires 0 <= i < 32 => !a.bits[i]))
  }

  /** `>>` */
  function Shr(a: Word, k: nat): (w: Word)
    requires k <= 32
    ensures forall i: nat | i < 32 :: w.bits[i] == (i + k < 32 && a.bits[i + k])
  {
    BitString(a.bits[k..] + Zeros(k))
  }

  /** `<<` */
  function Shl(a: Word, k: nat): (w: Word)
    requires k <= 32
    ensures forall i: nat | i < 32 :: w.bits[i] == (i >= k && a.bits[i - k])
  {
    BitString(Zeros(k) + a.bits[..32 - k])
  }

  /** `& 0xff` */
  function Low8(a: Word): (w: Word)
    ensures forall i: nat | i < 32 :: w.bits[i] == (i < 8 && a.bits[i])
  {
    BitString(a.bits[..8] + Zeros(24))
  }

  /** net_order_32 on a big-endian machine */
  function Swap(a: Word): (w: Word)
    ensures forall i: nat | i < 32 :: w.bits[i] == a.bits[8 * (3 - i / 8) + i % 8]
  {
    BitString(a.bits[24..] + a.bits[16..24] + a.bits[8..16] + a.bits[..8])
  }

  /** 0xedb88320 */
  const POLYNOMIAL: Word :=
    BitString(Hex(0x0) + Hex(0x2) + Hex(0x3) + Hex(0x8) + Hex(0x8) + Hex(0xb) + Hex(0xd) + Hex(0xe))

  /** One step of the reflected CRC register. */
  function BitStep(c: Word): Word { if c.bits[0] then Xor(POLYNOMIAL, Shr(c, 1)) else Shr(c, 1) }

  function Steps(c: Word, n: nat): Word { if n == 0 then c else BitStep(Steps(c, n - 1)) }

  /** The register after one data byte: exclusive-or it in, then eight single-bit steps. */
  function ByteStep(c: Word, b: bv8): Word { Steps(Xor(c, ByteWord(b)), 8) }

  function Register(c: Word, data: seq<bv8>): Word
  {
    if data == [] then c else ByteStep(Register(c, data[..|data| - 1]), data[|data| - 1])
  }

  /** The CRC-32 of `data` continuing from a previous value. */
  function Crc(crc: Word, data: seq<bv8>): Word { Not(Register(Not(crc), data)) }

  /** Entry n of table k, k < 4, as the table generator defines it: one more zero byte than table k - 1. */
  function Table(k: nat, n: Word): Word
  {
    if k == 0 then Steps(n, 8) else var c := Table(k - 1, n); Xor(Steps(Low8(c), 8), Shr(c, 8))
  }

  /** Tables 4 to 7 hold the byte-swapped entries of tables 0 to 3. */
  function SwappedTable(k: nat, n: Word): Word
    requires k >= 4
  {
    Swap(Table(k - 4, n))
  }

  lemma BitStepXor(a: Word, b: Word)
    ensures BitStep(Xor(a, b)) == Xor(BitStep(a), BitStep(b))
  {
    SameWord(BitStep(Xor(a, b)), Xor(BitStep(a), BitStep(b)));
  }

  lemma {:induction false} StepsXor(a: Word, b: Word, n: nat)
    ensures Steps(Xor(a, b), n) == Xor(Steps(a, n), Steps(b, n))
  {
    if n > 0 {
      StepsXor(a, b, n - 1);
      BitStepXor(Steps(a, n - 1), Steps(b, n - 1));
    }
  }

  lemma {:induction false} StepsAdd(c: Word, m: nat, n: nat)
    ensures Steps(Steps(c, m), n) == Steps(c, m + n)
  {
    if n > 0 { StepsAdd(c, m, n - 1); }
  }

  lemma ShrTwice(c: Word, j: nat, k: nat)
    requires j + k <= 32
    ensures Shr(Shr(c, j), k) == Shr(c, j + k)
  {
    SameWord(Shr(Shr(c, j), k), Shr(c, j + k));
  }

  lemma NoShift(c: Word)
    ensures Shr(c, 0) == c && Xor(c, Shr(c, 32)) == c
  {
    SameWord(Shr(c, 0), c);
    SameWord(Xor(c, Shr(c, 32)), c);
  }

  /** Steps that find only zero bits at the bottom just shift. */
  lemma {:induction false} ZeroSteps(c: Word, n: nat)
    requires n <= 32 && forall i: nat | i < n :: !c.bits[i]
    ensures Steps(c, n) == Shr(c, n)
  {
    if n == 0 {
      NoShift(c);
    } else {
      ZeroSteps(c, n - 1);
      assert !Shr(c, n - 1).bits[0];
      ShrTwice(c, n - 1, 1);
    }
  }

  /** The bits above the low byte. */
  function High(w: Word): (h: Word)
    ensures forall i: nat | i < 32 :: h.bits[i] == (i >= 8 && w.bits[i])
  {
    BitString(Zeros(8) + w.bits[8..])
  }

  lemma HighSteps(w: Word)
    ensures Steps(High(w), 8) == Shr(w, 8)
  {
    ZeroSteps(High(w), 8);
    SameWord(Shr(High(w), 8), Shr(w, 8));
  }

  /** Eight steps at once: the table entry of the low byte, and the rest shifted. */
  lemma EightSteps(c: Word)
    ensures Steps(c, 8) == Xor(Table(0, Low8(c)), Shr(c, 8))
  {
    SameWord(c, Xor(Low8(c), High(c)));
    StepsXor(Low8(c), High(c), 8);
    HighSteps(c);
  }

  /** The byte-at-a-time update of the source is eight steps of the definition. */
  lemma TableByteStep(c: Word, b: bv8)
    ensures Xor(Table(0, Low8(Xor(c, ByteWord(b)))), Shr(c, 8)) == ByteStep(c, b)
  {
    EightSteps(Xor(c, ByteWord(b)));
    SameWord(Shr(Xor(c, ByteWord(b)), 8), Shr(c, 8));
  }

  /** Table k holds the effect of k + 1 bytes. */
  lemma {:induction false} TableIsSteps(k: nat, n: Word)
    ensures Table(k, n) == Steps(n, 8 * (k + 1))
  {
    if k > 0 {
      TableIsSteps(k - 1, n);
      EightSteps(Table(k - 1, n));
      StepsAdd(n, 8 * k, 8);
    }
  }

  /** The generator gives the source's table: entry 128 of table 0 is the polynomial itself. */
  lemma Entry128()
    ensures Table(0, ByteWord(128)) == POLYNOMIAL
  {
    assert Bit(128, 7) && forall i: nat | i < 7 :: !Bit(128, i);
    var c := ByteWord(128);
    ZeroSteps(c, 7);
    assert Steps(c, 7).bits[0];
    SameWord(BitStep(Steps(c, 7)), POLYNOMIAL);
  }

  // ---------------------------------------------------------------- four bytes at a time

  /** Four bytes as the word a little-endian machine loads. */
  function LoadLittle(b: seq<bv8>): (w: Word)
    requires |b| == 4
    ensures forall i: nat | i < 32 :: w.bits[i] == Bit(b[i / 8], i % 8)
  {
    BitString(seq(32, i requires 0 <= i < 32 => Bit(b[i / 8], i % 8)))
  }

  /** ... and a big-endian one. */
  function LoadBig(b: seq<bv8>): Word
    requires |b| == 4
  {
    LoadLittle([b[3], b[2], b[1], b[0]])
  }

  /** DOLIT4 */
  function SliceLittle(c0: Word, w: Word): Word {
    var c := Xor(c0, w);
    Xor(Xor(Xor(Table(3, Low8(c)), Table(2, Low8(Shr(c, 8)))), Table(1, Low8(Shr(c, 16)))), Table(0, Shr(c, 24)))
  }

  /** DOBIG4 */
  function SliceBig(c0: Word, w: Word): Word {
    var c := Xor(c0, w);
    Xor(Xor(Xor(SwappedTable(4, Low8(c)), SwappedTable(5, Low8(Shr(c, 8)))), SwappedTable(6, Low8(Shr(c, 16)))),
        SwappedTable(7, Shr(c, 24)))
  }

  /** A word with one byte at position `at`, after enough steps to bring it to the bottom. */
  lemma ByteAt(x: Word, at: nat, n: nat)
    requires at <= 24 && forall i: nat | 8 <= i < 32 :: !x.bits[i]
    ensures Steps(Shl(x, at), at + n) == Steps(x, n)
  {
    ZeroSteps(Shl(x, at), at);
    SameWord(Shr(Shl(x, at), at), x);
    StepsAdd(Shl(x, at), at, n);
  }

  lemma SplitWord(c: Word)
    ensures c == Xor(Xor(Xor(Low8(c), Shl(Low8(Shr(c, 8)), 8)), Shl(Low8(Shr(c, 16)), 16)), Shl(Shr(c, 24), 24))
  {
    SameWord(c, Xor(Xor(Xor(Low8(c), Shl(Low8(Shr(c, 8)), 8)), Shl(Low8(Shr(c, 16)), 16)), Shl(Shr(c, 24), 24)));
  }

  lemma StepsXorFour(a: Word, b: Word, c: Word, d: Word, n: nat)
    ensures Steps(Xor(Xor(Xor(a, b), c), d), n) == Xor(Xor(Xor(Steps(a, n), Steps(b, n)), Steps(c, n)), Steps(d, n))
  {
    StepsXor(Xor(Xor(a, b), c), d, n);
    StepsXor(Xor(a, b), c, n);
    StepsXor(a, b, n);
  }

  /** 32 steps of a word: each of its bytes meets its own table. */
  lemma WordSteps(c: Word)
    ensures Steps(c, 32)
         == Xor(Xor(Xor(Table(3, Low8(c)), Table(2, Low8(Shr(c, 8)))), Table(1, Low8(Shr(c, 16)))),
                Table(0, Shr(c, 24)))
  {
    var x0, x1, x2, x3 := Low8(c), Low8(Shr(c, 8)), Low8(Shr(c, 16)), Shr(c, 24);
    TableIsSteps(3, x0); TableIsSteps(2, x1); TableIsSteps(1, x2); TableIsSteps(0, x3);
    ByteAt(x1, 8, 24); ByteAt(x2, 16, 16); ByteAt(x3, 24, 8);
    SplitWord(c);
    StepsXorFour(x0, Shl(x1, 8), Shl(x2, 16), Shl(x3, 24), 32);
  }

  /** Eight steps consume the low byte of a loaded word. */
  lemma Feed(c: Word, w: Word, b: bv8)
    requires forall i: nat | i < 8 :: w.bits[i] == Bit(b, i)
    ensures Steps(Xor(c, w), 8) == Xor(ByteStep(c, b), Shr(w, 8))
  {
    SameWord(Xor(c, w), Xor(Xor(c, ByteWord(b)), High(w)));
    StepsXor(Xor(c, ByteWord(b)), High(w), 8);
    HighSteps(w);
  }

  lemma RegisterStep(c: Word, data: seq<bv8>, i: nat)
    requires i < |data|
    ensures Register(c, data[..i + 1]) == ByteStep(Register(c, data[..i]), data[i])
  {
    assert data[..i + 1][..i] == data[..i];
  }

  lemma LoadedByte(b: seq<bv8>, n: nat)
    requires |b| == 4 && n < 4
    ensures forall i: nat | i < 8 :: Shr(LoadLittle(b), 8 * n).bits[i] == Bit(b[n], i)
  {
  }

  /** Feeding n loaded bytes: 8 * n steps of the register, with what is not yet consumed still shifted in. */
  lemma {:induction false} FeedMany(c: Word, b: seq<bv8>, n: nat)
    requires |b| == 4 && n <= 4
    ensures Steps(Xor(c, LoadLittle(b)), 8 * n) == Xor(Register(c, b[..n]), Shr(LoadLittle(b), 8 * n))
  {
    var w := LoadLittle(b);
    if n == 0 {
      NoShift(w);
    } else {
      var m := n - 1;
      FeedMany(c, b, m);
      LoadedByte(b, m);
      Feed(Register(c, b[..m]), Shr(w, 8 * m), b[m]);
      ShrTwice(w, 8 * m, 8);
      StepsAdd(Xor(c, w), 8 * m, 8);
      RegisterStep(c, b, m);
    }
  }

  lemma {:induction false} RegisterConcat(c: Word, a: seq<bv8>, b: seq<bv8>)
    ensures Register(c, a + b) == Register(Register(c, a), b)
  {
    if b == [] {
      assert a + b == a;
    } else {
      RegisterConcat(c, a, b[..|b| - 1]);
      assert (a + b)[..|a + b| - 1] == a + b[..|b| - 1];
    }
  }

  lemma FourFeeds(c: Word, b: seq<bv8>)
    requires |b| == 4
    ensures Steps(Xor(c, LoadLittle(b)), 32) == Register(c, b)
  {
    FeedMany(c, b, 4);
    assert b[..4] == b;
    SameWord(Xor(Register(c, b), Shr(LoadLittle(b), 32)), Register(c, b));
  }

  /** DOLIT4 is four byte updates. */
  lemma SliceIsFourBytes(c0: Word, data: seq<bv8>, i: nat)
    requires i + 4 <= |data|
    ensures Register(c0, data[..i + 4]) == SliceLittle(Register(c0, data[..i]), LoadLittle(data[i..i + 4]))
  {
    var c, b := Register(c0, data[..i]), data[i..i + 4];
    assert data[..i + 4] == data[..i] + b;
    RegisterConcat(c0, data[..i], b);
    FourFeeds(c, b);
    WordSteps(Xor(c, LoadLittle(b)));
  }

  /** The byte update of the little-endian form. */
  function ByteLittle(c: Word, b: bv8): Word { Xor(Table(0, Low8(Xor(c, ByteWord(b)))), Shr(c, 8)) }

  // ---------------------------------------------------------------- the big-endian form

  lemma SwapXor(a: Word, b: Word)
    ensures Swap(Xor(a, b)) == Xor(Swap(a), Swap(b))
  {
    SameWord(Swap(Xor(a, b)), Xor(Swap(a), Swap(b)));
  }

  lemma NotTwice(a: Word)
    ensures Not(Not(a)) == a
  {
    SameWord(Not(Not(a)), a);
  }

  lemma SwapTwice(a: Word)
    ensures Swap(Swap(a)) == a
  {
    forall i: nat | i < 32 ensures Swap(Swap(a)).bits[i] == a.bits[i] {
      var j := 8 * (3 - i / 8) + i % 8;
      assert Swap(Swap(a)).bits[i] == Swap(a).bits[j];
      assert j / 8 == 3 - i / 8 && j % 8 == i % 8;
    }
    SameWord(Swap(Swap(a)), a);
  }

  lemma SwapNot(a: Word)
    ensures Swap(Not(a)) == Not(Swap(a))
  {
    SameWord(Swap(Not(a)), Not(Swap(a)));
  }

  lemma SwapOuter(c: Word)
    ensures Low8(Swap(c)) == Shr(c, 24) && Shr(Swap(c), 24) == Low8(c)
  {
    SameWord(Low8(Swap(c)), Shr(c, 24));
    SameWord(Shr(Swap(c), 24), Low8(c));
  }

  lemma SwapInner(c: Word)
    ensures Low8(Shr(Swap(c), 8)) == Low8(Shr(c, 16)) && Low8(Shr(Swap(c), 16)) == Low8(Shr(c, 8))
  {
    SameWord(Low8(Shr(Swap(c), 8)), Low8(Shr(c, 16)));
    SameWord(Low8(Shr(Swap(c), 16)), Low8(Shr(c, 8)));
  }

  lemma SwapShift(c: Word)
    ensures Shl(Swap(c), 8) == Swap(Shr(c, 8))
  {
    SameWord(Shl(Swap(c), 8), Swap(Shr(c, 8)));
  }

  lemma SwapBytes(c: Word)
    ensures Low8(Swap(c)) == Shr(c, 24) && Shr(Swap(c), 24) == Low8(c)
    ensures Low8(Shr(Swap(c), 8)) == Low8(Shr(c, 16)) && Low8(Shr(Swap(c), 16)) == Low8(Shr(c, 8))
    ensures Shl(Swap(c), 8) == Swap(Shr(c, 8))
  {
    SwapOuter(c);
    SwapInner(c);
    SwapShift(c);
  }

  lemma ReversedByte(b: seq<bv8>, i: nat)
    requires |b| == 4 && i < 32
    ensures var j := 8 * (3 - i / 8) + i % 8;
            [b[3], b[2], b[1], b[0]][i / 8] == b[j / 8] && i % 8 == j % 8
  {
  }

  lemma SwapLoad(b: seq<bv8>)
    requires |b| == 4
    ensures LoadBig(b) == Swap(LoadLittle(b))
  {
    var r := [b[3], b[2], b[1], b[0]];
    forall i: nat | i < 32 ensures LoadLittle(r).bits[i] == Swap(LoadLittle(b)).bits[i] {
      ReversedByte(b, i);
    }
    SameWord(LoadLittle(r), Swap(LoadLittle(b)));
  }

  /** The byte update of the big-endian form. */
  function ByteBig(c: Word, b: bv8): Word { Xor(SwappedTable(4, Xor(Shr(c, 24), ByteWord(b))), Shl(c, 8)) }

  /** The byte update of the big-endian form keeps the register byte-swapped. */
  lemma BigByteStep(c: Word, b: bv8)
    ensures ByteBig(Swap(c), b) == Swap(ByteStep(c, b))
  {
    SwapBytes(c);
    SameWord(Xor(Low8(c), ByteWord(b)), Low8(Xor(c, ByteWord(b))));
    TableByteStep(c, b);
    SwapXor(Table(0, Low8(Xor(c, ByteWord(b)))), Shr(c, 8));
  }

  lemma XorReverse(a: Word, b: Word, c: Word, d: Word)
    ensures Xor(Xor(Xor(a, b), c), d) == Xor(Xor(Xor(d, c), b), a)
  {
    SameWord(Xor(Xor(Xor(a, b), c), d), Xor(Xor(Xor(d, c), b), a));
  }

  /** DOBIG4 on swapped operands is DOLIT4, swapped. */
  lemma SliceBigIsLittle(c: Word, b: seq<bv8>)
    requires |b| == 4
    ensures SliceBig(Swap(c), LoadBig(b)) == Swap(SliceLittle(c, LoadLittle(b)))
  {
    SwapLoad(b);
    SwapXor(c, LoadLittle(b));
    var x := Xor(c, LoadLittle(b));
    SwapBytes(x);
    var t3, t2, t1, t0 := Table(3, Low8(x)), Table(2, Low8(Shr(x, 8))), Table(1, Low8(Shr(x, 16))),
      Table(0, Shr(x, 24));
    SwapXor(Xor(Xor(t3, t2), t1), t0); SwapXor(Xor(t3, t2), t1); SwapXor(t3, t2);
    XorReverse(Swap(t0), Swap(t1), Swap(t2), Swap(t3));
  }

  // ---------------------------------------------------------------- the two functions

  /** How the register is kept in the variable `c`: as it is, or byte-swapped on a big-endian machine. */
  function Held(big: bool, c: Word): Word { if big then Swap(c) else c }

  /** `c` after the first n bytes of the buffer. */
  function After(big: bool, c0: Word, buf: seq<bv8>, n: nat): Word
    requires n <= |buf|
  {
    Held(big, Register(c0, buf[..n]))
  }

  function ByteUpdate(big: bool, c: Word, b: bv8): Word { if big then ByteBig(c, b) else ByteLittle(c, b) }

  function WordUpdate(big: bool, c: Word, b: seq<bv8>): Word
    requires |b| == 4
  {
    if big then SliceBig(c, LoadBig(b)) else SliceLittle(c, LoadLittle(b))
  }

  lemma ByteAdvances(big: bool, c0: Word, buf: seq<bv8>, i: nat)
    requires i < |buf|
    ensures After(big, c0, buf, i + 1) == ByteUpdate(big, After(big, c0, buf, i), buf[i])
  {
    var c := Register(c0, buf[..i]);
    RegisterStep(c0, buf, i);
    if big { BigByteStep(c, buf[i]); } else { TableByteStep(c, buf[i]); }
  }

  lemma WordAdvances(big: bool, c0: Word, buf: seq<bv8>, i: nat)
    requires i + 4 <= |buf|
    ensures After(big, c0, buf, i + 4) == WordUpdate(big, After(big, c0, buf, i), buf[i..i + 4])
  {
    SliceIsFourBytes(c0, buf, i);
    if big { SliceBigIsLittle(Register(c0, buf[..i]), buf[i..i + 4]); }
  }

  /** One table lookup: DO_CRC and its big-endian twin. */
  method DoByte(big: bool, c: Word, buf: seq<bv8>, i: nat, ghost c0: Word) returns (r: Word)
    requires i < |buf| && c == After(big, c0, buf, i)
    ensures r == After(big, c0, buf, i + 1)
  {
    ByteAdvances(big, c0, buf, i);
    r := ByteUpdate(big, c, buf[i]);
  }

  /** DOLIT4 and DOBIG4 */
  method DoWord(big: bool, c: Word, buf: seq<bv8>, i: nat, ghost c0: Word) returns (r: Word)
    requires i + 4 <= |buf| && c == After(big, c0, buf, i)
    ensures r == After(big, c0, buf, i + 4)
  {
    WordAdvances(big, c0, buf, i);
    r := WordUpdate(big, c, buf[i..i + 4]);
  }

  /** DOLIT32 and DOBIG32 */
  method DoEightWords(big: bool, c: Word, buf: seq<bv8>, i: nat, ghost c0: Word) returns (r: Word)
    requires i + 32 <= |buf| && c == After(big, c0, buf, i)
    ensures r == After(big, c0, buf, i + 32)
  {
    r := c;
    for k := 0 to 8
      invariant r == After(big, c0, buf, i + 4 * k)
    {
      r := DoWord(big, r, buf, i + 4 * k, c0);
    }
  }

  lemma Finished(big: bool, crc: Word, buf: seq<bv8>)
    ensures Held(big, Not(After(big, Not(crc), buf, |buf|))) == Crc(crc, buf)
    ensures After(big, Not(crc), buf, 0) == Not(Held(big, crc))
  {
    assert buf[..|buf|] == buf && buf[..0] == [];
    SwapNot(crc);
    SwapNot(Register(Not(crc), buf));
    SwapTwice(Not(Register(Not(crc), buf)));
  }

  /** Byte by byte up to an aligned address. */
  method AlignBytes(big: bool, ghost c0: Word, buf: seq<bv8>, address: nat, c: Word) returns (r: Word, i: nat)
    requires c == After(big, c0, buf, 0)
    ensures i <= |buf| && r == After(big, c0, buf, i)
  {
    r, i := c, 0;
    while i < |buf| && (address + i) % 4 != 0
      invariant i <= |buf| && r == After(big, c0, buf, i)
    {
      r := DoByte(big, r, buf, i, c0);
      i := i + 1;
    }
  }

  /** As long as 32 bytes, then 4 bytes are left. */
  method DoWords(big: bool, ghost c0: Word, buf: seq<bv8>, c: Word, start: nat) returns (r: Word, i: nat)
    requires start <= |buf| && c == After(big, c0, buf, start)
    ensures start <= i <= |buf| && r == After(big, c0, buf, i)
  {
    r, i := c, start;
    while |buf| - i >= 32
      invariant start <= i <= |buf| && r == After(big, c0, buf, i)
    {
      r := DoEightWords(big, r, buf, i, c0);
      i := i + 32;
    }
    while |buf| - i >= 4
      invariant start <= i <= |buf| && r == After(big, c0, buf, i)
    {
      r := DoWord(big, r, buf, i, c0);
      i := i + 4;
    }
  }

  /** The bytes that are left. */
  method DoRest(big: bool, ghost c0: Word, buf: seq<bv8>, c: Word, start: nat) returns (r: Word)
    requires start <= |buf| && c == After(big, c0, buf, start)
    ensures r == After(big, c0, buf, |buf|)
  {
    r := c;
    for i := start to |buf|
      invariant r == After(big, c0, buf, i)
    {
      r := DoByte(big, r, buf, i, c0);
    }
  }

  /** crc32 of a buffer that lies at `address`, on a little-endian or a big-endian machine. */
  method Checksum(big: bool, crc: Word, isNull: bool, buf: seq<bv8>, address: nat) returns (r: Word)
    ensures r == if isNull then Zero() else Crc(crc, buf)
  {
    if isNull { return Zero(); }
    ghost var c0 := Not(crc);
    Finished(big, crc, buf);
    var c, i := AlignBytes(big, c0, buf, address, Not(Held(big, crc)));
    c, i := DoWords(big, c0, buf, c, i);
    c := DoRest(big, c0, buf, c, i);
    return Held(big, Not(c));
  }

  // ---------------------------------------------------------------- checksums in pieces

  /** The checksum of a concatenation is the chained checksum. */
  lemma CrcConcat(crc: Word, a: seq<bv8>, b: seq<bv8>)
    ensures Crc(crc, a + b) == Crc(Crc(crc, a), b)
  {
    RegisterConcat(Not(crc), a, b);
    NotTwice(Register(Not(crc), a));
  }

  function Chained(crc: Word, chunks: seq<seq<bv8>>): Word
  {
    if chunks == [] then crc else Crc(Chained(crc, chunks[..|chunks| - 1]), chunks[|chunks| - 1])
  }

  function Flatten(chunks: seq<seq<bv8>>): seq<bv8>
  {
    if chunks == [] then [] else Flatten(chunks[..|chunks| - 1]) + chunks[|chunks| - 1]
  }

  /** ... over any chunking. */
  lemma {:induction false} ChunkingIsIrrelevant(crc: Word, chunks: seq<seq<bv8>>)
    ensures Chained(crc, chunks) == Crc(crc, Flatten(chunks))
  {
    if chunks == [] {
      NotTwice(crc);
    } else {
      var front := chunks[..|chunks| - 1];
      ChunkingIsIrrelevant(crc, front);
      CrcConcat(crc, Flatten(front), chunks[|chunks| - 1]);
    }
  }
}
