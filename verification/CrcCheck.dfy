/** The check value of CRC-32, computed on bytes: an independent measure for Crc32. */
module CrcCheck {
  import opened Blocks
  import opened Crc32

  /** A 32-bit number as its four bytes, least significant first. */
  type Number = n: seq<bv8> | |n| == 4 witness [0, 0, 0, 0]

  lemma SameFour<T>(s: seq<T>, t: seq<T>)
    requires |s| == |t| == 4 && s[0] == t[0] && s[1] == t[1] && s[2] == t[2] && s[3] == t[3]
    ensures s == t
  {
  }

  function XorNumber(m: Number, n: Number): Number {
    [m[0] ^ n[0], m[1] ^ n[1], m[2] ^ n[2], m[3] ^ n[3]]
  }

  /** The byte above byte j. */
  function Above(n: Number, j: nat): bv8
    requires j < 4
  {
    if j < 3 then n[j + 1] else 0
  }

  /** `>> 1` on byte a, with the lowest bit of the byte above coming in. */
  function HalfOf(a: bv8, above: bv8): bv8 { (a >> 1) | (above << 7) }

  /** `>> 1` */
  function Half(n: Number): Number {
    [HalfOf(n[0], n[1]), HalfOf(n[1], n[2]), HalfOf(n[2], n[3]), HalfOf(n[3], 0)]
  }

  /** One step of the register. The polynomial is 0xedb88320. */
  function NumberStep(n: Number): Number {
    if n[0] & 1 != 0 then XorNumber(Half(n), [0x20, 0x83, 0xb8, 0xed]) else Half(n)
  }

  lemma XorBit(a: bv8, b: bv8, x: nat)
    requires x < 8
    ensures Bit(a ^ b, x) ==> Bit(a, x) || Bit(b, x)
    ensures Bit(a ^ b, x) && Bit(a, x) ==> !Bit(b, x)
    ensures !Bit(a ^ b, x) && Bit(a, x) ==> Bit(b, x)
    ensures !Bit(a ^ b, x) && Bit(b, x) ==> Bit(a, x)
  {
  }

  lemma XorBitDiffers(a: bv8, b: bv8, x: nat)
    requires x < 8
    ensures Bit(a ^ b, x) == (Bit(a, x) != Bit(b, x))
  {
    XorBit(a, b, x);
  }

  lemma HalfBit(a: bv8, b: bv8, x: nat)
    requires x < 8
    ensures Bit(HalfOf(a, b), x) <==> if x < 7 then Bit(a, x + 1) else Bit(b, 0)
  {
  }

  lemma XorByte(m: Number, n: Number, j: nat)
    requires j < 4
    ensures XorNumber(m, n)[j] == m[j] ^ n[j]
  {
    SameFour(XorNumber(m, n), seq(4, k requires 0 <= k < 4 => m[k] ^ n[k]));
  }

  lemma HalfByte(n: Number, j: nat)
    requires j < 4
    ensures Half(n)[j] == HalfOf(n[j], Above(n, j))
  {
    SameFour(Half(n), seq(4, k requires 0 <= k < 4 => HalfOf(n[k], Above(n, k))));
  }

  lemma XorAt(m: Number, n: Number, i: nat)
    requires i < 32
    ensures LoadLittle(XorNumber(m, n)).bits[i] == (LoadLittle(m).bits[i] != LoadLittle(n).bits[i])
  {
    var j: nat, x: nat := i / 8, i % 8;
    XorByte(m, n, j);
    XorBitDiffers(m[j], n[j], x);
  }

  lemma HalfAt(n: Number, i: nat)
    requires i < 32
    ensures LoadLittle(Half(n)).bits[i] == (i < 31 && LoadLittle(n).bits[i + 1])
  {
    HalfByte(n, i / 8);
    HalfBit(n[i / 8], Above(n, i / 8), i % 8);
    if i % 8 < 7 {
      assert (i + 1) / 8 == i / 8 && (i + 1) % 8 == i % 8 + 1;
    } else {
      assert (i + 1) / 8 == i / 8 + 1 && (i + 1) % 8 == 0;
      ZeroByte(0);
    }
  }

  lemma XorBits(m: Number, n: Number)
    ensures Xor(LoadLittle(m), LoadLittle(n)) == LoadLittle(XorNumber(m, n))
  {
    forall i: nat | i < 32
      ensures Xor(LoadLittle(m), LoadLittle(n)).bits[i] == LoadLittle(XorNumber(m, n)).bits[i]
    {
      XorAt(m, n, i);
    }
    SameWord(Xor(LoadLittle(m), LoadLittle(n)), LoadLittle(XorNumber(m, n)));
  }

  lemma HalfBits(n: Number)
    ensures Shr(LoadLittle(n), 1) == LoadLittle(Half(n))
  {
    forall i: nat | i < 32 ensures Shr(LoadLittle(n), 1).bits[i] == LoadLittle(Half(n)).bits[i] { HalfAt(n, i); }
    SameWord(Shr(LoadLittle(n), 1), LoadLittle(Half(n)));
  }

  lemma Polynomial()
    ensures POLYNOMIAL == LoadLittle([0x20, 0x83, 0xb8, 0xed])
  {
    var p: Word := LoadLittle([0x20, 0x83, 0xb8, 0xed]);
    forall i: nat | i < 32 ensures POLYNOMIAL.bits[i] == p.bits[i] { }
    SameWord(POLYNOMIAL, p);
  }

  lemma XorTurned(a: Word, b: Word)
    ensures Xor(a, b) == Xor(b, a)
  {
    SameWord(Xor(a, b), Xor(b, a));
  }

  lemma StepBits(n: Number)
    ensures BitStep(LoadLittle(n)) == LoadLittle(NumberStep(n))
  {
    HalfBits(n);
    Polynomial();
    XorBits(Half(n), [0x20, 0x83, 0xb8, 0xed]);
    XorTurned(LoadLittle(Half(n)), POLYNOMIAL);
    assert LoadLittle(n).bits[0] == Bit(n[0], 0);
  }

  lemma OneStep(c: Word, k: nat, m: Number)
    requires Steps(c, k) == LoadLittle(m)
    ensures Steps(c, k + 1) == LoadLittle(NumberStep(m))
  {
    StepBits(m);
  }

  /** These are eight steps. */
  ghost predicate EightSteps(n: Number, run: seq<Number>) {
    |run| == 9 && run[0] == n && forall k: nat | k < 8 :: run[k + 1] == NumberStep(run[k])
  }

  lemma {:induction false} RunSteps(n: Number, run: seq<Number>, k: nat)
    requires EightSteps(n, run) && k <= 8
    ensures Steps(LoadLittle(n), k) == LoadLittle(run[k])
  {
    if k > 0 {
      RunSteps(n, run, k - 1);
      OneStep(LoadLittle(n), k - 1, run[k - 1]);
      assert run[k - 1 + 1] == NumberStep(run[k - 1]);
    }
  }

  /** The register m after the data byte b, for a register n before it. */
  lemma FedBits(n: Number, b: bv8, run: seq<Number>)
    requires EightSteps(XorNumber(n, [b, 0, 0, 0]), run)
    ensures ByteStep(LoadLittle(n), b) == LoadLittle(run[8])
  {
    var w := LoadLittle([b, 0, 0, 0]);
    forall i: nat | i < 32 ensures ByteWord(b).bits[i] == w.bits[i] { if i >= 8 { ZeroByte(i % 8); } }
    SameWord(ByteWord(b), w);
    XorBits(n, [b, 0, 0, 0]);
    RunSteps(XorNumber(n, [b, 0, 0, 0]), run, 8);
  }

  /** The register from 0xffffffff over the byte 'a'. */
  function RunOfA(): seq<Number> {
    [[0x9e, 0xff, 0xff, 0xff], [0xcf, 0xff, 0xff, 0x7f], [0xc7, 0x7c, 0x47, 0xd2], [0x43, 0x3d, 0x9b, 0x84],
     [0x81, 0x1d, 0xf5, 0xaf], [0xe0, 0x0d, 0x42, 0xba], [0xf0, 0x06, 0x21, 0x5d], [0x78, 0x83, 0x90, 0x2e],
     [0xbc, 0x41, 0x48, 0x17]]
  }

  lemma RunOfASteps()
    ensures EightSteps(XorNumber([0xff, 0xff, 0xff, 0xff], [0x61, 0, 0, 0]), RunOfA())
  {
    var r := RunOfA();
    assert r[1] == NumberStep(r[0]) && r[2] == NumberStep(r[1]) && r[3] == NumberStep(r[2]) && r[4] == NumberStep(r[3]);
    assert r[5] == NumberStep(r[4]) && r[6] == NumberStep(r[5]) && r[7] == NumberStep(r[6]) && r[8] == NumberStep(r[7]);
  }

  lemma AllOnes()
    ensures Not(Zero()) == LoadLittle([0xff, 0xff, 0xff, 0xff])
  {
    FullByte(0xff);
    var n: Number := [0xff, 0xff, 0xff, 0xff];
    forall i: nat | i < 32 ensures Not(Zero()).bits[i] == LoadLittle(n).bits[i] { assert n[i / 8] == 0xff; }
    SameWord(Not(Zero()), LoadLittle(n));
  }

  lemma NotIsXor(w: Word)
    ensures Not(w) == Xor(w, Not(Zero()))
  {
    SameWord(Not(w), Xor(w, Not(Zero())));
  }

  /** The CRC-32 of the one byte 'a' is 0xe8b7be43. */
  lemma CheckValue()
    ensures Crc(Zero(), [0x61]) == LoadLittle([0x43, 0xbe, 0xb7, 0xe8])
  {
    AllOnes();
    RunOfASteps();
    FedBits([0xff, 0xff, 0xff, 0xff], 0x61, RunOfA());
    var d: seq<bv8> := [0x61];
    assert d[..0] == [] && Register(Not(Zero()), d[..0]) == Not(Zero());
    var w: Word := LoadLittle(RunOfA()[8]);
    assert Register(Not(Zero()), d) == w;
    NotIsXor(w);
    XorBits(RunOfA()[8], [0xff, 0xff, 0xff, 0xff]);
    assert XorNumber(RunOfA()[8], [0xff, 0xff, 0xff, 0xff]) == [0x43, 0xbe, 0xb7, 0xe8];
  }
}
