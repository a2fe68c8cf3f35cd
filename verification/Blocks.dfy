/** Sizes and bit positions of the cache map: one bit per 4 KiB block, one byte per 32 KiB,
    512 bytes per 16 MiB hash block. */
module Blocks {

  const BLOCK_SIZE: nat := 4096
  const MAP_BYTE_SIZE: nat := 32768
  const HASH_BLOCK_SIZE: nat := 16777216
  const MAP_BYTES_PER_HASH_BLOCK: nat := 512
  const BLOCKS_PER_HASH_BLOCK: nat := 4096

  /** The source's `x & ~(4096 - 1)`. */
  function AlignDown(x: nat): nat { x / BLOCK_SIZE * BLOCK_SIZE }

  /** The source's `(x + 4096 - 1) & ~(4096 - 1)`. */
  function AlignUp(x: nat): nat { (x + (BLOCK_SIZE - 1)) / BLOCK_SIZE * BLOCK_SIZE }

  /** IMGSIZE_TO_MAPBYTES */
  function MapBytes(size: nat): nat { (size + (MAP_BYTE_SIZE - 1)) / MAP_BYTE_SIZE }

  /** IMGSIZE_TO_HASHBLOCKS */
  function HashBlocks(size: nat): nat { (size + (HASH_BLOCK_SIZE - 1)) / HASH_BLOCK_SIZE }

  /** The source's `1 << x` for one map byte. */
  function Mask(x: nat): bv8
    requires x < 8
  {
    if x == 0 then 1 else if x == 1 then 2 else if x == 2 then 4 else if x == 3 then 8
    else if x == 4 then 16 else if x == 5 then 32 else if x == 6 then 64 else 128
  }

  predicate Bit(b: bv8, x: nat)
    requires x < 8
  {
    b & Mask(x) != 0
  }

  lemma SetBit(b: bv8, x: nat, y: nat)
    requires x < 8 && y < 8
    ensures Bit(b | Mask(x), y) <==> Bit(b, y) || x == y
  {
    assert Mask(y) & Mask(y) != 0;
    assert x != y ==> Mask(x) & Mask(y) == 0;
    assert (b | Mask(x)) & Mask(y) == (b & Mask(y)) | (Mask(x) & Mask(y));
  }

  lemma ClearBit(b: bv8, x: nat, y: nat)
    requires x < 8 && y < 8
    ensures Bit(b & !Mask(x), y) <==> Bit(b, y) && x != y
  {
    assert x != y ==> Mask(x) & Mask(y) == 0;
    assert (b & !Mask(x)) & Mask(y) == (b & Mask(y)) & !Mask(x);
    if x != y {
      assert Mask(y) & !Mask(x) == Mask(y);
      assert (b & Mask(y)) & !Mask(x) == b & (Mask(y) & !Mask(x));
    } else {
      assert (b & Mask(x)) & !Mask(x) == 0;
    }
  }

  /** `|= mask` when setting, `&= ~mask` when clearing. */
  function WrittenByte(v: bv8, x: nat, set_: bool): bv8
    requires x < 8
  {
    if set_ then v | Mask(x) else v & !Mask(x)
  }

  lemma WrittenBit(v: bv8, x: nat, set_: bool, y: nat)
    requires x < 8 && y < 8
    ensures Bit(WrittenByte(v, x, set_), y) <==> if x == y then set_ else Bit(v, y)
  {
    if set_ { SetBit(v, x, y); } else { ClearBit(v, x, y); }
  }

  lemma FullByte(b: bv8)
    ensures b == 0xff <==> forall x: nat | x < 8 :: Bit(b, x)
  {
    if b == 0xff {
      forall x: nat | x < 8 ensures Bit(b, x) {
        assert 0xff & Mask(x) == Mask(x);
      }
    }
    if forall x: nat | x < 8 :: Bit(b, x) {
      assert Bit(b, 0) && Bit(b, 1) && Bit(b, 2) && Bit(b, 3) && Bit(b, 4) && Bit(b, 5) && Bit(b, 6) && Bit(b, 7);
    }
  }

  lemma ZeroByte(x: nat)
    requires x < 8
    ensures !Bit(0, x)
  {
    assert 0 & Mask(x) == 0;
  }

  lemma ByteExtensionality(a: bv8, b: bv8)
    requires forall x: nat | x < 8 :: Bit(a, x) == Bit(b, x)
    ensures a == b
  {
    assert Bit(a, 0) == Bit(b, 0) && Bit(a, 1) == Bit(b, 1) && Bit(a, 2) == Bit(b, 2) && Bit(a, 3) == Bit(b, 3);
    assert Bit(a, 4) == Bit(b, 4) && Bit(a, 5) == Bit(b, 5) && Bit(a, 6) == Bit(b, 6) && Bit(a, 7) == Bit(b, 7);
  }

  /** Whether the bit of 4 KiB block k is set in map m. */
  predicate BlockSet(m: seq<bv8>, k: nat)
    requires k < 8 * |m|
  {
    Bit(m[k / 8], k % 8)
  }

  lemma MapExtensionality(m: seq<bv8>, n: seq<bv8>)
    requires |m| == |n|
    requires forall k: nat | k < 8 * |m| :: BlockSet(m, k) == BlockSet(n, k)
    ensures m == n
  {
    forall y: nat | y < |m| ensures m[y] == n[y] {
      forall x: nat | x < 8 ensures Bit(m[y], x) == Bit(n[y], x) {
        assert BlockSet(m, 8 * y + x) == BlockSet(n, 8 * y + x);
        assert (8 * y + x) / 8 == y && (8 * y + x) % 8 == x;
      }
      ByteExtensionality(m[y], n[y]);
    }
  }

  lemma FullMapByte(m: seq<bv8>, y: nat)
    requires y < |m|
    ensures m[y] == 0xff <==> forall k: nat | 8 * y <= k < 8 * y + 8 :: BlockSet(m, k)
  {
    FullByte(m[y]);
    if m[y] == 0xff {
      forall k: nat | 8 * y <= k < 8 * y + 8 ensures BlockSet(m, k) {
        assert k / 8 == y;
        assert Bit(m[y], k % 8);
      }
    }
    if forall k: nat | 8 * y <= k < 8 * y + 8 :: BlockSet(m, k) {
      forall x: nat | x < 8 ensures Bit(m[y], x) {
        assert BlockSet(m, 8 * y + x);
        assert (8 * y + x) / 8 == y && (8 * y + x) % 8 == x;
      }
    }
  }

  /** Number of the first block starting at or after byte x. */
  function BlockUp(x: nat): nat { (x + (BLOCK_SIZE - 1)) / BLOCK_SIZE }

  /** The byte and bit of the map that belong to block b, from its byte position as the source computes them. */
  lemma MapPosition(pos: nat, b: nat, size: nat)
    requires pos == b * BLOCK_SIZE < size
    ensures pos / MAP_BYTE_SIZE == b / 8 < MapBytes(size) && pos / BLOCK_SIZE == b < BlockUp(size) <= 8 * MapBytes(size)
  {
  }

  /** A whole hash block covers 512 map bytes and 4096 blocks. */
  lemma HashBlockBorders(h: nat, size: nat)
    ensures h * HASH_BLOCK_SIZE / MAP_BYTE_SIZE == h * MAP_BYTES_PER_HASH_BLOCK
    ensures h * HASH_BLOCK_SIZE / BLOCK_SIZE == h * BLOCKS_PER_HASH_BLOCK
    ensures (h + 1) * HASH_BLOCK_SIZE <= size ==> (h + 1) * BLOCKS_PER_HASH_BLOCK <= BlockUp(size)
    ensures (h + 1) * HASH_BLOCK_SIZE > size ==> BlockUp(size) <= (h + 1) * BLOCKS_PER_HASH_BLOCK
    ensures BlockUp(size) <= 8 * MapBytes(size)
  {
  }

  /** Every block that starts below `size` has a bit in the map. */
  lemma BlocksFit(size: nat)
    ensures BlockUp(size) <= 8 * MapBytes(size) < BlockUp(size) + 8
  {
  }

  /** Block k lies entirely in [start, end). */
  predicate Inside(k: nat, start: nat, end: nat) { start <= k * BLOCK_SIZE && (k + 1) * BLOCK_SIZE <= end }

  /** Block k shares a byte with [start, end); an empty range strictly inside a block touches that block. */
  predicate Touches(k: nat, start: nat, end: nat) { start < (k + 1) * BLOCK_SIZE && k * BLOCK_SIZE < end }

  lemma Rounding(x: nat, size: nat)
    requires size % BLOCK_SIZE == 0
    ensures AlignDown(x) % BLOCK_SIZE == 0 && AlignDown(x) / BLOCK_SIZE == x / BLOCK_SIZE && AlignDown(x) <= x
    ensures AlignUp(x) % BLOCK_SIZE == 0 && AlignUp(x) / BLOCK_SIZE == BlockUp(x) && x <= AlignUp(x)
    ensures AlignUp(x) <= size <==> x <= size
    ensures AlignDown(x) == AlignUp(x) <==> x % BLOCK_SIZE == 0
  {
  }

  /** Inward rounding names exactly the blocks inside, outward rounding exactly the blocks touched. */
  lemma RoundedRange(k: nat, start: nat, end: nat)
    ensures Inside(k, start, end) <==> BlockUp(start) <= k < end / BLOCK_SIZE
    ensures Touches(k, start, end) <==> start / BLOCK_SIZE <= k < BlockUp(end)
  {
  }
}
