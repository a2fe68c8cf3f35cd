/** The cache map of a proxied image (src/server/image.c) and the range check in front of a
    local read (src/server/net.c). */
module CacheMap {
  import opened Blocks

  /** The value of `image->cache_map`: NULL stands for a complete image. */
  datatype Cache = Complete | Partial(bytes: seq<bv8>)

  predicate Fits(c: Cache, size: nat) { c.Partial? ==> |c.bytes| == MapBytes(size) }

  /** What the map means: block k may be served from the local file. */
  predicate Cached(c: Cache, k: nat)
    requires c.Partial? ==> k < 8 * |c.bytes|
  {
    c.Complete? || BlockSet(c.bytes, k)
  }

  /** Every block that shares a byte with [start, end) is cached. */
  ghost predicate TouchedCached(c: Cache, start: nat, end: nat)
    requires c.Partial? ==> |c.bytes| >= MapBytes(end)
  {
    forall k: nat | Touches(k, start, end) :: Cached(c, k)
  }

  /** Every 4 KiB block of an image of this size is cached. */
  ghost predicate AllCached(c: Cache, size: nat)
    requires Fits(c, size)
  {
    forall k: nat | k < BlockUp(size) :: Cached(c, k)
  }

  /** Every 4 KiB block of hash block h that holds a byte of the file is cached. */
  ghost predicate HashBlockCached(c: Cache, h: nat, size: nat)
    requires c.Partial? ==> |c.bytes| >= MapBytes(size)
  {
    forall k: nat | h * BLOCKS_PER_HASH_BLOCK <= k < (h + 1) * BLOCKS_PER_HASH_BLOCK && k < BlockUp(size) ::
      Cached(c, k)
  }

  /** Marking [start, end): exactly the blocks lying entirely inside become cached. */
  ghost predicate SetRange(m: seq<bv8>, n: seq<bv8>, start: nat, end: nat) {
    |n| == |m| &&
    forall k: nat | k < 8 * |m| :: BlockSet(n, k) <==> BlockSet(m, k) || Inside(k, start, end)
  }

  /** Clearing [start, end): exactly the blocks touched by it stop being cached. */
  ghost predicate ClearRange(m: seq<bv8>, n: seq<bv8>, start: nat, end: nat) {
    |n| == |m| &&
    forall k: nat | k < 8 * |m| :: BlockSet(n, k) <==> BlockSet(m, k) && !Touches(k, start, end)
  }

  function AllOnes(size: nat): (m: seq<bv8>)
  {
    seq(MapBytes(size), _ => 0xff)
  }

  /** The outcome of image_updateCachemap. */
  ghost predicate Updated(c: Cache, d: Cache, size: nat, start: nat, end: nat, set_: bool) {
    if set_ then
      if c.Complete? then d == c else d.Partial? && SetRange(c.bytes, d.bytes, start, end)
    else
      if start == end && start % BLOCK_SIZE == 0 then d == c
      else d.Partial? && ClearRange(if c.Complete? then AllOnes(size) else c.bytes, d.bytes, start, end)
  }

  lemma AllOnesCached(size: nat, k: nat)
    requires k < 8 * MapBytes(size)
    ensures BlockSet(AllOnes(size), k)
  {
    FullByte(0xff);
  }

  /** In terms of what may be served: setting adds the blocks inside the range, clearing removes the touched ones. */
  lemma UpdatedCached(c: Cache, d: Cache, size: nat, start: nat, end: nat, set_: bool, k: nat)
    requires Fits(c, size) && Updated(c, d, size, start, end, set_)
    requires k < BlockUp(size) && start <= end <= size
    ensures Fits(d, size)
    ensures set_ ==> (Cached(d, k) <==> Cached(c, k) || Inside(k, start, end))
    ensures !set_ ==> (Cached(d, k) <==> Cached(c, k) && !Touches(k, start, end))
  {
    if c.Complete? { AllOnesCached(size, k); }
  }

  /** The same in bytes: a block counts as cached when 4096 bytes of it were stored, and not any more when a byte of
      it is given up. */
  lemma UpdatedMeans(m: seq<bv8>, n: seq<bv8>, size: nat, start: nat, end: nat, set_: bool, k: nat)
    requires |m| == MapBytes(size) && start < end <= size && Updated(Partial(m), Partial(n), size, start, end, set_)
    requires k < 8 * |m|
    ensures |n| == |m| == (size + 32767) / 32768
    ensures set_ ==> (BlockSet(n, k) <==> BlockSet(m, k) || (start <= 4096 * k && 4096 * k + 4096 <= end))
    ensures !set_ ==> (BlockSet(n, k) <==> BlockSet(m, k) && (end <= 4096 * k || 4096 * k + 4096 <= start))
  {
  }

  /** The relation determines the new map. */
  lemma UpdatedUnique(c: Cache, d: Cache, e: Cache, size: nat, start: nat, end: nat, set_: bool)
    requires Fits(c, size)
    requires Updated(c, d, size, start, end, set_) && Updated(c, e, size, start, end, set_)
    ensures d == e
  {
    if d.Partial? && e.Partial? { MapExtensionality(d.bytes, e.bytes); }
  }

  /** The blocks b0 <= k < b1 are all set. */
  ghost predicate RunSet(m: seq<bv8>, b0: nat, b1: nat)
    requires b1 <= 8 * |m|
  {
    forall k: nat | b0 <= k < b1 :: BlockSet(m, k)
  }

  /** A complete image has a bit for every 4096 bytes begun. */
  lemma AllCachedMeans(m: seq<bv8>, size: nat)
    requires |m| == (size + 32767) / 32768
    ensures AllCached(Partial(m), size) <==> forall k: nat | k < (size + 4095) / 4096 :: k < 8 * |m| && BlockSet(m, k)
  {
    BlocksFit(size);
    assert forall k: nat | k < BlockUp(size) :: Cached(Partial(m), k) == BlockSet(m, k);
  }

  /** HashBlockCached and AllCached as runs of bits. */
  lemma CachedRuns(m: seq<bv8>, h: nat, size: nat)
    requires |m| >= MapBytes(size)
    ensures BlockUp(size) <= 8 * |m|
    ensures h * BLOCKS_PER_HASH_BLOCK <= BlockUp(size) ==>
              var stop := if (h + 1) * BLOCKS_PER_HASH_BLOCK <= BlockUp(size) then (h + 1) * BLOCKS_PER_HASH_BLOCK
                else BlockUp(size);
              HashBlockCached(Partial(m), h, size) == RunSet(m, h * BLOCKS_PER_HASH_BLOCK, stop)
    ensures h * BLOCKS_PER_HASH_BLOCK > BlockUp(size) ==> HashBlockCached(Partial(m), h, size)
    ensures |m| == MapBytes(size) ==> AllCached(Partial(m), size) == RunSet(m, 0, BlockUp(size))
  {
    BlocksFit(size);
    assert forall k: nat | k < 8 * |m| :: Cached(Partial(m), k) == BlockSet(m, k);
  }

  lemma NextMapByte(m: seq<bv8>, b0: nat, y: nat)
    requires y < |m| && b0 <= 8 * y
    ensures RunSet(m, b0, 8 * y + 8) <==> RunSet(m, b0, 8 * y) && m[y] == 0xff
  {
    FullMapByte(m, y);
  }

  lemma NextBlock(m: seq<bv8>, b0: nat, b: nat)
    requires b < 8 * |m| && b0 <= b
    ensures RunSet(m, b0, b + 1) <==> RunSet(m, b0, b) && m[b / 8] & Mask(b % 8) != 0
  {
    assert BlockSet(m, b) == (m[b / 8] & Mask(b % 8) != 0);
  }

  /** The map bytes lo <= i < hi are all 0xff. */
  method AllFull(m: seq<bv8>, lo: nat, hi: nat) returns (r: bool)
    requires lo <= hi <= |m|
    ensures r <==> RunSet(m, 8 * lo, 8 * hi)
  {
    for i := lo to hi
      invariant RunSet(m, 8 * lo, 8 * i)
    {
      NextMapByte(m, 8 * lo, i);
      if m[i] != 0xff { return false; }
    }
    return true;
  }

  /** The bit loops of image.c and net.c: every block starting in [from, stop) has its bit set. */
  method BitsFrom(m: seq<bv8>, from: nat, stop: nat) returns (r: bool)
    requires from % BLOCK_SIZE == 0 && MapBytes(stop) <= |m|
    ensures BlockUp(stop) <= 8 * |m|
    ensures r <==> RunSet(m, from / BLOCK_SIZE, BlockUp(stop))
  {
    BlocksFit(stop);
    var pos := from;
    ghost var b0 := from / BLOCK_SIZE;
    ghost var b := b0;
    while pos < stop
      invariant pos == b * BLOCK_SIZE && b0 <= b && (b <= BlockUp(stop) || b == b0)
      invariant b <= BlockUp(stop) ==> RunSet(m, b0, b)
      decreases stop + BLOCK_SIZE - pos
    {
      MapPosition(pos, b, stop);
      NextBlock(m, b0, b);
      if m[pos / MAP_BYTE_SIZE] & Mask(pos / BLOCK_SIZE % 8) == 0 {
        assert !RunSet(m, b0, BlockUp(stop)) by { assert !BlockSet(m, b); }
        return false;
      }
      pos := pos + BLOCK_SIZE;
      b := b + 1;
    }
    return true;
  }

  /** image_isHashBlockComplete: whole map bytes for a full hash block, single bits for the short last one. */
  method IsHashBlockComplete(m: seq<bv8>, block: nat, realFilesize: nat) returns (r: bool)
    requires |m| >= MapBytes(realFilesize)
    ensures r <==> HashBlockCached(Partial(m), block, realFilesize)
  {
    CachedRuns(m, block, realFilesize);
    HashBlockBorders(block, realFilesize);
    if (block + 1) * HASH_BLOCK_SIZE <= realFilesize {
      var startIndex := block * HASH_BLOCK_SIZE / MAP_BYTE_SIZE;
      var endIndex := startIndex + HASH_BLOCK_SIZE / MAP_BYTE_SIZE;
      r := AllFull(m, startIndex, endIndex);
    } else {
      r := BitsFrom(m, block * HASH_BLOCK_SIZE, realFilesize);
    }
  }

  /** The mask image_isComplete builds for the last map byte. */
  method LastByteMask(blocksInLast: nat) returns (mask: bv8)
    requires blocksInLast < 8
    ensures forall x: nat | x < 8 :: Bit(mask, x) <==> blocksInLast == 0 || x < blocksInLast
  {
    FullByte(0xff);
    if blocksInLast == 0 { return 0xff; }
    mask := 0;
    forall x: nat | x < 8 ensures !Bit(0, x) { ZeroByte(x); }
    for j := 0 to blocksInLast
      invariant forall x: nat | x < 8 :: Bit(mask, x) <==> x < j
    {
      var next := mask | Mask(j);
      forall x: nat | x < 8 ensures Bit(next, x) <==> x < j + 1 { SetBit(mask, j, x); }
      mask := next;
    }
  }

  lemma AndBit(b: bv8, mask: bv8, x: nat)
    requires x < 8
    ensures Bit(b & mask, x) ==> Bit(b, x) && Bit(mask, x)
    ensures Bit(b, x) && Bit(mask, x) ==> Bit(b & mask, x)
  {
  }

  lemma LastByteBits(b: bv8, mask: bv8)
    ensures b & mask == mask <==> forall x: nat | x < 8 && Bit(mask, x) :: Bit(b, x)
  {
    forall x: nat | x < 8 ensures Bit(b & mask, x) <==> Bit(b, x) && Bit(mask, x) { AndBit(b, mask, x); }
    if forall x: nat | x < 8 && Bit(mask, x) :: Bit(b, x) { ByteExtensionality(b & mask, mask); }
  }

  lemma LastMapByte(m: seq<bv8>, size: nat, mask: bv8)
    requires size != 0 && size % BLOCK_SIZE == 0 && |m| == MapBytes(size)
    requires forall x: nat | x < 8 :: Bit(mask, x) <==> size / BLOCK_SIZE % 8 == 0 || x < size / BLOCK_SIZE % 8
    ensures (forall x: nat | x < 8 && Bit(mask, x) :: Bit(m[|m| - 1], x))
            <==> RunSet(m, 8 * (|m| - 1), BlockUp(size))
  {
    var y := |m| - 1;
    if forall x: nat | x < 8 && Bit(mask, x) :: Bit(m[y], x) {
      forall k: nat | 8 * y <= k < BlockUp(size) ensures BlockSet(m, k) {
        assert k / 8 == y && Bit(mask, k % 8);
      }
    }
    if RunSet(m, 8 * y, BlockUp(size)) {
      forall x: nat | x < 8 && Bit(mask, x) ensures Bit(m[y], x) {
        assert 8 * y + x < BlockUp(size);
        assert BlockSet(m, 8 * y + x) && (8 * y + x) / 8 == y && (8 * y + x) % 8 == x;
      }
    }
  }

  /** The scan of image_isComplete: whole bytes, then the bits of the last byte that name a block. */
  method MapComplete(m: seq<bv8>, size: nat) returns (complete: bool)
    requires size != 0 && size % BLOCK_SIZE == 0 && |m| == MapBytes(size)
    ensures complete <==> AllCached(Partial(m), size)
  {
    CachedRuns(m, 0, size);
    BlocksFit(size);
    complete := AllFull(m, 0, |m| - 1);
    if complete {
      var lastByte := LastByteMask(size / BLOCK_SIZE % 8);
      complete := m[|m| - 1] & lastByte == lastByte;
      LastByteBits(m[|m| - 1], lastByte);
      LastMapByte(m, size, lastByte);
    }
  }

  /** Bits b0 <= k < b1 now read `set_`, the others are as before. */
  ghost predicate BitsWritten(m: seq<bv8>, n: seq<bv8>, b0: nat, b1: nat, set_: bool) {
    |n| == |m| && forall k: nat | k < 8 * |m| :: BlockSet(n, k) <==> if b0 <= k < b1 then set_ else BlockSet(m, k)
  }

  lemma WriteBlockAt(m: seq<bv8>, b: nat, set_: bool, k: nat)
    requires b < 8 * |m| && k < 8 * |m|
    ensures BlockSet(m[b / 8 := WrittenByte(m[b / 8], b % 8, set_)], k) <==> if k == b then set_ else BlockSet(m, k)
  {
    WrittenBit(m[b / 8], b % 8, set_, k % 8);
    assert k == b <==> k / 8 == b / 8 && k % 8 == b % 8;
  }

  /** One turn of the bit loop, and what the bit found there says about the map before the loop. */
  lemma WriteBit(m: seq<bv8>, n: seq<bv8>, b0: nat, b: nat, set_: bool)
    requires b < 8 * |m| && b0 <= b && BitsWritten(m, n, b0, b, set_)
    ensures BitsWritten(m, n[b / 8 := WrittenByte(n[b / 8], b % 8, set_)], b0, b + 1, set_)
    ensures RunSet(m, b0, b + 1) <==> RunSet(m, b0, b) && n[b / 8] & Mask(b % 8) != 0
  {
    NextBlock(m, b0, b);
    assert BlockSet(n, b) == BlockSet(m, b);
    var next := n[b / 8 := WrittenByte(n[b / 8], b % 8, set_)];
    forall k: nat | k < 8 * |m| ensures BlockSet(next, k) <==> if b0 <= k < b + 1 then set_ else BlockSet(m, k) {
      WriteBlockAt(n, b, set_, k);
    }
  }

  /** The map after a hash block was handed over: the lock was free meanwhile, and other threads may have left it as
      `others` says. */
  function AfterGap(c: Cache, others: seq<Cache>): Cache { if others == [] then c else others[0] }

  function Later(others: seq<Cache>): seq<Cache> { if others == [] then [] else others[1..] }

  predicate AllFit(c: Cache, others: seq<Cache>, size: nat) {
    (c.Partial? ==> |c.bytes| >= MapBytes(size)) && forall o <- others :: o.Partial? ==> |o.bytes| >= MapBytes(size)
  }

  /** The map that the check of hash block h finds when the checks begin with hash block i and map c; Complete if the
      map is gone by then, which ends the checks. */
  ghost function View(c: Cache, others: seq<Cache>, i: nat, h: nat, size: nat): (v: Cache)
    requires AllFit(c, others, size)
    ensures v.Partial? ==> |v.bytes| >= MapBytes(size)
    decreases h - i
  {
    if i >= h || c.Complete? then c
    else if HashBlockCached(c, i, size) then View(AfterGap(c, others), Later(others), i + 1, h, size)
    else View(c, others, i + 1, h, size)
  }

  /** Hash block h is complete when its turn comes. */
  ghost predicate CheckedComplete(c: Cache, others: seq<Cache>, i: nat, h: nat, size: nat)
    requires AllFit(c, others, size)
  {
    View(c, others, i, h, size).Partial? && HashBlockCached(View(c, others, i, h, size), h, size)
  }

  /** Without other threads every check finds the same map. */
  lemma {:induction false} Undisturbed(c: Cache, i: nat, h: nat, size: nat)
    requires AllFit(c, [], size)
    ensures View(c, [], i, h, size) == c
    decreases h - i
  {
    if i < h && c.Partial? { Undisturbed(c, i + 1, h, size); }
  }

  /** A hash block that is handed over lets other threads in: what they make of the map decides the checks behind it. */
  lemma {:induction false} OthersComeIn(c: Cache, o: Cache, more: seq<Cache>, i: nat, j: nat, h: nat, size: nat)
    requires AllFit(c, [o] + more, size) && c.Partial? && i <= j < h && HashBlockCached(c, j, size)
    requires forall b: nat | i <= b < j :: !HashBlockCached(c, b, size)
    ensures AllFit(o, more, size) && View(c, [o] + more, i, h, size) == View(o, more, j + 1, h, size)
    decreases j - i
  {
    assert forall x <- more :: x in [o] + more;
    assert o in [o] + more;
    assert ([o] + more)[1..] == more;
    if i < j { OthersComeIn(c, o, more, i + 1, j, h, size); }
  }

  lemma ViewStep(c: Cache, others: seq<Cache>, i: nat, h: nat, size: nat)
    requires AllFit(c, others, size) && c.Partial? && i < h
    ensures AllFit(AfterGap(c, others), Later(others), size)
    ensures View(c, others, i, h, size) ==
              if HashBlockCached(c, i, size) then View(AfterGap(c, others), Later(others), i + 1, h, size)
              else View(c, others, i + 1, h, size)
  {
  }

  /** The checks of hash blocks first <= h < i are done and handed these over, and now is the map left for block i. */
  ghost predicate Gathered(c: Cache, others: seq<Cache>, first: nat, size: nat, handed: seq<nat>, now: Cache,
                           todo: seq<Cache>, i: nat)
    requires AllFit(c, others, size)
  {
    && first <= i && AllFit(now, todo, size)
    && (forall h: nat | h >= i :: View(c, others, first, h, size) == View(now, todo, i, h, size))
    && (forall h: nat :: h in handed <==> first <= h < i && CheckedComplete(c, others, first, h, size))
  }

  lemma GatherNext(c: Cache, others: seq<Cache>, first: nat, size: nat, handed: seq<nat>, now: Cache, todo: seq<Cache>,
                   i: nat)
    requires AllFit(c, others, size) && Gathered(c, others, first, size, handed, now, todo, i) && now.Partial?
    ensures if HashBlockCached(now, i, size)
            then Gathered(c, others, first, size, handed + [i], AfterGap(now, todo), Later(todo), i + 1)
            else Gathered(c, others, first, size, handed, now, todo, i + 1)
  {
    forall h: nat | h > i { ViewStep(now, todo, i, h, size); }
    ViewStep(now, todo, i, i + 1, size);
    assert View(c, others, first, i, size) == now;
  }

  lemma GatherEnds(c: Cache, others: seq<Cache>, first: nat, size: nat, handed: seq<nat>, now: Cache, todo: seq<Cache>,
                   i: nat, stop: nat)
    requires AllFit(c, others, size) && Gathered(c, others, first, size, handed, now, todo, i)
    requires i == stop || (now.Complete? && i < stop)
    ensures forall h: nat :: h in handed <==> first <= h < stop && CheckedComplete(c, others, first, h, size)
  {
    if now.Complete? { assert forall h: nat | h >= i :: View(c, others, first, h, size) == now; }
  }

  lemma HashBlockAt(i: nat)
    ensures i * HASH_BLOCK_SIZE / HASH_BLOCK_SIZE == i
  {
  }

  /** The second loop of image_updateCachemap: the hash blocks from `start` to `end` that are found complete. */
  method HandOver(c: Cache, others: seq<Cache>, start: nat, end: nat, realFilesize: nat) returns (handed: seq<nat>)
    requires start < end && AllFit(c, others, realFilesize)
    ensures forall h: nat :: h in handed <==>
              start / HASH_BLOCK_SIZE <= h < HashBlocks(end)
                && CheckedComplete(c, others, start / HASH_BLOCK_SIZE, h, realFilesize)
  {
    handed := [];
    ghost var first, stop := start / HASH_BLOCK_SIZE, HashBlocks(end);
    var pos, last := start / HASH_BLOCK_SIZE * HASH_BLOCK_SIZE, HashBlocks(end) * HASH_BLOCK_SIZE;
    var now, todo := c, others;
    ghost var i := first;
    while pos < last
      invariant pos == i * HASH_BLOCK_SIZE && last == stop * HASH_BLOCK_SIZE && i <= stop
      invariant Gathered(c, others, first, realFilesize, handed, now, todo, i)
      decreases last - pos
    {
      if now.Complete? { break; }
      var block := pos / HASH_BLOCK_SIZE;
      HashBlockAt(i);
      GatherNext(c, others, first, realFilesize, handed, now, todo, i);
      var complete := IsHashBlockComplete(now.bytes, block, realFilesize);
      if complete {
        handed := handed + [block];
        now, todo := AfterGap(now, todo), Later(todo);
      }
      pos := pos + HASH_BLOCK_SIZE;
      i := i + 1;
    }
    GatherEnds(c, others, first, realFilesize, handed, now, todo, i, stop);
  }

  /** Where a map byte ends and a block begins. */
  lemma ByteBorders(f: nat, b: nat)
    ensures BlockUp((f + 1) * MAP_BYTE_SIZE) == 8 * f + 8 && MapBytes((f + 1) * MAP_BYTE_SIZE) == f + 1
    ensures f * MAP_BYTE_SIZE % BLOCK_SIZE == 0 && f * MAP_BYTE_SIZE / BLOCK_SIZE == 8 * f
    ensures b * BLOCK_SIZE < (f + 1) * MAP_BYTE_SIZE <==> b < 8 * f + 8
  {
  }

  /** Where an aligned range begins and ends, in bytes and in blocks. */
  lemma RunBorders(start: nat, end: nat)
    requires start < end && start % BLOCK_SIZE == 0 && end % BLOCK_SIZE == 0
    ensures var f, l := start / MAP_BYTE_SIZE, (end - 1) / MAP_BYTE_SIZE;
            && f == start / BLOCK_SIZE / 8 && l == (end / BLOCK_SIZE - 1) / 8 < MapBytes(end)
            && BlockUp(end) == end / BLOCK_SIZE
            && BlockUp((f + 1) * MAP_BYTE_SIZE) == 8 * f + 8 && MapBytes((f + 1) * MAP_BYTE_SIZE) == f + 1
            && l * MAP_BYTE_SIZE % BLOCK_SIZE == 0 && l * MAP_BYTE_SIZE / BLOCK_SIZE == 8 * l
            && (end < (f + 1) * MAP_BYTE_SIZE <==> end / BLOCK_SIZE < 8 * f + 8)
  {
    var f, l := start / MAP_BYTE_SIZE, (end - 1) / MAP_BYTE_SIZE;
    ByteBorders(f, end / BLOCK_SIZE);
    ByteBorders(l, 0);
    assert end == end / BLOCK_SIZE * BLOCK_SIZE;
  }

  /** A run of blocks is the run in its first map byte, whole bytes in between, and the run in its last map byte. */
  lemma ThreePhases(m: seq<bv8>, b0: nat, b1: nat, firstByte: nat, lastByte: nat)
    requires b0 < b1 <= 8 * |m| && firstByte == b0 / 8 && lastByte == (b1 - 1) / 8
    ensures RunSet(m, b0, b1) <==>
            && RunSet(m, b0, if b1 < 8 * firstByte + 8 then b1 else 8 * firstByte + 8)
            && (firstByte + 1 < lastByte ==> RunSet(m, 8 * firstByte + 8, 8 * lastByte))
            && (firstByte != lastByte ==> RunSet(m, 8 * lastByte, b1))
  {
    if && RunSet(m, b0, if b1 < 8 * firstByte + 8 then b1 else 8 * firstByte + 8)
       && (firstByte + 1 < lastByte ==> RunSet(m, 8 * firstByte + 8, 8 * lastByte))
       && (firstByte != lastByte ==> RunSet(m, 8 * lastByte, b1))
    {
      forall k: nat | b0 <= k < b1 ensures BlockSet(m, k) { }
    }
  }

  /** The three phases of the check on block-aligned borders. */
  method RunCached(m: seq<bv8>, start: nat, end: nat) returns (isCached: bool)
    requires start < end && start % BLOCK_SIZE == 0 && end % BLOCK_SIZE == 0 && MapBytes(end) <= |m|
    ensures end / BLOCK_SIZE <= 8 * |m|
    ensures isCached <==> RunSet(m, start / BLOCK_SIZE, end / BLOCK_SIZE)
  {
    BlocksFit(end);
    RunBorders(start, end);
    var firstByte, lastByte := start / MAP_BYTE_SIZE, (end - 1) / MAP_BYTE_SIZE;
    ThreePhases(m, start / BLOCK_SIZE, end / BLOCK_SIZE, firstByte, lastByte);
    isCached := true;
    if firstByte + 1 < lastByte { isCached := AllFull(m, firstByte + 1, lastByte); }
    if isCached {
      var firstEnd := if end < (firstByte + 1) * MAP_BYTE_SIZE then end else (firstByte + 1) * MAP_BYTE_SIZE;
      isCached := BitsFrom(m, start, firstEnd);
    }
    if isCached && firstByte != lastByte { isCached := BitsFrom(m, lastByte * MAP_BYTE_SIZE, end); }
  }

  /** Writing the inward-rounded run of bits sets the range; writing the outward-rounded run clears it. */
  lemma RoundedSet(m: seq<bv8>, n: seq<bv8>, start: nat, end: nat)
    requires BitsWritten(m, n, BlockUp(start), end / BLOCK_SIZE, true) || (m == n && BlockUp(start) >= end / BLOCK_SIZE)
    ensures SetRange(m, n, start, end)
  {
    forall k: nat | k < 8 * |m|
      ensures BlockSet(n, k) <==> BlockSet(m, k) || Inside(k, start, end)
    {
      RoundedRange(k, start, end);
    }
  }

  lemma RoundedClear(m: seq<bv8>, n: seq<bv8>, start: nat, end: nat)
    requires BitsWritten(m, n, start / BLOCK_SIZE, BlockUp(end), false)
    ensures ClearRange(m, n, start, end)
  {
    forall k: nat | k < 8 * |m|
      ensures BlockSet(n, k) <==> BlockSet(m, k) && !Touches(k, start, end)
    {
      RoundedRange(k, start, end);
    }
  }

  lemma TouchedRun(m: seq<bv8>, start: nat, end: nat)
    requires MapBytes(end) <= |m|
    ensures BlockUp(end) <= 8 * |m|
    ensures RunSet(m, start / BLOCK_SIZE, BlockUp(end)) <==> TouchedCached(Partial(m), start, end)
  {
    BlocksFit(end);
    if RunSet(m, start / BLOCK_SIZE, BlockUp(end)) {
      forall k: nat | Touches(k, start, end) ensures Cached(Partial(m), k) { RoundedRange(k, start, end); }
    }
    if forall k: nat | Touches(k, start, end) :: Cached(Partial(m), k) {
      forall k: nat | start / BLOCK_SIZE <= k < BlockUp(end) ensures BlockSet(m, k) {
        RoundedRange(k, start, end);
        assert Cached(Partial(m), k);
      }
    }
  }

  /** Hash block h shares a block with the run b0 <= k < b1. */
  predicate MeetsHashBlock(h: nat, b0: nat, b1: nat) {
    h * BLOCKS_PER_HASH_BLOCK < b1 && b0 < (h + 1) * BLOCKS_PER_HASH_BLOCK
  }

  /** The hash blocks that share a block with an aligned range are those the second loop runs over. */
  lemma MeetsRange(start: nat, end: nat)
    requires start % BLOCK_SIZE == 0 && end % BLOCK_SIZE == 0
    ensures forall h: nat | MeetsHashBlock(h, start / BLOCK_SIZE, end / BLOCK_SIZE) ::
              start / HASH_BLOCK_SIZE <= h < HashBlocks(end)
  {
  }

  /** A hash block that an update completes meets the updated range, and the update set a new bit. */
  lemma NewlyCompleteMeets(m: seq<bv8>, n: seq<bv8>, b0: nat, b1: nat, size: nat)
    requires |m| == |n| >= MapBytes(size) && b1 <= 8 * |m| && BitsWritten(m, n, b0, b1, true)
    ensures forall h: nat | HashBlockCached(Partial(n), h, size) && !HashBlockCached(Partial(m), h, size) ::
              MeetsHashBlock(h, b0, b1) && !RunSet(m, b0, b1)
  {
    forall h: nat | HashBlockCached(Partial(n), h, size) && !HashBlockCached(Partial(m), h, size)
      ensures MeetsHashBlock(h, b0, b1) && !RunSet(m, b0, b1)
    {
      var k: nat :| h * BLOCKS_PER_HASH_BLOCK <= k < (h + 1) * BLOCKS_PER_HASH_BLOCK && k < BlockUp(size)
        && !Cached(Partial(m), k);
      assert Cached(Partial(n), k);
      assert b0 <= k < b1;
    }
  }

  /** What image_updateCachemap does after the bit loop has set new blocks or not. */
  method HandOverNew(ghost before: seq<bv8>, c: Cache, others: seq<Cache>, start: nat, end: nat, setNewBlocks: bool,
                     realFilesize: nat)
    returns (handed: seq<nat>)
    requires start % BLOCK_SIZE == 0 && end % BLOCK_SIZE == 0 && start < end && AllFit(c, others, realFilesize)
    requires c.Partial? && |before| == |c.bytes| >= MapBytes(realFilesize) && end / BLOCK_SIZE <= 8 * |before|
    requires BitsWritten(before, c.bytes, start / BLOCK_SIZE, end / BLOCK_SIZE, true)
    requires setNewBlocks <==> !RunSet(before, start / BLOCK_SIZE, end / BLOCK_SIZE)
    ensures forall h <- handed :: CheckedComplete(c, others, start / HASH_BLOCK_SIZE, h, realFilesize)
    ensures forall h: nat | HashBlockCached(c, h, realFilesize) && !HashBlockCached(Partial(before), h, realFilesize) ::
              h in handed <==> CheckedComplete(c, others, start / HASH_BLOCK_SIZE, h, realFilesize)
  {
    handed := [];
    if setNewBlocks { handed := HandOver(c, others, start, end, realFilesize); }
    NewlyCompleteMeets(before, c.bytes, start / BLOCK_SIZE, end / BLOCK_SIZE, realFilesize);
    MeetsRange(start, end);
  }

  class Image {
    const virtualFilesize: nat
    const realFilesize: nat
    const hasCrc: bool
    var cacheMap: array?<bv8>

    ghost predicate Valid()
      reads this
    {
      && virtualFilesize == AlignUp(realFilesize)
      && (cacheMap != null ==> cacheMap.Length == MapBytes(virtualFilesize))
    }

    function Value(): (c: Cache)
      reads this, cacheMap
    {
      if cacheMap == null then Complete else Partial(cacheMap[..])
    }

    constructor (realFilesize: nat, hasCrc: bool)
      ensures Valid() && Value() == Complete
      ensures this.realFilesize == realFilesize && this.hasCrc == hasCrc
    {
      this.realFilesize := realFilesize;
      this.virtualFilesize := AlignUp(realFilesize);
      this.hasCrc := hasCrc;
      this.cacheMap := null;
    }

    /** image_updateCachemap; `handed` collects the hash blocks passed to integrity_check, and `others` is what other
        threads make of the map during each of these calls. */
    method UpdateCachemap(start0: nat, end0: nat, set_: bool, others: seq<Cache>) returns (handed: seq<nat>)
      requires Valid() && AllFit(Complete, others, realFilesize)
      requires start0 <= end0 <= virtualFilesize
      modifies this, cacheMap
      ensures Valid() && (old(cacheMap) == null ==> cacheMap == null || fresh(cacheMap))
      ensures old(cacheMap) != null ==> cacheMap == old(cacheMap)
      ensures Updated(old(Value()), Value(), virtualFilesize, start0, end0, set_)
      ensures AllFit(Value(), others, realFilesize)
      ensures forall h <- handed ::
                set_ && hasCrc && CheckedComplete(Value(), others, AlignUp(start0) / HASH_BLOCK_SIZE, h, realFilesize)
      ensures set_ && hasCrc ==>
                forall h: nat | HashBlockCached(Value(), h, realFilesize)
                  && !HashBlockCached(old(Value()), h, realFilesize) ::
                  h in handed <==> CheckedComplete(Value(), others, AlignUp(start0) / HASH_BLOCK_SIZE, h, realFilesize)
    {
      handed := [];
      var start, end := start0, end0;
      Rounding(start0, virtualFilesize);
      Rounding(end0, virtualFilesize);
      if set_ {
        end := AlignDown(end);
        start := AlignUp(start);
      } else {
        start := AlignDown(start);
        end := AlignUp(end);
      }
      if start >= end {
        if set_ && cacheMap != null { RoundedSet(cacheMap[..], cacheMap[..], start0, end0); }
        return;
      }
      if cacheMap == null {
        if set_ { return; }
        cacheMap := new bv8[MapBytes(virtualFilesize)](_ => 0xff);
        assert cacheMap[..] == AllOnes(virtualFilesize);
      }
      ghost var before := cacheMap[..];
      var setNewBlocks := UpdateBits(start, end, set_);
      if set_ { RoundedSet(before, cacheMap[..], start0, end0); }
      else { RoundedClear(before, cacheMap[..], start0, end0); }
      if set_ && hasCrc { handed := HandOverNew(before, Value(), others, start, end, setNewBlocks, realFilesize); }
    }

    /** One store of the bit loop. */
    method WriteMapBit(pos: nat, set_: bool)
      requires Valid() && cacheMap != null && pos / MAP_BYTE_SIZE < cacheMap.Length
      modifies cacheMap
      ensures cacheMap[..] == old(cacheMap[..])[pos / MAP_BYTE_SIZE :=
                WrittenByte(old(cacheMap[..])[pos / MAP_BYTE_SIZE], pos / BLOCK_SIZE % 8, set_)]
    {
      var y, x := pos / MAP_BYTE_SIZE, pos / BLOCK_SIZE % 8;
      cacheMap[y] := WrittenByte(cacheMap[y], x, set_);
    }

    /** The bit loop of image_updateCachemap on block-aligned borders. */
    method UpdateBits(start: nat, end: nat, set_: bool) returns (setNewBlocks: bool)
      requires Valid() && cacheMap != null
      requires start % BLOCK_SIZE == 0 && end % BLOCK_SIZE == 0 && start < end <= virtualFilesize
      modifies cacheMap
      ensures BitsWritten(old(cacheMap[..]), cacheMap[..], start / BLOCK_SIZE, end / BLOCK_SIZE, set_)
      ensures setNewBlocks <==> set_ && !RunSet(old(cacheMap[..]), start / BLOCK_SIZE, end / BLOCK_SIZE)
    {
      setNewBlocks := false;
      var pos := start;
      ghost var b0, b := start / BLOCK_SIZE, start / BLOCK_SIZE;
      ghost var before := cacheMap[..];
      BlocksFit(virtualFilesize);
      while pos < end
        invariant pos == b * BLOCK_SIZE && b0 <= b <= end / BLOCK_SIZE
        invariant BitsWritten(before, cacheMap[..], b0, b, set_)
        invariant setNewBlocks <==> set_ && !RunSet(before, b0, b)
        decreases end - pos
      {
        MapPosition(pos, b, end);
        WriteBit(before, cacheMap[..], b0, b, set_);
        if set_ && cacheMap[pos / MAP_BYTE_SIZE] & Mask(pos / BLOCK_SIZE % 8) == 0 { setNewBlocks := true; }
        WriteMapBit(pos, set_);
        pos := pos + BLOCK_SIZE;
        b := b + 1;
      }
    }

    /** image_isComplete: drops the map once it is complete. */
    method IsComplete() returns (complete: bool)
      requires Valid()
      modifies this
      ensures Valid()
      ensures complete <==> virtualFilesize != 0 && old(AllCached(Value(), virtualFilesize))
      ensures Value() == if complete then Complete else old(Value())
      ensures !complete ==> cacheMap == old(cacheMap)
    {
      if virtualFilesize == 0 { return false; }
      if cacheMap == null { return true; }
      complete := MapComplete(cacheMap[..], virtualFilesize);
      if !complete { return false; }
      cacheMap := null;
    }

    /** The check in front of a local answer to CMD_GET_BLOCK: middle bytes, first byte, last byte. */
    method RangeCached(offset: nat, size: nat) returns (isCached: bool)
      requires Valid()
      requires 0 < size && offset + size <= virtualFilesize
      ensures isCached <==> TouchedCached(Value(), offset, offset + size)
      ensures isCached <==>
                cacheMap == null || forall k: nat | offset / 4096 <= k < (offset + size + 4095) / 4096 ::
                  k < 8 * cacheMap.Length && BlockSet(cacheMap[..], k)
    {
      if cacheMap == null { return true; }
      ghost var m := cacheMap[..];
      isCached := RunCached(cacheMap[..], AlignDown(offset), AlignUp(offset + size));
      assert AlignDown(offset) / BLOCK_SIZE == offset / BLOCK_SIZE;
      assert AlignUp(offset + size) / BLOCK_SIZE == BlockUp(offset + size);
      assert isCached == RunSet(m, offset / BLOCK_SIZE, BlockUp(offset + size));
      TouchedRun(m, offset, offset + size);
      assert isCached <==> TouchedCached(Partial(m), offset, offset + size);
    }
  }

  lemma SameHashBlocks(realFilesize: nat)
    ensures HashBlocks(realFilesize) == HashBlocks(AlignUp(realFilesize))
    ensures BlockUp(realFilesize) == BlockUp(AlignUp(realFilesize))
  {
  }

  lemma HashBlockOf(k: nat, size: nat)
    requires k < BlockUp(size)
    ensures var h := k / BLOCKS_PER_HASH_BLOCK;
            h * BLOCKS_PER_HASH_BLOCK <= k < (h + 1) * BLOCKS_PER_HASH_BLOCK && h < HashBlocks(size)
  {
  }

  /** image_isComplete's notion and the per-hash-block notion agree, on the real and on the virtual size. */
  lemma CompletenessNotionsAgree(c: Cache, realFilesize: nat)
    requires Fits(c, AlignUp(realFilesize))
    ensures HashBlocks(realFilesize) == HashBlocks(AlignUp(realFilesize))
    ensures AllCached(c, AlignUp(realFilesize)) <==>
            forall h: nat | h < HashBlocks(realFilesize) :: HashBlockCached(c, h, realFilesize)
  {
    SameHashBlocks(realFilesize);
    if forall h: nat | h < HashBlocks(realFilesize) :: HashBlockCached(c, h, realFilesize) {
      forall k: nat | k < BlockUp(AlignUp(realFilesize)) ensures Cached(c, k) {
        HashBlockOf(k, realFilesize);
        assert HashBlockCached(c, k / BLOCKS_PER_HASH_BLOCK, realFilesize);
      }
    }
  }
}
