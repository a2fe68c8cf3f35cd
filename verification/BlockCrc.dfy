/** Checksums of hash blocks (src/server/image.c 1611-1651): read in pieces of any length, padded with zero bytes. */
module BlockCrc {
  import opened Blocks
  import opened Crc32
  import opened LocalFile
  import opened Wrappers

  const CHUNK: nat := 262144 // BSIZE

  function Min(a: int, b: int): int { if a <= b then a else b }

  /** Where hash block `block` ends in a file of the given size, counted up to a full 4 KiB block. */
  function BlockEnd(size: nat, block: nat): nat { Min((block + 1) * HASH_BLOCK_SIZE, AlignUp(size)) }

  lemma EndBounds(size: nat, block: nat)
    requires block * HASH_BLOCK_SIZE < size
    ensures size <= AlignUp(size) && AlignUp(AlignUp(size)) == AlignUp(size)
    ensures block * HASH_BLOCK_SIZE < BlockEnd(size, block) <= AlignUp(size)
  {
  }

  /** The bytes of a hash block of the file as a client sees it. */
  function BlockBytes(file: seq<bv8>, block: nat): seq<bv8>
    requires block * HASH_BLOCK_SIZE < |file|
  {
    EndBounds(|file|, block);
    Padded(file, AlignUp(|file|))[block * HASH_BLOCK_SIZE..BlockEnd(|file|, block)]
  }

  function NullBytes(n: nat): (z: seq<bv8>)
    ensures |z| == n
  {
    seq(n, _ => 0)
  }

  lemma BlockSplits(file: seq<bv8>, block: nat, actual: nat)
    requires block * HASH_BLOCK_SIZE < |file| && actual == Min(HASH_BLOCK_SIZE, |file| - block * HASH_BLOCK_SIZE)
    ensures block * HASH_BLOCK_SIZE + actual <= |file|
    ensures block * HASH_BLOCK_SIZE + actual <= BlockEnd(|file|, block)
    ensures BlockBytes(file, block) == file[block * HASH_BLOCK_SIZE..][..actual]
                                     + NullBytes(BlockEnd(|file|, block) - block * HASH_BLOCK_SIZE - actual)
  {
    EndBounds(|file|, block);
    var p, e := block * HASH_BLOCK_SIZE, BlockEnd(|file|, block);
    var all := Padded(file, AlignUp(|file|));
    assert all[p..e] == file[p..][..actual] + NullBytes(e - p - actual);
  }

  /** The checksum does not depend on whether the last 4 KiB block is padded on disk. */
  lemma PaddingIsIrrelevant(file: seq<bv8>, block: nat)
    requires block * HASH_BLOCK_SIZE < |file|
    ensures |file| <= AlignUp(|file|)
    ensures BlockBytes(Padded(file, AlignUp(|file|)), block) == BlockBytes(file, block)
  {
    EndBounds(|file|, block);
    var copy := Padded(file, AlignUp(|file|));
    assert Padded(copy, AlignUp(|copy|)) == copy;
  }

  lemma ReadStep(file: seq<bv8>, p: nat, bytes: nat, r: nat)
    requires p + bytes + r <= |file|
    ensures Crc(Crc(Zero(), file[p..][..bytes]), file[p + bytes..p + bytes + r]) == Crc(Zero(), file[p..][..bytes + r])
  {
    CrcConcat(Zero(), file[p..][..bytes], file[p + bytes..p + bytes + r]);
    assert file[p..][..bytes] + file[p + bytes..p + bytes + r] == file[p..][..bytes + r];
  }

  lemma NullStep(a: seq<bv8>, m: nat, n: nat)
    ensures Crc(Crc(Zero(), a + NullBytes(m)), NullBytes(n)) == Crc(Zero(), a + NullBytes(m + n))
  {
    CrcConcat(Zero(), a + NullBytes(m), NullBytes(n));
    assert a + NullBytes(m) + NullBytes(n) == a + NullBytes(m + n);
  }

  lemma Nothing(a: seq<bv8>)
    ensures a[..0] == [] && a + NullBytes(0) == a
  {
  }

  lemma CrcOfNothing()
    ensures Crc(Zero(), []) == Zero()
  {
    NotTwice(Zero());
  }

  /** How much the first k reads give when n bytes are wanted; a read gives no more than is asked for. */
  ghost function BytesRead(outcomes: seq<int>, n: nat, k: nat): (b: nat)
    requires k <= |outcomes|
    ensures b <= n
  {
    if k == 0 then 0 else
      var before := BytesRead(outcomes, n, k - 1);
      var got := Min(outcomes[k - 1], Min(CHUNK, n - before));
      before + if got > 0 then got else 0
  }

  lemma {:induction false} ReadsAdd(outcomes: seq<int>, n: nat, j: nat, k: nat)
    requires j <= k <= |outcomes|
    ensures BytesRead(outcomes, n, j) <= BytesRead(outcomes, n, k)
  {
    if j < k { ReadsAdd(outcomes, n, j, k - 1); }
  }

  /** A read fails, or finds the end of the file, while bytes are still wanted. */
  ghost predicate ReadFails(outcomes: seq<int>, n: nat) {
    exists k: nat :: k < |outcomes| && outcomes[k] <= 0 && BytesRead(outcomes, n, k) < n
  }

  /** The first loop of image_calcBlockCrc32: n bytes from position p of the file, as many at a time as pread gives.
      `outcomes` holds what the successive pread calls return. */
  method ReadPart(big: bool, crc: Word, file: seq<bv8>, p: nat, n: nat, outcomes: seq<int>, address: nat)
    returns (r: Option<Word>)
    requires p + n <= |file| && crc == Crc(Zero(), [])
    ensures r.Some? ==> r.value == Crc(Zero(), file[p..][..n])
    ensures r.None? ==> exists i :: 0 <= i < |outcomes| && outcomes[i] <= 0
    ensures r.None? <==> ReadFails(outcomes, n)
  {
    var c, bytes, call := crc, 0, 0;
    Nothing(file[p..]);
    while bytes < n
      invariant bytes <= n && c == Crc(Zero(), file[p..][..bytes])
      invariant call <= |outcomes| ==> bytes == BytesRead(outcomes, n, call)
      invariant forall k: nat | k < call && k < |outcomes| :: outcomes[k] > 0
    {
      var len := Min(CHUNK, n - bytes);
      var got := if call < |outcomes| then Min(outcomes[call], len) else len;
      if got <= 0 { return None; }
      ReadStep(file, p, bytes, got);
      c := Checksum(big, c, false, file[p + bytes..p + bytes + got], address);
      bytes := bytes + got;
      call := call + 1;
    }
    if k: nat :| k < |outcomes| && outcomes[k] <= 0 && BytesRead(outcomes, n, k) < n {
      ReadsAdd(outcomes, n, call, k);
    }
    return Some(c);
  }

  /** Its second loop: n more bytes, all zero. */
  method NullPart(big: bool, crc: Word, ghost data: seq<bv8>, n: nat, address: nat) returns (c: Word)
    requires crc == Crc(Zero(), data)
    ensures c == Crc(Zero(), data + NullBytes(n))
  {
    c := crc;
    var bytes := n;
    Nothing(data);
    while bytes != 0
      invariant 0 <= bytes <= n && c == Crc(Zero(), data + NullBytes(n - bytes))
    {
      var len := Min(CHUNK, bytes);
      NullStep(data, n - bytes, len);
      c := Checksum(big, c, false, NullBytes(len), address);
      bytes := bytes - len;
    }
  }

  /** image_calcBlockCrc32 */
  method CalcBlockCrc32(big: bool, file: seq<bv8>, block: nat, outcomes: seq<int>, address: nat)
    returns (crc: Option<Word>)
    requires block * HASH_BLOCK_SIZE < |file|
    ensures crc.Some? ==> crc.value == Held(big, Crc(Zero(), BlockBytes(file, block)))
    ensures crc.None? ==> exists i :: 0 <= i < |outcomes| && outcomes[i] <= 0
    ensures crc.None? <==> ReadFails(outcomes, Min(HASH_BLOCK_SIZE, |file| - block * HASH_BLOCK_SIZE))
  {
    var p := block * HASH_BLOCK_SIZE;
    var bytesFromFile := Min(HASH_BLOCK_SIZE, |file| - p);
    EndBounds(|file|, block);
    BlockSplits(file, block, bytesFromFile);
    var virtualBytesFromFile := Min(HASH_BLOCK_SIZE, AlignUp(|file|) - p);
    var c := Checksum(big, Zero(), true, [], address);
    CrcOfNothing();
    var fromFile := ReadPart(big, c, file, p, bytesFromFile, outcomes, address);
    if fromFile.None? { return None; }
    c := NullPart(big, fromFile.value, file[p..][..bytesFromFile], virtualBytesFromFile - bytesFromFile, address);
    return Some(Held(big, c));
  }

  /** An origin's file and its padded copy on a proxy have the same checksums, whatever the reads return. */
  method SameChecksum(big: bool, file: seq<bv8>, block: nat, outcomes: seq<int>, copyOutcomes: seq<int>, address: nat)
    returns (origin: Option<Word>, proxy: Option<Word>)
    requires block * HASH_BLOCK_SIZE < |file|
    ensures origin.Some? && proxy.Some? ==> origin == proxy
    ensures origin.Some? ==> origin.value == Held(big, Crc(Zero(), BlockBytes(file, block)))
    ensures proxy.Some? ==> proxy.value == Held(big, Crc(Zero(), BlockBytes(file, block)))
  {
    EndBounds(|file|, block);
    PaddingIsIrrelevant(file, block);
    origin := CalcBlockCrc32(big, file, block, outcomes, address);
    proxy := CalcBlockCrc32(big, Padded(file, AlignUp(|file|)), block, copyOutcomes, address);
  }
}
