/** The search for a hash block worth completing (uplink.c 689-741). */
module HashBlockSearch {
  import opened Blocks
  import CacheMap

  /** `x & MAP_INDEX_HASH_START_MASK` */
  function HashStart(x: nat): nat { x / MAP_BYTES_PER_HASH_BLOCK * MAP_BYTES_PER_HASH_BLOCK }

  /** A map byte with nothing left to replicate; the last one counts as full once it was requested. */
  predicate IsFull(m: seq<bv8>, lastDone: bool, i: nat)
    requires i < |m|
  {
    m[i] == 0xff || (i + 1 == |m| && lastDone)
  }

  /** A map byte of which nothing is there yet. */
  predicate IsEmpty(m: seq<bv8>, lastDone: bool, i: nat)
    requires i < |m|
  {
    m[i] == 0 && !IsFull(m, lastDone, i)
  }

  predicate IsPartial(m: seq<bv8>, lastDone: bool, i: nat)
    requires i < |m|
  {
    m[i] != 0 && !IsFull(m, lastDone, i)
  }

  /** b is the first map byte of a hash block. */
  predicate IsStart(m: seq<bv8>, b: nat) { b < |m| && HashStart(b) == b }

  /** Map byte i belongs to the hash block that starts at b. */
  predicate InBlock(m: seq<bv8>, b: nat, i: nat) { b <= i < b + MAP_BYTES_PER_HASH_BLOCK && i < |m| }

  /** The hash block at b is either full or empty, byte for byte. */
  ghost predicate Uniform(m: seq<bv8>, lastDone: bool, b: nat) {
    || (forall i: nat | InBlock(m, b, i) :: IsFull(m, lastDone, i))
    || (forall i: nat | InBlock(m, b, i) :: IsEmpty(m, lastDone, i))
  }

  ghost predicate AllUniform(m: seq<bv8>, lastDone: bool) {
    forall b: nat | IsStart(m, b) :: Uniform(m, lastDone, b)
  }

  /** The hash block at b holds no data at all. */
  ghost predicate AllZero(m: seq<bv8>, b: nat) { forall i: nat | InBlock(m, b, i) :: m[i] == 0 }

  /** The start of the next hash block; the first one follows the last. */
  function FollowingBlock(m: seq<bv8>, b: nat): nat {
    if b + MAP_BYTES_PER_HASH_BLOCK < |m| then b + MAP_BYTES_PER_HASH_BLOCK else 0
  }

  /** What the search promises about the byte it returns. */
  ghost predicate GoodFind(m: seq<bv8>, lastDone: bool, r: nat) {
    && r < |m| && m[r] != 0xff
    && (|| !Uniform(m, lastDone, HashStart(r))
        || (IsStart(m, r) && AllZero(m, r) && IsPartial(m, lastDone, FollowingBlock(m, r))))
  }

  /** How many bytes after s, cyclically, byte i is visited. */
  function Turn(m: seq<bv8>, s: nat, i: nat): nat
    requires s <= |m| && i < |m|
  {
    if i >= s then i - s else i + |m| - s
  }

  lemma Twice(q: nat, n: nat)
    requires q >= 2
    ensures q * n >= 2 * n
  {
  }

  lemma Wrap(x: nat, n: nat)
    requires 0 < n && x < 2 * n
    ensures x % n == if x < n then x else x - n
  {
    var q, r := x / n, x % n;
    assert x == q * n + r;
    assert q < 2 by { if q >= 2 { Twice(q, n); } }
  }

  /** `x % n` for an index that wraps around at most once. */
  method Modulo(x: nat, n: nat) returns (r: nat)
    requires 0 < n && x < 2 * n
    ensures r == if x < n then x else x - n
  {
    Wrap(x, n);
    r := x % n;
  }

  /** The byte visited at turn j when the visit starts at s. */
  function Visited(m: seq<bv8>, s: nat, j: nat): int { if s + j < |m| then s + j else s + j - |m| }

  lemma Borders(i: nat)
    ensures HashStart(i) <= i < HashStart(i) + MAP_BYTES_PER_HASH_BLOCK && HashStart(HashStart(i)) == HashStart(i)
    ensures HashStart(i + 1) == i + 1 ==> i + 1 == HashStart(i) + MAP_BYTES_PER_HASH_BLOCK
    ensures HashStart(i + 1) != i + 1 ==> HashStart(i + 1) == HashStart(i)
    ensures HashStart(HashStart(i) + MAP_BYTES_PER_HASH_BLOCK) == HashStart(i) + MAP_BYTES_PER_HASH_BLOCK
  {
  }

  /** The bytes of the current hash block seen so far, `prev` being the last one: all full when there is no
      candidate, all without data when its start is the candidate. */
  ghost predicate Prefix(m: seq<bv8>, lastDone: bool, retval: int, prev: nat)
    requires prev < |m|
  {
    var b := HashStart(prev);
    if retval == -1 then m[b] != 0 && forall x: nat | b <= x <= prev :: IsFull(m, lastDone, x)
    else retval == b && forall x: nat | b <= x <= prev :: m[x] == 0 && (x == b || IsEmpty(m, lastDone, x))
  }

  /** Every hash block left behind is uniform. */
  ghost predicate Behind(m: seq<bv8>, lastDone: bool, s: nat, j: nat, prev: nat)
    requires s <= |m| && prev < |m|
  {
    forall b: nat | IsStart(m, b) && Turn(m, s, b) < j && b != HashStart(prev) :: Uniform(m, lastDone, b)
  }

  lemma BlockOf(m: seq<bv8>, i: nat)
    requires i < |m|
    ensures IsStart(m, HashStart(i)) && InBlock(m, HashStart(i), i)
    ensures forall b: nat | IsStart(m, b) && InBlock(m, b, i) :: b == HashStart(i)
  {
  }

  /** A finished hash block is uniform. */
  lemma Finished(m: seq<bv8>, lastDone: bool, retval: int, prev: nat)
    requires prev < |m| && Prefix(m, lastDone, retval, prev)
    requires prev + 1 == |m| || HashStart(prev + 1) == prev + 1
    ensures Uniform(m, lastDone, HashStart(prev))
    ensures retval != -1 ==> AllZero(m, HashStart(prev))
  {
    var b := HashStart(prev);
    forall i: nat | InBlock(m, b, i) ensures i <= prev {
    }
    if retval != -1 && IsFull(m, lastDone, b) {
      assert b + 1 == |m|;
      assert forall i: nat | InBlock(m, b, i) :: i == b;
    }
  }

  /** One more byte: i is visited at turn j, after prev. */
  predicate Follows(m: seq<bv8>, s: nat, j: nat, prev: nat, i: nat) {
    && s < |m| && prev < |m| && i < |m| && 0 < j < |m|
    && Turn(m, s, prev) == j - 1 && Turn(m, s, i) == j && i == if prev + 1 < |m| then prev + 1 else 0
  }

  /** Entering a new hash block leaves a uniform one behind. */
  lemma NewBlock(m: seq<bv8>, lastDone: bool, s: nat, j: nat, retval: int, prev: nat, i: nat)
    requires IsStart(m, s) && Follows(m, s, j, prev, i) && HashStart(i) == i
    requires Prefix(m, lastDone, retval, prev) && Behind(m, lastDone, s, j, prev)
    ensures Behind(m, lastDone, s, j + 1, i)
    ensures i == FollowingBlock(m, HashStart(prev))
  {
    Borders(prev);
    Finished(m, lastDone, retval, prev);
  }

  /** Staying in the same hash block. */
  lemma SameBlock(m: seq<bv8>, lastDone: bool, s: nat, j: nat, retval: int, prev: nat, i: nat)
    requires IsStart(m, s) && Follows(m, s, j, prev, i) && HashStart(i) != i
    requires Prefix(m, lastDone, retval, prev) && Behind(m, lastDone, s, j, prev)
    ensures Behind(m, lastDone, s, j + 1, i)
    ensures i == prev + 1 && HashStart(i) == HashStart(prev) && InBlock(m, HashStart(i), prev)
    ensures InBlock(m, HashStart(i), i)
  {
    Borders(prev);
  }

  /** After the last turn nothing is left out. */
  lemma AllBehind(m: seq<bv8>, lastDone: bool, s: nat, retval: int, prev: nat)
    requires IsStart(m, s) && prev < |m| && Turn(m, s, prev) == |m| - 1
    requires Prefix(m, lastDone, retval, prev) && Behind(m, lastDone, s, |m|, prev)
    ensures AllUniform(m, lastDone)
  {
    Finished(m, lastDone, retval, prev);
  }

  /** A full byte and one that is not full mix their hash block. */
  lemma Mixed(m: seq<bv8>, lastDone: bool, b: nat, x: nat, y: nat)
    requires InBlock(m, b, x) && InBlock(m, b, y) && IsFull(m, lastDone, x) && !IsFull(m, lastDone, y)
    ensures !Uniform(m, lastDone, b)
  {
  }

  /** Up to byte i, the hash block of i is full or empty. */
  ghost predicate UniformUpTo(m: seq<bv8>, lastDone: bool, i: nat)
    requires i < |m|
  {
    Prefix(m, lastDone, -1, i) || Prefix(m, lastDone, HashStart(i), i)
  }

  /** Visiting the map from s, the first j bytes keep their hash blocks uniform. */
  ghost predicate UniformSoFar(m: seq<bv8>, lastDone: bool, s: nat, j: nat)
    requires s <= |m|
  {
    forall x: nat | x < |m| && Turn(m, s, x) < j :: UniformUpTo(m, lastDone, x)
  }

  /** Byte i is the first that spoils its hash block. */
  ghost predicate FirstMixed(m: seq<bv8>, lastDone: bool, s: nat, i: nat) {
    s <= |m| && i < |m| && !UniformUpTo(m, lastDone, i) && UniformSoFar(m, lastDone, s, Turn(m, s, i))
  }

  /** What the loop has found out after j bytes, the last of them `prev`. */
  ghost predicate Scanned(m: seq<bv8>, lastDone: bool, s: nat, j: nat, retval: int, prev: nat) {
    && IsStart(m, s) && j <= |m| && UniformSoFar(m, lastDone, s, j)
    && if j == 0 then retval == -1 else
       prev < |m| && Turn(m, s, prev) == j - 1 && Prefix(m, lastDone, retval, prev) && Behind(m, lastDone, s, j, prev)
  }

  /** The search stops at a partial byte, at a full byte after an empty one, at an empty byte after a full one. */
  predicate Stops(m: seq<bv8>, lastDone: bool, retval: int, i: nat)
    requires i < |m|
  {
    IsPartial(m, lastDone, i) || (HashStart(i) != i && (IsFull(m, lastDone, i) <==> retval != -1))
  }

  lemma Stop(m: seq<bv8>, lastDone: bool, s: nat, j: nat, retval: int, prev: nat, i: nat)
    requires Scanned(m, lastDone, s, j, retval, prev) && j < |m| && i == Visited(m, s, j)
    requires Stops(m, lastDone, retval, i)
    ensures !AllUniform(m, lastDone)
    ensures GoodFind(m, lastDone, if retval == -1 then i else retval)
  {
    BlockOf(m, i);
    if j > 0 {
      assert Follows(m, s, j, prev, i);
      BlockOf(m, prev);
      if HashStart(i) != i {
        SameBlock(m, lastDone, s, j, retval, prev, i);
        if IsFull(m, lastDone, i) { Mixed(m, lastDone, HashStart(i), i, HashStart(i)); }
        if !IsFull(m, lastDone, i) && retval == -1 { Mixed(m, lastDone, HashStart(i), prev, i); }
      } else if retval != -1 {
        NewBlock(m, lastDone, s, j, retval, prev, i);
        Finished(m, lastDone, retval, prev);
      }
    }
    assert !Uniform(m, lastDone, HashStart(i));
  }

  /** The candidate after a byte that does not stop the search. */
  function Candidate(m: seq<bv8>, retval: int, i: nat): int
    requires i < |m|
  {
    if HashStart(i) == i then if m[i] == 0 then i else -1 else retval
  }

  lemma SoFar(m: seq<bv8>, lastDone: bool, s: nat, j: nat, i: nat)
    requires s < |m| && j < |m| && i == Visited(m, s, j)
    requires UniformSoFar(m, lastDone, s, j) && UniformUpTo(m, lastDone, i)
    ensures UniformSoFar(m, lastDone, s, j + 1)
  {
  }

  lemma GoPrefix(m: seq<bv8>, lastDone: bool, s: nat, j: nat, retval: int, prev: nat, i: nat)
    requires Scanned(m, lastDone, s, j, retval, prev) && j < |m| && i == Visited(m, s, j)
    requires !Stops(m, lastDone, retval, i)
    ensures Prefix(m, lastDone, Candidate(m, retval, i), i)
  {
    BlockOf(m, i);
    if j > 0 && HashStart(i) != i {
      assert Follows(m, s, j, prev, i);
      SameBlock(m, lastDone, s, j, retval, prev, i);
    }
  }

  lemma Go(m: seq<bv8>, lastDone: bool, s: nat, j: nat, retval: int, prev: nat, i: nat)
    requires Scanned(m, lastDone, s, j, retval, prev) && j < |m| && i == Visited(m, s, j)
    requires !Stops(m, lastDone, retval, i)
    ensures Scanned(m, lastDone, s, j + 1, Candidate(m, retval, i), i)
  {
    GoPrefix(m, lastDone, s, j, retval, prev, i);
    SoFar(m, lastDone, s, j, i);
    if j > 0 {
      assert Follows(m, s, j, prev, i);
      if HashStart(i) == i { NewBlock(m, lastDone, s, j, retval, prev, i); }
      else { SameBlock(m, lastDone, s, j, retval, prev, i); }
    }
  }

  function Before(m: seq<bv8>, i: nat): nat
    requires i < |m|
  {
    if i > 0 then i - 1 else |m| - 1
  }

  /** The candidate left over from the preceding hash block shadows byte i. */
  predicate CarriedOver(m: seq<bv8>, s: nat, i: nat)
    requires i < |m|
  {
    HashStart(i) == i && i != s && m[HashStart(Before(m, i))] == 0
  }

  /** The byte the search answers when i is the first that spoils its hash block. */
  function Answer(m: seq<bv8>, s: nat, i: nat): nat
    requires i < |m|
  {
    if HashStart(i) == i then if CarriedOver(m, s, i) then HashStart(Before(m, i)) else i
    else if m[HashStart(i)] == 0 then HashStart(i) else i
  }

  lemma Spoils(m: seq<bv8>, lastDone: bool, retval: int, prev: nat, i: nat)
    requires i < |m|
    requires IsPartial(m, lastDone, i)
          || (prev < i && HashStart(prev) == HashStart(i) && HashStart(i) <= prev && Prefix(m, lastDone, retval, prev)
              && (IsFull(m, lastDone, i) <==> retval != -1))
    ensures !UniformUpTo(m, lastDone, i)
  {
    Borders(i);
    var b := HashStart(i);
    if IsPartial(m, lastDone, i) {
      assert !IsFull(m, lastDone, i) && m[i] != 0;
    } else if retval == -1 {
      assert m[b] != 0 && !IsFull(m, lastDone, i);
    } else {
      assert m[b] == 0 && !IsEmpty(m, lastDone, i);
    }
  }

  lemma StopAnswer(m: seq<bv8>, lastDone: bool, s: nat, j: nat, retval: int, prev: nat, i: nat)
    requires Scanned(m, lastDone, s, j, retval, prev) && j < |m| && i == Visited(m, s, j)
    requires Stops(m, lastDone, retval, i)
    ensures FirstMixed(m, lastDone, s, i) && !AllUniform(m, lastDone)
    ensures Answer(m, s, i) == (if retval == -1 then i else retval) && GoodFind(m, lastDone, Answer(m, s, i))
  {
    Stop(m, lastDone, s, j, retval, prev, i);
    BlockOf(m, i);
    if j > 0 {
      assert Follows(m, s, j, prev, i);
      assert prev == Before(m, i);
      BlockOf(m, prev);
      if HashStart(i) != i { SameBlock(m, lastDone, s, j, retval, prev, i); }
    }
    Spoils(m, lastDone, retval, prev, i);
  }

  lemma UniformPrefix(m: seq<bv8>, lastDone: bool, i: nat)
    requires i < |m| && Uniform(m, lastDone, HashStart(i))
    ensures UniformUpTo(m, lastDone, i)
  {
    Borders(i);
    var b := HashStart(i);
    assert InBlock(m, b, b);
    if IsFull(m, lastDone, b) {
      forall x: nat | b <= x <= i ensures IsFull(m, lastDone, x) { assert InBlock(m, b, x); }
      assert m[b] == 0 ==> i == b;
      assert Prefix(m, lastDone, if m[b] == 0 then b else -1, i);
    } else {
      forall x: nat | b <= x <= i ensures m[x] == 0 && IsEmpty(m, lastDone, x) { assert InBlock(m, b, x); }
      assert Prefix(m, lastDone, b, i);
    }
  }

  /** The hash block answered for is neither full nor empty, except exactly when a candidate was carried over. */
  lemma MixedUnlessCarriedOver(m: seq<bv8>, lastDone: bool, s: nat, i: nat)
    requires IsStart(m, s) && FirstMixed(m, lastDone, s, i)
    ensures Uniform(m, lastDone, HashStart(Answer(m, s, i))) <==> CarriedOver(m, s, i)
  {
    BlockOf(m, i);
    Borders(i);
    if CarriedOver(m, s, i) {
      var prev := Before(m, i);
      Borders(prev);
      assert Turn(m, s, prev) < Turn(m, s, i);
      assert UniformUpTo(m, lastDone, prev);
      Finished(m, lastDone, if Prefix(m, lastDone, -1, prev) then -1 else HashStart(prev), prev);
    } else {
      if Uniform(m, lastDone, HashStart(i)) { UniformPrefix(m, lastDone, i); }
    }
  }

  /** Only one byte is the first that spoils its hash block. */
  lemma FirstMixedUnique(m: seq<bv8>, lastDone: bool, s: nat, i: nat, k: nat)
    requires FirstMixed(m, lastDone, s, i) && FirstMixed(m, lastDone, s, k)
    ensures i == k
  {
  }

  /** A last byte that counts as full keeps its hash block uniform unless the block is empty so far. */
  lemma LastExtends(m: seq<bv8>)
    requires 0 < |m|
    requires var i := |m| - 1; HashStart(i) == i || (m[HashStart(i)] != 0 && UniformUpTo(m, true, i - 1))
    ensures UniformUpTo(m, true, |m| - 1)
  {
    var i: nat := |m| - 1;
    Borders(i);
    if HashStart(i) == i {
      assert Prefix(m, true, if m[i] == 0 then i else -1, i);
    } else {
      Borders(i - 1);
      assert Prefix(m, true, -1, i - 1);
    }
  }

  /** The last byte that counts as full is answered exactly if it is alone in its hash block and empty, and the byte
      visited behind it, byte 0, is the first that spoils its hash block. */
  lemma LastByteAgainIff(m: seq<bv8>, s: nat, i: nat)
    requires IsStart(m, s) && FirstMixed(m, true, s, i)
    ensures Answer(m, s, i) == |m| - 1 <==> i == 0 && s != 0 && HashStart(|m| - 1) == |m| - 1 && m[|m| - 1] == 0
  {
    Borders(i);
    Borders(s);
    if i == |m| - 1 {
      if HashStart(i) == i { LastExtends(m); }
      else {
        Borders(i - 1);
        assert UniformUpTo(m, true, i - 1);
        if m[HashStart(i)] != 0 { LastExtends(m); }
      }
    }
    Borders(Before(m, i));
  }

  /** An empty hash block followed by one whose first byte is partial: the empty one is answered. */
  lemma CarriedOverExample()
    ensures var m := seq(MAP_BYTES_PER_HASH_BLOCK + 1, i => if i < MAP_BYTES_PER_HASH_BLOCK then 0 else 1 as bv8);
            FirstMixed(m, false, 0, MAP_BYTES_PER_HASH_BLOCK) && CarriedOver(m, 0, MAP_BYTES_PER_HASH_BLOCK)
            && Answer(m, 0, MAP_BYTES_PER_HASH_BLOCK) == 0 && AllZero(m, 0)
  {
    var m := seq(MAP_BYTES_PER_HASH_BLOCK + 1, i => if i < MAP_BYTES_PER_HASH_BLOCK then 0 else 1 as bv8);
    forall x: nat | x < MAP_BYTES_PER_HASH_BLOCK ensures UniformUpTo(m, false, x) {
      assert HashStart(x) == 0 && Prefix(m, false, 0, x);
    }
    assert IsPartial(m, false, MAP_BYTES_PER_HASH_BLOCK);
    assert HashStart(MAP_BYTES_PER_HASH_BLOCK) == MAP_BYTES_PER_HASH_BLOCK;
  }

  /** A map byte that counts as replicated, written out. */
  ghost predicate Done(m: seq<bv8>, lastDone: bool, x: nat)
    requires x < |m|
  {
    m[x] == 0xff || (x == |m| - 1 && lastDone)
  }

  /** There is nothing to find exactly if any two map bytes of the same 512 are both done, or both zero and not done. */
  lemma AllUniformMeans(m: seq<bv8>, lastDone: bool)
    ensures AllUniform(m, lastDone) <==>
              forall x: nat, y: nat | x < |m| && y < |m| && x / 512 == y / 512 ::
                (Done(m, lastDone, x) && Done(m, lastDone, y))
                || (m[x] == 0 && !Done(m, lastDone, x) && m[y] == 0 && !Done(m, lastDone, y))
  {
    if AllUniform(m, lastDone) {
      forall x: nat, y: nat | x < |m| && y < |m| && x / 512 == y / 512
        ensures (Done(m, lastDone, x) && Done(m, lastDone, y))
                || (m[x] == 0 && !Done(m, lastDone, x) && m[y] == 0 && !Done(m, lastDone, y))
      {
        BlockOf(m, x);
        BlockOf(m, y);
        assert HashStart(x) == HashStart(y) && Uniform(m, lastDone, HashStart(x));
      }
    }
    if forall x: nat, y: nat | x < |m| && y < |m| && x / 512 == y / 512 ::
         (Done(m, lastDone, x) && Done(m, lastDone, y))
         || (m[x] == 0 && !Done(m, lastDone, x) && m[y] == 0 && !Done(m, lastDone, y))
    {
      forall b: nat | IsStart(m, b) ensures Uniform(m, lastDone, b) {
        forall i: nat | InBlock(m, b, i) ensures i / 512 == b / 512 { }
      }
    }
  }

  /** Where the search starts: the hash block of the given index, wrapping around behind the map. */
  function SearchStart(m: seq<bv8>, startMapIndex: nat): nat {
    if HashStart(startMapIndex) < |m| then HashStart(startMapIndex) else 0
  }

  /** The loop of uplink_findNextIncompleteHashBlock. */
  method Search(m: seq<bv8>, startMapIndex: nat, replicatedLastBlock: bool) returns (retval: int)
    requires 0 < |m| && startMapIndex <= |m|
    ensures retval == -1 <==> AllUniform(m, replicatedLastBlock)
    ensures retval != -1 ==> 0 <= retval && GoodFind(m, replicatedLastBlock, retval)
    ensures retval != -1 ==>
              var s := SearchStart(m, startMapIndex);
              exists i: nat :: FirstMixed(m, replicatedLastBlock, s, i) && retval == Answer(m, s, i)
  {
    retval := -1;
    var start := HashStart(startMapIndex);
    Borders(startMapIndex);
    ghost var s: nat := SearchStart(m, startMapIndex);
    var j: nat := 0;
    ghost var prev: nat := 0;
    while j < |m|
      invariant j <= |m| && Scanned(m, replicatedLastBlock, s, j, retval, prev)
    {
      var i := Modulo(start + j, |m|);
      var full := m[i] == 0xff || (i + 1 == |m| && replicatedLastBlock);
      var empty := m[i] == 0;
      if Stops(m, replicatedLastBlock, retval, i) {
        StopAnswer(m, replicatedLastBlock, s, j, retval, prev, i);
      } else {
        Go(m, replicatedLastBlock, s, j, retval, prev, i);
      }
      if !empty && !full {
        if retval == -1 { retval := i; }
        break;
      }
      if HashStart(i) == i {
        retval := if empty then i else -1;
      } else if full {
        if retval != -1 { break; }
      } else if empty {
        if retval == -1 {
          retval := i;
          break;
        }
      }
      prev := i;
      j := j + 1;
    }
    if j == |m| {
      AllBehind(m, replicatedLastBlock, s, retval, prev);
      retval := -1;
    }
  }

  /** uplink_findNextIncompleteHashBlock: without a map, or with an empty one, there is nothing to find. */
  method FindNextIncompleteHashBlock(cache: CacheMap.Cache, startMapIndex: nat, replicatedLastBlock: bool)
    returns (retval: int)
    requires cache.Partial? ==> startMapIndex <= |cache.bytes|
    ensures cache.Complete? ==> retval == -1
    ensures cache.Partial? ==> (retval == -1 <==> AllUniform(cache.bytes, replicatedLastBlock))
    ensures cache.Partial? && retval != -1 ==>
              var m, s := cache.bytes, SearchStart(cache.bytes, startMapIndex);
              && 0 <= retval && GoodFind(m, replicatedLastBlock, retval)
              && exists i: nat :: FirstMixed(m, replicatedLastBlock, s, i) && retval == Answer(m, s, i)
  {
    retval := -1;
    if cache.Partial? && |cache.bytes| > 0 {
      retval := Search(cache.bytes, startMapIndex, replicatedLastBlock);
    }
  }
}
