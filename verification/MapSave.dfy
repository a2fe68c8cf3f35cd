/** Saving the cache map (src/server/uplink.c 1055-1081): every write call starts again at byte 0 of the map while the
    position in the file moves on. */
module MapSave {
  import opened Blocks
  import opened Wrappers

  /** One write call: some bytes went out (none is unexpected), EINTR, any other error. When the results are used up,
      the next call writes everything that is left. */
  datatype Write = Wrote(n: nat) | Interrupted | Failed

  /** How many bytes a call writes when `left` are left. */
  function Amount(n: nat, left: nat): nat { if n < left then n else left }

  /** Which byte of the map ends up at position p of the file when the loop goes on from position `done`; None if
      nothing is written there any more. */
  function Landed(size: nat, done: nat, writes: seq<Write>, p: nat): (q: Option<nat>)
    requires done <= size && p < size
    ensures q.Some? ==> q.value <= p
    ensures p < done ==> q.None?
    decreases |writes|
  {
    if done == size then None
    else if writes == [] then if p < done then None else Some(p - done)
    else if writes[0].Interrupted? then Landed(size, done, writes[1..], p)
    else if writes[0].Failed? || writes[0].n == 0 then None
    else
      var k := Amount(writes[0].n, size - done);
      if done <= p < done + k then Some(p - done) else Landed(size, done + k, writes[1..], p)
  }

  /** Byte p of the file in the end, if the loop goes on from `done` with this content. */
  function Byte(m: seq<bv8>, was: seq<bv8>, done: nat, writes: seq<Write>, p: nat): bv8
    requires done <= |m| == |was| && p < |m|
  {
    var q := Landed(|m|, done, writes, p);
    if q.Some? then m[q.value] else was[p]
  }

  /** The map file after the write loop; `was` is its content before. A file that is too short counts as filled up with
      zeros, as it is when the map is loaded. */
  function Saved(m: seq<bv8>, was: seq<bv8>, writes: seq<Write>): (r: seq<bv8>)
    requires |m| == |was|
    ensures |r| == |m| && forall p: nat | p < |m| :: r[p] == Byte(m, was, 0, writes, p)
  {
    seq(|m|, p requires 0 <= p < |m| => Byte(m, was, 0, writes, p))
  }

  /** The write loop of uplink_saveCacheMap. */
  method SaveMap(map_: seq<bv8>, mapFile: array<bv8>, writes: seq<Write>)
    requires mapFile.Length == |map_|
    modifies mapFile
    ensures mapFile[..] == Saved(map_, old(mapFile[..]), writes)
  {
    var done: nat, todo := 0, writes;
    ghost var result := Saved(map_, mapFile[..], writes);
    while done < |map_|
      invariant done <= |map_|
      invariant forall p: nat | p < |map_| :: result[p] == Byte(map_, mapFile[..], done, todo, p)
      decreases |todo|, |map_| - done
    {
      var n := |map_| - done;
      ghost var was, before := mapFile[..], todo;
      if todo != [] {
        var ret := todo[0];
        todo := todo[1..];
        if ret.Interrupted? { continue; }
        if ret.Failed? || ret.n == 0 {
          assert forall p: nat | p < |map_| :: Byte(map_, was, done, before, p) == mapFile[p];
          break;
        }
        n := Amount(ret.n, n);
      }
      forall i | done <= i < done + n { mapFile[i] := map_[i - done]; }
      forall p: nat | p < |map_|
        ensures Byte(map_, mapFile[..], done + n, todo, p) == Byte(map_, was, done, before, p)
      {
      }
      done := done + n;
    }
    assert mapFile[..] == result;
  }

  /** Every byte that is written lands in its own place: no second call writes anything. */
  ghost predicate InPlace(size: nat, writes: seq<Write>) {
    forall p: nat | p < size :: Landed(size, 0, writes, p) in {None, Some(p)}
  }

  /** No error ends the loop early. */
  predicate NoError(writes: seq<Write>) { forall w <- writes :: w.Interrupted? || (w.Wrote? && w.n > 0) }

  lemma {:induction false} AllLand(size: nat, done: nat, writes: seq<Write>, p: nat)
    requires done <= p < size && NoError(writes)
    ensures Landed(size, done, writes, p).Some?
    decreases |writes|
  {
    if writes != [] {
      if writes[0].Interrupted? { AllLand(size, done, writes[1..], p); } else {
        var k := Amount(writes[0].n, size - done);
        if p >= done + k { AllLand(size, done + k, writes[1..], p); }
      }
    }
  }

  /** How much these calls write at most. */
  function Written(writes: seq<Write>): nat {
    if writes == [] then 0 else (if writes[0].Wrote? then writes[0].n else 0) + Written(writes[1..])
  }

  /** The first error ends the loop: what the calls before it did not reach keeps its old content, whatever calls the
      list names behind it. */
  lemma {:induction false} NoneLandBehind(size: nat, done: nat, writes: seq<Write>, error: Write, more: seq<Write>,
                                          p: nat)
    requires done <= size && p < size && NoError(writes) && (error.Failed? || error == Wrote(0))
    ensures done + Written(writes) <= p ==> Landed(size, done, writes + [error] + more, p).None?
    ensures done <= p < done + Written(writes) ==> Landed(size, done, writes + [error] + more, p).Some?
    decreases |writes|
  {
    var all := writes + [error] + more;
    if writes == [] {
      assert all[0] == error;
    } else if done < size {
      assert all[0] == writes[0] && all[1..] == writes[1..] + [error] + more;
      var k := if writes[0].Wrote? then Amount(writes[0].n, size - done) else 0;
      NoneLandBehind(size, done + k, writes[1..], error, more, p);
    }
  }

  lemma ErrorEndsTheLoop(m: seq<bv8>, was: seq<bv8>, writes: seq<Write>, error: Write, more: seq<Write>)
    requires |was| == |m| && (forall w <- writes :: w.Interrupted? || (w.Wrote? && w.n > 0))
    requires error.Failed? || error == Wrote(0)
    ensures forall p: nat | Written(writes) <= p < |m| :: Saved(m, was, writes + [error] + more)[p] == was[p]
    ensures forall p: nat | p < |m| && p < Written(writes) :: Saved(m, was, writes + [error] + more)[p] in m
  {
    forall p: nat | p < |m|
      ensures Written(writes) <= p ==> Saved(m, was, writes + [error] + more)[p] == was[p]
      ensures p < Written(writes) ==> Saved(m, was, writes + [error] + more)[p] in m
    {
      NoneLandBehind(|m|, 0, writes, error, more, p);
    }
  }

  /** One short write brings any earlier byte of the map to position p. */
  function Shifted(q: nat, p: nat): seq<Write>
    requires q <= p
  {
    if q == p then [] else [Wrote(p - q)]
  }

  lemma ShiftedLands(size: nat, q: nat, p: nat)
    requires q <= p < size
    ensures Landed(size, 0, Shifted(q, p), p) == Some(q) && NoError(Shifted(q, p))
  {
    if q < p {
      var rest := Shifted(q, p)[1..];
      assert Landed(size, p - q, rest, p) == Some(q);
    }
  }

  ghost predicate AllEqual(m: seq<bv8>) { forall y: nat | y < |m| :: m[y] == m[0] }

  /** Without errors, every pattern of short writes saves the map exactly if and only if all its bytes are equal. */
  lemma AlwaysExactIffAllEqual(m: seq<bv8>, was: seq<bv8>)
    requires |was| == |m|
    ensures (forall writes: seq<Write> | NoError(writes) :: Saved(m, was, writes) == m) <==> AllEqual(m)
  {
    if AllEqual(m) {
      forall writes: seq<Write> | NoError(writes) ensures Saved(m, was, writes) == m {
        forall p: nat | p < |m| ensures Saved(m, was, writes)[p] == m[p] {
          AllLand(|m|, 0, writes, p);
        }
      }
    } else {
      var y: nat :| y < |m| && m[y] != m[0];
      ShiftedLands(|m|, 0, y);
      assert Saved(m, was, Shifted(0, y))[y] != m[y];
    }
  }

  /** Of the first `blocks` blocks, file f calls no more cached than map m does. */
  ghost predicate ClaimsOnly(f: seq<bv8>, m: seq<bv8>, blocks: nat) {
    |f| == |m| && forall p: nat, x: nat | p < |m| && x < 8 && 8 * p + x < blocks && Bit(f[p], x) :: Bit(m[p], x)
  }

  /** Each map byte has at least the bits of every byte before it, as far as they name one of the first blocks. */
  ghost predicate Growing(m: seq<bv8>, blocks: nat) {
    forall q: nat, p: nat, x: nat | q <= p < |m| && x < 8 && 8 * p + x < blocks && Bit(m[q], x) :: Bit(m[p], x)
  }

  /** The saved file never claims a block that the map lacks, whatever the write calls do, if and only if the bytes of
      the map only gain bits from one to the next. */
  lemma NeverClaimsMoreIffGrowing(m: seq<bv8>, was: seq<bv8>, blocks: nat)
    requires ClaimsOnly(was, m, blocks)
    ensures (forall writes: seq<Write> :: ClaimsOnly(Saved(m, was, writes), m, blocks)) <==> Growing(m, blocks)
  {
    if !Growing(m, blocks) {
      var q: nat, p: nat, x: nat :| q <= p < |m| && x < 8 && 8 * p + x < blocks && Bit(m[q], x) && !Bit(m[p], x);
      ShiftedLands(|m|, q, p);
      assert Bit(Saved(m, was, Shifted(q, p))[p], x);
    }
  }

  /** One call that writes everything, after any interruptions, saves the map; a map of two bytes saved in two calls
      claims blocks 8 to 15 although the map does not. */
  lemma SingleCallSaves(m: seq<bv8>, was: seq<bv8>)
    requires |was| == |m|
    ensures Saved(m, was, []) == m && (m != [] ==> Saved(m, was, [Interrupted, Wrote(|m|)]) == m)
    ensures Saved([0xff, 0], [0, 0], [Wrote(1)]) == [0xff, 0xff]
    ensures !BlockSet([0xff, 0], 8) && BlockSet([0xff, 0xff], 8)
  {
    forall p: nat | p < |m| ensures Saved(m, was, [])[p] == m[p] { }
    if m != [] {
      var both: seq<Write> := [Interrupted, Wrote(|m|)];
      assert both[1..] == [Wrote(|m|)];
      forall p: nat | p < |m| ensures Saved(m, was, both)[p] == m[p] {
        assert Landed(|m|, 0, both, p) == Landed(|m|, 0, [Wrote(|m|)], p) == Some(p);
      }
    }
    ZeroByte(0);
    FullByte(0xff);
    ShiftedLands(2, 0, 1);
  }
}
