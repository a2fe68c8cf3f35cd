/** Background replication (uplink.c 612-687, 891-913): which map byte is requested next. */
module Replication {
  import opened Blocks
  import opened CacheMap
  import opened HashBlockSearch
  import UplinkQueue
  import opened Wrappers

  type Range = UplinkQueue.Range

  datatype Mode = Disabled | Full | HashBlock

  /** nextReplicationIndex (-1: nothing to do), replicationHandle (None for REP_NONE), replicatedLastBlock. */
  datatype Rep = Rep(next: int, handle: Option<nat>, lastDone: bool)

  /** Where byte number j of a wrapping search lies in the map. */
  function Wrapped(m: seq<bv8>, j: nat): int { if j < |m| then j else j - |m| }

  ghost predicate AllFullBytes(m: seq<bv8>, lastDone: bool) { forall x: nat | x < |m| :: IsFull(m, lastDone, x) }

  /** i is the first byte, cyclically from `next`, that still has something to replicate. */
  ghost predicate FirstWanted(m: seq<bv8>, lastDone: bool, next: nat, i: nat) {
    && next <= |m| && i < |m| && !IsFull(m, lastDone, i)
    && forall x: nat | x < |m| && Turn(m, next, x) < Turn(m, next, i) :: IsFull(m, lastDone, x)
  }

  /** The bytes asked for when map byte i is requested. */
  function RequestFor(size: nat, i: nat): (r: Range)
    requires i < MapBytes(size)
    ensures r.lo < r.hi <= size && r.lo == i * MAP_BYTE_SIZE
    ensures r.hi == if (i + 1) * MAP_BYTE_SIZE <= size then (i + 1) * MAP_BYTE_SIZE else size
  {
    var offset := i * MAP_BYTE_SIZE;
    UplinkQueue.Range(offset, offset + if size - offset < MAP_BYTE_SIZE then size - offset else MAP_BYTE_SIZE)
  }

  /** The end of the search range in hash block mode. */
  function HashEnd(m: seq<bv8>, next: nat): nat {
    var e := HashStart(next + MAP_BYTES_PER_HASH_BLOCK);
    if e > |m| then |m| else e
  }

  /** i is the answer to the byte that first spoils its hash block. */
  ghost predicate Answered(m: seq<bv8>, lastDone: bool, s: nat, i: int) {
    exists k: nat :: FirstMixed(m, lastDone, s, k) && i == Answer(m, s, k)
  }

  /** What a search over all hash blocks from index `start` answers on the map it finds: -1 for nothing. */
  ghost predicate Found(c: Cache, lastDone: bool, start: nat, i: int) {
    if c.Complete? then i == -1
    else if i == -1 then AllUniform(c.bytes, lastDone)
    else 0 <= i && GoodFind(c.bytes, lastDone, i) && Answered(c.bytes, lastDone, SearchStart(c.bytes, start), i)
  }

  /** The rest of the current hash block has nothing to replicate. */
  ghost predicate BlockDone(m: seq<bv8>, r: Rep)
    requires 0 <= r.next <= |m|
  {
    forall x: nat | r.next <= x < HashEnd(m, r.next) :: IsFull(m, r.lastDone, x)
  }

  /** What one call may choose. m is the map it looks at first; `later` is the map when it looks again. */
  ghost predicate Chosen(m: seq<bv8>, later: Cache, mode: Mode, r: Rep, i: int)
    requires 0 <= r.next <= |m| && !mode.Disabled?
  {
    if mode.Full? then
      if i == -1 then AllFullBytes(m, r.lastDone) else 0 <= i && FirstWanted(m, r.lastDone, r.next, i)
    else if BlockDone(m, r) then Found(later, r.lastDone, HashEnd(m, r.next), i)
    else
      && r.next <= i < HashEnd(m, r.next) && !IsFull(m, r.lastDone, i)
      && forall x: nat | r.next <= x < i :: IsFull(m, r.lastDone, x)
  }

  /** Full mode asks for the first byte from `next` on that is not done, or else for the first one of all. */
  lemma FullModeChoice(m: seq<bv8>, later: Cache, r: Rep, i: int)
    requires 0 <= r.next <= |m| && Chosen(m, later, Full, r, i)
    ensures i == -1 <==> forall x: nat | x < |m| :: Done(m, r.lastDone, x)
    ensures i != -1 ==>
              && 0 <= i < |m| && !Done(m, r.lastDone, i)
              && (forall x: nat | r.next <= x < |m| && !Done(m, r.lastDone, x) :: r.next <= i <= x)
              && (i < r.next ==> forall x: nat | x < i :: Done(m, r.lastDone, x))
  {
    assert forall x: nat | x < |m| :: Done(m, r.lastDone, x) == IsFull(m, r.lastDone, x);
    if i != -1 {
      forall x: nat | r.next <= x < |m| && !Done(m, r.lastDone, x) ensures r.next <= i <= x {
        assert !(Turn(m, r.next, x) < Turn(m, r.next, i));
      }
      forall x: nat | x < i < r.next ensures Done(m, r.lastDone, x) {
        assert Turn(m, r.next, x) < Turn(m, r.next, i);
      }
    }
  }

  /** Hash block mode asks for the first byte from `next` on in the hash block of `next` that is not done, and looks
      elsewhere only if there is none. */
  lemma HashModeChoice(m: seq<bv8>, later: Cache, r: Rep, i: int)
    requires 0 <= r.next <= |m| && Chosen(m, later, HashBlock, r, i)
    ensures (exists x: nat :: r.next <= x < |m| && x / 512 == r.next / 512 && !Done(m, r.lastDone, x)) ==>
              && r.next <= i < |m| && i / 512 == r.next / 512 && !Done(m, r.lastDone, i)
              && forall x: nat | r.next <= x < i :: Done(m, r.lastDone, x)
    ensures later.Partial?
            && !(exists x: nat :: r.next <= x < |m| && x / 512 == r.next / 512 && !Done(m, r.lastDone, x)) ==>
              (i == -1 <==> AllUniform(later.bytes, r.lastDone))
  {
    assert forall x: nat | r.next <= x < |m| :: x < HashEnd(m, r.next) <==> x / 512 == r.next / 512;
    assert forall x: nat | x < |m| :: Done(m, r.lastDone, x) == IsFull(m, r.lastDone, x);
    if x: nat :| r.next <= x < |m| && x / 512 == r.next / 512 && !Done(m, r.lastDone, x) {
      assert !BlockDone(m, r);
    }
    if later.Partial? && i != -1 && AllUniform(later.bytes, r.lastDone) && BlockDone(m, r) {
      var s := SearchStart(later.bytes, HashEnd(m, r.next));
      var k: nat :| FirstMixed(later.bytes, r.lastDone, s, k) && i == Answer(later.bytes, s, k);
      BlockOf(later.bytes, k);
      UniformPrefix(later.bytes, r.lastDone, k);
    }
  }

  /** Where the next search starts after a request for byte i; `last` is the map when the call looks once more. */
  ghost predicate Continues(last: Cache, mode: Mode, lastDone: bool, i: nat, next: int) {
    if mode.HashBlock? && (i + 1) % MAP_BYTES_PER_HASH_BLOCK == 0 then Found(last, lastDone, i + 1, next)
    else next == i + 1
  }

  predicate SameSize(c: Cache, m: seq<bv8>) { c.Partial? ==> |c.bytes| == |m| }

  /** One call that finds replication enabled and idle. Each of its searches holds the image lock by itself: other
      threads may have changed the map to `later` before the second and to `last` before the third. */
  ghost predicate Requests(m: seq<bv8>, later: Cache, last: Cache, size: nat, mode: Mode, r: Rep, t: Rep, sendOk: bool,
                           sent: Option<Range>, i: int)
    requires |m| == MapBytes(size) && 0 <= r.next <= |m| && !mode.Disabled?
  {
    && Chosen(m, later, mode, r, i)
    && if i == -1 then t == r.(next := -1) && sent == None
       else
         && 0 <= i < |m| && t.handle == Some(i * MAP_BYTE_SIZE)
         && (!sendOk ==> t == r.(handle := t.handle) && sent == None)
         && (sendOk ==>
               && sent == Some(RequestFor(size, i)) && t.lastDone == (r.lastDone || i == |m| - 1)
               && Continues(last, mode, t.lastDone, i, t.next))
  }

  lemma WrappedTurn(m: seq<bv8>, next: nat, j: nat)
    requires next <= |m| && next <= j < next + |m|
    ensures 0 <= Wrapped(m, j) < |m| && Turn(m, next, Wrapped(m, j)) == j - next
    ensures forall x: nat | x < |m| :: Turn(m, next, x) == j - next ==> x == Wrapped(m, j)
  {
  }

  /** The search loop over the map bytes numbered next <= j < endByte, wrapping around. */
  method FindWanted(m: seq<bv8>, lastDone: bool, next: nat, endByte: nat) returns (replicationIndex: int)
    requires next <= |m| && endByte <= next + |m|
    ensures replicationIndex == -1 ==>
              forall x: nat | x < |m| && Turn(m, next, x) < endByte - next :: IsFull(m, lastDone, x)
    ensures replicationIndex != -1 ==>
              0 <= replicationIndex && FirstWanted(m, lastDone, next, replicationIndex)
              && Turn(m, next, replicationIndex) < endByte - next
  {
    replicationIndex := -1;
    var j := next;
    while j < endByte
      invariant next <= j && (j <= endByte || j == next)
      invariant forall x: nat | x < |m| && Turn(m, next, x) < j - next :: IsFull(m, lastDone, x)
    {
      var i := Modulo(j, |m|);
      WrappedTurn(m, next, j);
      if m[i] != 0xff && (i != |m| - 1 || !lastDone) {
        return i;
      }
      j := j + 1;
    }
  }

  /** In hash block mode the search does not wrap around. */
  lemma Straight(m: seq<bv8>, lastDone: bool, next: nat)
    requires next <= |m|
    ensures HashEnd(m, next) <= next + |m|
    ensures forall x: nat | x < |m| :: Turn(m, next, x) < HashEnd(m, next) - next <==> next <= x < HashEnd(m, next)
  {
  }

  /** The search of one call. */
  method Choose(m: seq<bv8>, later: Cache, mode: Mode, next: nat, lastDone: bool, ghost handle: Option<nat>)
    returns (replicationIndex: int)
    requires 0 < |m| && SameSize(later, m) && next <= |m| && !mode.Disabled?
    ensures Chosen(m, later, mode, Rep(next, handle, lastDone), replicationIndex) && -1 <= replicationIndex < |m|
  {
    var endByte := if mode.Full? then next + |m| else HashEnd(m, next);
    Straight(m, lastDone, next);
    replicationIndex := FindWanted(m, lastDone, next, endByte);
    if replicationIndex == -1 && mode.HashBlock? {
      replicationIndex := FindNextIncompleteHashBlock(later, endByte, lastDone);
    }
  }

  /** Where to start next time. */
  method Continue(ghost m: seq<bv8>, last: Cache, mode: Mode, lastDone: bool, index: nat) returns (next: int)
    requires index < |m| && SameSize(last, m)
    ensures Continues(last, mode, lastDone, index, next) && -1 <= next <= |m|
  {
    next := index + 1;
    if mode.HashBlock? && next % MAP_BYTES_PER_HASH_BLOCK == 0 {
      next := FindNextIncompleteHashBlock(last, next, lastDone);
    }
  }

  /** The replication state of an uplink. */
  class Link {
    const image: Image
    var nextReplicationIndex: int
    var replicationHandle: Option<nat>
    var replicatedLastBlock: bool

    constructor (image: Image)
      requires image.Valid()
      ensures this.image == image && Valid() && Value() == Rep(0, None, false)
    {
      this.image := image;
      nextReplicationIndex, replicationHandle, replicatedLastBlock := 0, None, false;
    }

    ghost predicate Valid()
      reads this, image
    {
      image.Valid() && -1 <= nextReplicationIndex <= MapBytes(image.virtualFilesize)
    }

    function Value(): Rep
      reads this
    {
      Rep(nextReplicationIndex, replicationHandle, replicatedLastBlock)
    }

    /** uplink_sendReplicationRequest; `sendOk` is the outcome of the send, `later` and `last` what other threads have
        made of the map when it is looked at again. */
    method SendReplicationRequest(connected: bool, cacheOpen: bool, mode: Mode, users: int, minClients: int,
                                  sendOk: bool, later: Cache, last: Cache)
      returns (sent: Option<Range>, ghost index: int)
      requires Valid() && Fits(later, image.virtualFilesize) && Fits(last, image.virtualFilesize)
      modifies this
      ensures Valid()
      ensures var idle := !connected || mode.Disabled? || !cacheOpen || old(nextReplicationIndex) == -1
                       || old(replicationHandle).Some? || image.virtualFilesize < BLOCK_SIZE
                       || image.cacheMap == null || users < minClients;
              if idle then Value() == old(Value()) && sent == None
              else Requests(image.cacheMap[..], later, last, image.virtualFilesize, mode, old(Value()), Value(), sendOk,
                            sent, index)
    {
      sent, index := None, -1;
      if !connected { return; }
      if mode.Disabled? || !cacheOpen { return; }
      if nextReplicationIndex == -1 || replicationHandle.Some? { return; }
      if image.virtualFilesize < BLOCK_SIZE { return; }
      if image.cacheMap == null || users < minClients { return; }
      var m := image.cacheMap[..];
      var replicationIndex := Choose(m, later, mode, nextReplicationIndex, replicatedLastBlock, replicationHandle);
      index := replicationIndex;
      if replicationIndex == -1 {
        nextReplicationIndex := -1;
        return;
      }
      var request := RequestFor(image.virtualFilesize, replicationIndex);
      replicationHandle := Some(request.lo);
      if !sendOk { return; }
      sent := Some(request);
      if replicationIndex == |m| - 1 { replicatedLastBlock := true; }
      nextReplicationIndex := Continue(m, last, mode, replicatedLastBlock, replicationIndex);
    }
  }

  /** The map whose search decided. */
  ghost function Consulted(m: seq<bv8>, later: Cache, mode: Mode, r: Rep): seq<bv8>
    requires 0 <= r.next <= |m|
  {
    if mode.HashBlock? && BlockDone(m, r) && later.Partial? then later.bytes else m
  }

  /** Whatever the mode, a request lies inside the image and its byte was not full in the map that was searched. */
  lemma RequestIsUseful(m: seq<bv8>, later: Cache, last: Cache, size: nat, mode: Mode, r: Rep, t: Rep,
                        sent: Option<Range>, i: int)
    requires |m| == MapBytes(size) && 0 <= r.next <= |m| && !mode.Disabled? && SameSize(later, m)
    requires Requests(m, later, last, size, mode, r, t, true, sent, i) && i != -1
    ensures sent.Some? && sent.value.lo < sent.value.hi <= size && t.handle == Some(sent.value.lo)
    ensures 0 <= i < |m| && sent.value.lo == i * MAP_BYTE_SIZE && Consulted(m, later, mode, r)[i] != 0xff
  {
  }

  predicate Awaits(r: Rep, i: nat) { r.handle == Some(i * MAP_BYTE_SIZE) }

  /** The map bytes that are still to be asked for. */
  ghost function Open(m: seq<bv8>, r: Rep): set<nat> {
    set i: nat | i < |m| && !IsFull(m, r.lastDone, i) && !Awaits(r, i)
  }

  /** Where the search over all hash blocks starts in a call. */
  function BlockSearchStart(m: seq<bv8>, r: Rep): nat
    requires 0 <= r.next <= |m|
  {
    SearchStart(m, HashEnd(m, r.next))
  }

  /** When a call asks for a byte that is not open: the last byte counts as replicated but is empty and alone in its
      hash block, and byte 0 is the first to spoil its hash block. Nothing else is asked for in vain. */
  ghost predicate AsksAgain(m: seq<bv8>, mode: Mode, r: Rep)
    requires 0 < |m| && 0 <= r.next <= |m|
  {
    && mode.HashBlock? && BlockDone(m, r) && r.lastDone && HashStart(|m| - 1) == |m| - 1 && m[|m| - 1] == 0
    && BlockSearchStart(m, r) != 0 && FirstMixed(m, true, BlockSearchStart(m, r), 0)
  }

  /** Without interference, a byte that is not open is asked for exactly then. */
  lemma AskedAgainIff(m: seq<bv8>, last: Cache, size: nat, mode: Mode, r: Rep, t: Rep, sendOk: bool,
                      sent: Option<Range>, i: int)
    requires 0 < |m| == MapBytes(size) && 0 <= r.next <= |m| && !mode.Disabled? && r.handle.None?
    requires Requests(m, Partial(m), last, size, mode, r, t, sendOk, sent, i)
    ensures i != -1 && i !in Open(m, r) <==> AsksAgain(m, mode, r)
  {
    var s := BlockSearchStart(m, r);
    Borders(HashEnd(m, r.next));
    if mode.HashBlock? && BlockDone(m, r) && r.lastDone {
      if i != -1 {
        var k: nat :| FirstMixed(m, true, s, k) && i == Answer(m, s, k);
        LastByteAgainIff(m, s, k);
        if FirstMixed(m, true, s, 0) { FirstMixedUnique(m, true, s, 0, k); }
      } else if FirstMixed(m, true, s, 0) {
        UniformPrefix(m, true, 0);
      }
    }
  }

  /** A request takes its byte out of those still to be asked for; it was one of them unless the map has the last byte
      asked for again, or another thread changed the map during the call. */
  lemma RequestShrinksOpen(m: seq<bv8>, later: Cache, last: Cache, size: nat, mode: Mode, r: Rep, t: Rep, sendOk: bool,
                           sent: Option<Range>, i: int)
    requires |m| == MapBytes(size) && 0 <= r.next <= |m| && !mode.Disabled? && r.handle.None? && SameSize(later, m)
    requires Requests(m, later, last, size, mode, r, t, sendOk, sent, i) && i != -1
    ensures 0 <= i && Open(m, t) == Open(m, r) - {i}
    ensures mode.Full? || !BlockDone(m, r) ==> i in Open(m, r)
    ensures later == Partial(m) ==> (i in Open(m, r) <==> !(i == |m| - 1 && r.lastDone))
    ensures later == Partial(m) ==> (i in Open(m, r) <==> !AsksAgain(m, mode, r))
  {
    if later == Partial(m) { AskedAgainIff(m, last, size, mode, r, t, sendOk, sent, i); }
    assert forall j: nat :: Awaits(t, j) <==> j == i;
    assert forall j: nat | j < |m| && j != i :: IsFull(m, t.lastDone, j) == IsFull(m, r.lastDone, j);
  }

  /** In hash block mode replication only switches itself off when the map looked at has no mixed hash block left. */
  lemma OffOnlyWhenUniform(m: seq<bv8>, later: Cache, last: Cache, size: nat, r: Rep, t: Rep, sendOk: bool,
                           sent: Option<Range>, i: int)
    requires |m| == MapBytes(size) && 0 <= r.next <= |m|
    requires Requests(m, later, last, size, HashBlock, r, t, sendOk, sent, i) && t.next == -1
    ensures i == -1 ==> later.Complete? || AllUniform(later.bytes, r.lastDone)
    ensures i != -1 ==> last.Complete? || AllUniform(last.bytes, t.lastDone)
    ensures later == last == Partial(m) ==> AllUniform(m, t.lastDone)
  {
  }

  /** A last byte in a hash block of its own, asked for but never stored, is asked for again when the hash block behind
      it starts with a partial byte. */
  lemma LastByteAgainExample()
    ensures var n := MAP_BYTES_PER_HASH_BLOCK;
            var m := seq(n + 1, i => if i == 0 then 1 else 0 as bv8);
            && FirstMixed(m, true, n, 0) && Answer(m, n, 0) == n
            && Chosen(m, Partial(m), HashBlock, Rep(n, None, true), n) && n !in Open(m, Rep(n, None, true))
            && AsksAgain(m, HashBlock, Rep(n, None, true))
  {
    var n := MAP_BYTES_PER_HASH_BLOCK;
    var m := seq(n + 1, i => if i == 0 then 1 else 0 as bv8);
    assert HashStart(n) == n && HashStart(0) == 0;
    assert IsPartial(m, true, 0);
    assert Prefix(m, true, n, n);
    assert forall x: nat | x < |m| && Turn(m, n, x) < Turn(m, n, 0) :: x == n;
    assert HashEnd(m, n) == n + 1;
    assert BlockDone(m, Rep(n, None, true));
    assert GoodFind(m, true, n);
    assert FirstMixed(m, true, n, 0) && Answer(m, n, 0) == n;
  }
}
