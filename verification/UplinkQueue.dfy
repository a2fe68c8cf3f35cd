/** The uplink's request queue (src/server/uplink.c) on values: what one call does to the slots. */
module UplinkQueue {
  import opened Blocks

  /** SERVER_MAX_UPLINK_QUEUE */
  const CAPACITY: nat := 1500

  /** The NULL client. */
  const NOBODY: nat := 0

  datatype Status = Free | New | Pending | Processing

  /** A byte range [lo, hi). */
  datatype Range = Range(lo: nat, hi: nat)

  predicate Within(a: Range, b: Range) { b.lo <= a.lo && a.hi <= b.hi }

  /** One slot of the queue. `ticket` numbers the requests in the order they were accepted; the source has no such
      field, it identifies a request over its life. A freed slot keeps its other fields, as in the source. */
  datatype Slot = Slot(status: Status, client: nat, handle: nat, range: Range, hops: nat, ticket: nat)

  datatype Queue = Queue(slots: seq<Slot>, len: nat)

  /** A client's request for a byte range. */
  datatype Request = Request(client: nat, handle: nat, range: Range, hops: nat)

  /** A later request may rely on this slot. */
  predicate Open(sl: Slot) { sl.status.New? || sl.status.Pending? }

  predicate Covers(sl: Slot, r: Range) { Open(sl) && Within(r, sl.range) }

  /** The range put on the wire for a slot: rounded outward to 4 KiB. */
  function WireRange(r: Range): Range { Range(AlignDown(r.lo), AlignUp(r.hi)) }

  lemma WireCovers(r: Range)
    ensures Within(r, WireRange(r))
  {
  }

  /** FREE exactly if nobody owns the slot; nothing lives at or above `len`. */
  ghost predicate WellFormed(q: Queue) {
    && |q.slots| == CAPACITY && q.len <= CAPACITY
    && (forall i: nat | i < CAPACITY :: q.slots[i].status.Free? <==> q.slots[i].client == NOBODY)
    && (forall i: nat | q.len <= i < CAPACITY :: q.slots[i].status.Free?)
  }

  /** The first free slot below `len`, or `len` itself. */
  function FreeSlot(slots: seq<Slot>, len: nat, i: nat): (f: nat)
    requires i <= len <= |slots|
    ensures i <= f <= len
    ensures f < len ==> slots[f].status.Free?
    ensures forall j: nat | i <= j < f :: !slots[j].status.Free?
    decreases len - i
  {
    if i == len || slots[i].status.Free? then i else FreeSlot(slots, len, i + 1)
  }

  /** The same range is already on its way with fewer hops. */
  predicate LoopMatch(sl: Slot, r: Request) { Covers(sl, r.range) && sl.range == r.range && r.hops > sl.hops }

  /** The scan stops early behind the free slot once it has something to attach to, unless a NEW request below the
      free slot was found before; a loop match behind that point goes unnoticed. */
  ghost predicate Noticed(q: Queue, r: Request, f: nat, j: nat)
    requires q.len <= |q.slots| && j < q.len
  {
    || j < f
    || (exists i: nat :: i < f && i < q.len && q.slots[i].status.New? && Covers(q.slots[i], r.range))
    || (forall i: nat | f < i < j :: !Covers(q.slots[i], r.range))
  }

  ghost predicate Rejects(q: Queue, r: Request)
    requires q.len <= |q.slots|
  {
    exists j: nat :: j < q.len && LoopMatch(q.slots[j], r) && Noticed(q, r, FreeSlot(q.slots, q.len, 0), j)
  }

  /** The request may wait for slot j: it is not sent yet, or the new slot lies below it. */
  predicate Attachable(q: Queue, r: Request, f: nat, j: nat)
    requires j < |q.slots|
  {
    Covers(q.slots[j], r.range) && (q.slots[j].status.New? || f < j)
  }

  ghost predicate Attaches(q: Queue, r: Request)
    requires q.len <= |q.slots|
  {
    exists j: nat :: j < q.len && Attachable(q, r, FreeSlot(q.slots, q.len, 0), j)
  }

  ghost predicate IsFull(q: Queue)
    requires q.len <= |q.slots|
  {
    FreeSlot(q.slots, q.len, 0) == q.len >= CAPACITY
  }

  lemma FullMeans(q: Queue)
    requires q.len <= |q.slots|
    ensures IsFull(q) <==> q.len >= 1500 && forall i: nat | i < q.len :: !q.slots[i].status.Free?
  {
    var f := FreeSlot(q.slots, q.len, 0);
    assert f < q.len ==> q.slots[f].status.Free?;
  }

  /** The queue after accepting a request. */
  ghost function Enqueued(q: Queue, r: Request, ticket: nat): Queue
    requires |q.slots| == CAPACITY && q.len <= CAPACITY && !IsFull(q)
  {
    var f := FreeSlot(q.slots, q.len, 0);
    var status := if Attaches(q, r) then Pending else New;
    Queue(q.slots[f := Slot(status, r.client, r.handle, r.range, r.hops, ticket)],
          if f == q.len then q.len + 1 else q.len)
  }

  /** What Attaches means: the request is inside the range of one that is NEW, or of one that is PENDING and lies above
      the slot it gets, the first FREE one. */
  lemma AttachesMeans(q: Queue, r: Request, f: nat)
    requires q.len <= |q.slots| && f <= q.len && (f < q.len ==> q.slots[f].status.Free?)
    requires forall i: nat | i < f :: !q.slots[i].status.Free?
    ensures FreeSlot(q.slots, q.len, 0) == f
    ensures Attaches(q, r) <==>
              (exists j: nat :: j < q.len && q.slots[j].range.lo <= r.range.lo && r.range.hi <= q.slots[j].range.hi
                 && (q.slots[j].status.New? || (q.slots[j].status.Pending? && f < j)))
  {
    assert FreeSlot(q.slots, q.len, 0) == f;
    if j: nat :| (j < q.len && q.slots[j].range.lo <= r.range.lo && r.range.hi <= q.slots[j].range.hi
                  && (q.slots[j].status.New? || (q.slots[j].status.Pending? && f < j)))
    {
      assert Attachable(q, r, f, j);
    }
  }

  /** A containing request that is NEW, or PENDING above a FREE slot, is attached to. */
  lemma WaitingAttach(q: Queue, r: Request)
    requires q.len <= |q.slots|
    ensures (exists j: nat :: j < q.len && q.slots[j].status.New? && q.slots[j].range.lo <= r.range.lo
               && r.range.hi <= q.slots[j].range.hi) ==> Attaches(q, r)
    ensures (exists i: nat, j: nat :: i < j < q.len && q.slots[i].status.Free? && q.slots[j].status.Pending?
               && q.slots[j].range.lo <= r.range.lo && r.range.hi <= q.slots[j].range.hi) ==> Attaches(q, r)
  {
    AttachesMeans(q, r, FreeSlot(q.slots, q.len, 0));
  }

  /** What Rejects means: a request for the same range with fewer hops is waiting; if it lies below every FREE slot,
      it is never overlooked. */
  lemma RejectsMeans(q: Queue, r: Request)
    requires q.len <= |q.slots|
    ensures Rejects(q, r) ==>
              (exists j: nat :: j < q.len && (q.slots[j].status.New? || q.slots[j].status.Pending?)
                 && q.slots[j].range == r.range && q.slots[j].hops < r.hops)
    ensures (exists j: nat :: j < q.len && (q.slots[j].status.New? || q.slots[j].status.Pending?)
               && q.slots[j].range == r.range && q.slots[j].hops < r.hops
               && (forall i: nat | i < j :: !q.slots[i].status.Free?)) ==> Rejects(q, r)
  {
    if Rejects(q, r) {
      var j: nat :| j < q.len && LoopMatch(q.slots[j], r) && Noticed(q, r, FreeSlot(q.slots, q.len, 0), j);
    }
    if j: nat :| (j < q.len && (q.slots[j].status.New? || q.slots[j].status.Pending?)
                  && q.slots[j].range == r.range && q.slots[j].hops < r.hops
                  && forall i: nat | i < j :: !q.slots[i].status.Free?)
    {
      assert j < FreeSlot(q.slots, q.len, 0);
      assert LoopMatch(q.slots[j], r) && Noticed(q, r, FreeSlot(q.slots, q.len, 0), j);
    }
  }

  function Freed(sl: Slot): Slot { sl.(status := Free, client := NOBODY) }

  /** `len` lowered past trailing free slots. */
  function Trimmed(slots: seq<Slot>, len: nat): (n: nat)
    requires len <= |slots|
    ensures n <= len
    ensures forall i: nat | n <= i < len :: slots[i].client == NOBODY
    ensures n > 0 ==> slots[n - 1].client != NOBODY
  {
    if len > 0 && slots[len - 1].client == NOBODY then Trimmed(slots, len - 1) else len
  }

  function WithoutClient(q: Queue, client: nat): (s: seq<Slot>)
    requires q.len <= |q.slots|
    ensures |s| == |q.slots|
  {
    seq(|q.slots|, i requires 0 <= i < |q.slots| =>
      if i < q.len && q.slots[i].client == client then Freed(q.slots[i]) else q.slots[i])
  }

  /** uplink_removeClient */
  function Removed(q: Queue, client: nat): Queue
    requires q.len <= |q.slots|
  {
    Queue(WithoutClient(q, client), Trimmed(WithoutClient(q, client), q.len))
  }

  /** The marking pass of uplink_handleReceive. */
  function Marked(q: Queue, reply: Range): (r: Queue)
    requires q.len <= |q.slots|
    ensures r.len == q.len && |r.slots| == |q.slots|
  {
    q.(slots := seq(|q.slots|, i requires 0 <= i < |q.slots| =>
      if i < q.len && Open(q.slots[i]) && Within(q.slots[i].range, reply) then q.slots[i].(status := Processing)
      else q.slots[i]))
  }

  /** The length after looking at slot i: shorter by one if it is the last and free. */
  function TrimOne(q: Queue, i: nat): Queue
    requires q.len <= |q.slots|
  {
    if i < |q.slots| && q.slots[i].status.Free? && i + 1 == q.len then q.(len := i) else q
  }

  /** Slot i would be sent by uplink_sendRequests. */
  predicate Sendable(sl: Slot, newOnly: bool) { sl.status.New? || (!newOnly && sl.status.Pending?) }

  /** The next slot uplink_sendRequests sends, or `len`. */
  function NextSendable(q: Queue, i: nat, newOnly: bool): (j: nat)
    requires q.len <= |q.slots|
    ensures i <= j || j == q.len
    ensures j <= q.len
    ensures j < q.len ==> Sendable(q.slots[j], newOnly)
    ensures forall k: nat | i <= k < j :: !Sendable(q.slots[k], newOnly)
    decreases q.len - i
  {
    if i >= q.len then q.len else if Sendable(q.slots[i], newOnly) then i else NextSendable(q, i + 1, newOnly)
  }

  /** uplink_removeClient and the other calls keep the queue well formed. */
  lemma EnqueuedWellFormed(q: Queue, r: Request, ticket: nat)
    requires WellFormed(q) && !IsFull(q) && r.client != NOBODY
    ensures WellFormed(Enqueued(q, r, ticket))
    ensures q.slots[FreeSlot(q.slots, q.len, 0)].status.Free?
  {
  }

  lemma RemovedWellFormed(q: Queue, client: nat)
    requires WellFormed(q)
    ensures WellFormed(Removed(q, client))
  {
    var s := WithoutClient(q, client);
    assert forall i: nat | i < CAPACITY ::
      s[i] == if i < q.len && q.slots[i].client == client then Freed(q.slots[i]) else q.slots[i];
  }

  /** An equal request that took fewer hops is noticed: the new one is rejected or it only waits. */
  lemma LoopIsNoticed(q: Queue, r: Request, j: nat)
    requires q.len <= |q.slots| && j < q.len && LoopMatch(q.slots[j], r)
    ensures Rejects(q, r) || Attaches(q, r)
  {
    var f := FreeSlot(q.slots, q.len, 0);
    if f < j { assert Attachable(q, r, f, j); }
  }
}
