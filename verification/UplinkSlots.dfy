/** The queue array of an uplink and the loops over it (src/server/uplink.c), proved against UplinkQueue. */
module UplinkSlots {
  import opened Blocks
  import opened UplinkQueue
  import opened Wrappers

  datatype Outcome = Refused | Rejected | QueueFull | Attached(slot: nat) | Relay(slot: nat)

  /** What uplink_request looks at before the queue: the configured limit, the image's uplink, and whether the client is
      the host the uplink is connected to. */
  datatype Gate = Gate(maxPayload: nat, hasUplink: bool, shutdown: bool, sameHost: bool)

  predicate Refuses(g: Gate, r: Request) {
    r.range.hi - r.range.lo > g.maxPayload || !g.hasUplink || g.shutdown || (r.hops != 0 && g.sameHost)
  }

  lemma {:induction false} FreeSlotIs(slots: seq<Slot>, len: nat, i: nat, f: nat)
    requires i <= f <= len <= |slots| && (f < len ==> slots[f].status.Free?)
    requires forall j: nat | i <= j < f :: !slots[j].status.Free?
    ensures FreeSlot(slots, len, i) == f
    decreases len - i
  {
    if i < f { FreeSlotIs(slots, len, i + 1, f); }
  }

  lemma {:induction false} NextSendableIs(q: Queue, i: nat, j: nat, newOnly: bool)
    requires q.len <= |q.slots| && i <= j <= q.len && (j < q.len ==> Sendable(q.slots[j], newOnly))
    requires forall k: nat | i <= k < j :: !Sendable(q.slots[k], newOnly)
    ensures NextSendable(q, i, newOnly) == j
    decreases q.len - i
  {
    if i < j { NextSendableIs(q, i + 1, j, newOnly); }
  }

  /** What the scan of uplink_request knows before slot i: nothing matched as a loop so far, `free` is the first
      free slot, `found` the slot to attach to. */
  ghost predicate ScanInv(q: Queue, r: Request, i: nat, free: int, found: int) {
    && i <= q.len <= |q.slots| && -1 <= free < i && -1 <= found < i
    && (forall j: nat | j < i :: !LoopMatch(q.slots[j], r))
    && (forall j: nat | j < i && (free == -1 || j < free) :: !q.slots[j].status.Free?)
    && (free != -1 ==> q.slots[free].status.Free?)
    && (found == -1 ==> forall j: nat | j < i :: !Covers(q.slots[j], r.range))
    && (found != -1 ==> Covers(q.slots[found], r.range))
    && (found != -1 && q.slots[found].status.Pending? ==>
          forall j: nat | j < i && Covers(q.slots[j], r.range) :: q.slots[j].status.Pending? && j <= found)
    && (found != -1 && free != -1 ==> found < free)
  }

  lemma ScanRejects(q: Queue, r: Request, i: nat, free: int, found: int)
    requires ScanInv(q, r, i, free, found) && i < q.len && LoopMatch(q.slots[i], r)
    ensures Rejects(q, r)
  {
    var f := FreeSlot(q.slots, q.len, 0);
    if free != -1 { FreeSlotIs(q.slots, q.len, 0, free); }
    assert Noticed(q, r, f, i);
  }

  /** The scan stopped at slot i because it can attach there. */
  lemma ScanStops(q: Queue, r: Request, i: nat, free: int, found: int)
    requires ScanInv(q, r, i, free, found) && i < q.len && !LoopMatch(q.slots[i], r) && Covers(q.slots[i], r.range)
    requires free != -1 && (found == -1 || q.slots[found].status.Pending?)
    ensures !Rejects(q, r) && Attaches(q, r) && FreeSlot(q.slots, q.len, 0) == free
  {
    FreeSlotIs(q.slots, q.len, 0, free);
    assert Attachable(q, r, free, i);
    forall j: nat | j < q.len && LoopMatch(q.slots[j], r) ensures !Noticed(q, r, free, j) { }
  }

  lemma ScanEnds(q: Queue, r: Request, free: int, found: int)
    requires ScanInv(q, r, q.len, free, found)
    ensures !Rejects(q, r) && FreeSlot(q.slots, q.len, 0) == if free == -1 then q.len else free
    ensures Attaches(q, r)
            <==> found != -1 && (q.slots[found].status.New? || (if free == -1 then q.len else free) < found)
  {
    var f := if free == -1 then q.len else free;
    FreeSlotIs(q.slots, q.len, 0, f);
    if found != -1 && (q.slots[found].status.New? || f < found) { assert Attachable(q, r, f, found); }
  }

  class RequestSlots {
    const slots: array<Slot>
    var len: nat

    ghost predicate Valid()
      reads this, slots
    {
      WellFormed(View())
    }

    ghost function View(): Queue
      reads this, slots
    {
      Queue(slots[..], len)
    }

    constructor ()
      ensures Valid() && fresh(slots) && len == 0
    {
      slots := new Slot[CAPACITY](_ => Slot(Free, NOBODY, 0, Range(0, 0), 0, 0));
      len := 0;
    }

    /** What follows the scan: take the free slot or a new one, attach or not. */
    method Fill(r: Request, ticket: nat, freeSlot0: int, foundExisting0: int, existingType: Status) returns (o: Outcome)
      requires Valid() && r.client != NOBODY && !Rejects(View(), r) && -1 <= freeSlot0 < len
      requires -1 <= foundExisting0 < len
      requires foundExisting0 != -1 ==> foundExisting0 != freeSlot0
      requires FreeSlot(slots[..], len, 0) == if freeSlot0 == -1 then len else freeSlot0
      requires Attaches(View(), r) <==>
                 foundExisting0 != -1
                 && (existingType.New? || (if freeSlot0 == -1 then len else freeSlot0) < foundExisting0)
      modifies this, slots
      ensures Valid() && !o.Refused? && !o.Rejected?
      ensures o.QueueFull? <==> IsFull(old(View()))
      ensures o.QueueFull? ==> View() == old(View())
      ensures o.Attached? || o.Relay? ==>
                View() == Enqueued(old(View()), r, ticket) && o.slot == FreeSlot(old(View()).slots, old(View()).len, 0)
      ensures o.Attached? ==> Attaches(old(View()), r)
      ensures o.Relay? ==> !Attaches(old(View()), r)
    {
      ghost var q := View();
      var freeSlot, foundExisting := freeSlot0, foundExisting0;
      if freeSlot == -1 {
        if len >= CAPACITY { return QueueFull; }
        freeSlot := len;
        len := len + 1;
      }
      if foundExisting != -1 && !existingType.New? && freeSlot > foundExisting { foundExisting := -1; }
      var status := if foundExisting == -1 then New else Pending;
      slots[freeSlot] := Slot(status, r.client, r.handle, r.range, r.hops, ticket);
      assert View() == Enqueued(q, r, ticket);
      EnqueuedWellFormed(q, r, ticket);
      o := if foundExisting == -1 then Relay(freeSlot) else Attached(freeSlot);
    }

    /** The scan of uplink_request and what follows it. */
    method ScanAndFill(r: Request, ticket: nat) returns (o: Outcome)
      requires Valid() && r.client != NOBODY
      modifies this, slots
      ensures Valid() && !o.Refused?
      ensures o.Rejected? <==> Rejects(old(View()), r)
      ensures o.QueueFull? <==> !Rejects(old(View()), r) && IsFull(old(View()))
      ensures o.Rejected? || o.QueueFull? ==> View() == old(View())
      ensures o.Attached? || o.Relay? ==>
                View() == Enqueued(old(View()), r, ticket) && o.slot == FreeSlot(old(View()).slots, old(View()).len, 0)
      ensures o.Attached? ==> Attaches(old(View()), r)
      ensures o.Relay? ==> !Attaches(old(View()), r)
    {
      ghost var q := View();
      var foundExisting, freeSlot := -1, -1;
      var existingType := Free;
      var i := 0;
      ghost var stopped := false;
      while i < len
        invariant i <= len && View() == q
        invariant ScanInv(q, r, i, freeSlot, foundExisting)
        invariant foundExisting != -1 ==> existingType == q.slots[foundExisting].status
      {
        var sl := slots[i];
        if freeSlot == -1 && sl.status.Free? {
          freeSlot := i;
        } else if Open(sl) && Within(r.range, sl.range) {
          if r.hops > sl.hops && sl.range == r.range {
            ScanRejects(q, r, i, freeSlot, foundExisting);
            return Rejected;
          }
          if foundExisting == -1 || existingType.Pending? {
            if freeSlot != -1 {
              ScanStops(q, r, i, freeSlot, foundExisting);
              foundExisting, existingType := i, sl.status;
              stopped := true;
              break;
            }
            foundExisting, existingType := i, sl.status;
          }
        }
        i := i + 1;
      }
      if !stopped { ScanEnds(q, r, freeSlot, foundExisting); }
      o := Fill(r, ticket, freeSlot, foundExisting, existingType);
    }

    /** The part of uplink_request that holds the queue lock. A request inside the range of one that is NEW never goes
        out on its own, nor one inside the range of one that is PENDING above a FREE slot; it is turned away only if
        the very same range is waiting with fewer hops. */
    method Enqueue(r: Request, ticket: nat) returns (o: Outcome)
      requires Valid() && r.client != NOBODY
      modifies this, slots
      ensures Valid() && !o.Refused?
      ensures o.Rejected? <==> Rejects(old(View()), r)
      ensures o.QueueFull? <==> !Rejects(old(View()), r) && IsFull(old(View()))
      ensures o.Rejected? || o.QueueFull? ==> View() == old(View())
      ensures o.Attached? || o.Relay? ==>
                View() == Enqueued(old(View()), r, ticket) && o.slot == FreeSlot(old(View()).slots, old(View()).len, 0)
      ensures o.Attached? ==> Attaches(old(View()), r)
      ensures o.Relay? ==> !Attaches(old(View()), r)
      ensures var s, n := old(slots[..]), old(len);
              (exists j: nat :: j < n && s[j].status.New? && s[j].range.lo <= r.range.lo && r.range.hi <= s[j].range.hi)
              ==> !o.Relay?
      ensures var s, n := old(slots[..]), old(len);
              (exists i: nat, j: nat :: i < j < n && s[i].status.Free? && s[j].status.Pending?
                 && s[j].range.lo <= r.range.lo && r.range.hi <= s[j].range.hi) ==> !o.Relay?
      ensures var s, n := old(slots[..]), old(len);
              o.Rejected? ==>
                (exists j: nat :: j < n && (s[j].status.New? || s[j].status.Pending?)
                   && s[j].range == r.range && s[j].hops < r.hops)
      ensures var s, n := old(slots[..]), old(len);
              (exists j: nat :: j < n && (s[j].status.New? || s[j].status.Pending?)
                 && s[j].range == r.range && s[j].hops < r.hops
                 && (forall i: nat | i < j :: !s[i].status.Free?)) ==> o.Rejected?
      ensures var s, n := old(slots[..]), old(len);
              o.Attached? || o.Relay? ==>
                && o.slot <= n && (o.slot < n ==> s[o.slot].status.Free?)
                && (forall i: nat | i < o.slot :: !s[i].status.Free?)
                && o.slot < slots.Length
                && slots[..] == s[o.slot := Slot(if o.Attached? then Pending else New, r.client, r.handle, r.range,
                                                 r.hops, ticket)]
                && len == if o.slot == n then n + 1 else n
    {
      ghost var q := View();
      o := ScanAndFill(r, ticket);
      if !o.Attached? { WaitingAttach(q, r); }
      RejectsMeans(q, r);
    }

    /** uplink_request up to the release of the queue lock. */
    method Request(r: Request, ticket: nat, g: Gate) returns (o: Outcome)
      requires Valid() && r.client != NOBODY && r.range.lo <= r.range.hi
      modifies this, slots
      ensures Valid()
      ensures o.Refused? <==> Refuses(g, r)
      ensures o.Refused? <==>
                r.range.hi - r.range.lo > g.maxPayload || !g.hasUplink || g.shutdown || (r.hops != 0 && g.sameHost)
      ensures o.Rejected? <==> !Refuses(g, r) && Rejects(old(View()), r)
      ensures o.QueueFull? <==> !Refuses(g, r) && !Rejects(old(View()), r) && IsFull(old(View()))
      ensures o.Refused? || o.Rejected? || o.QueueFull? ==> View() == old(View())
      ensures o.Attached? || o.Relay? ==>
                View() == Enqueued(old(View()), r, ticket) && o.slot == FreeSlot(old(View()).slots, old(View()).len, 0)
      ensures o.Attached? ==> Attaches(old(View()), r)
      ensures o.Relay? ==> !Attaches(old(View()), r)
    {
      if r.range.hi - r.range.lo > g.maxPayload { return Refused; }
      if !g.hasUplink { return Refused; }
      if g.shutdown { return Refused; }
      if r.hops != 0 && g.sameHost { return Refused; }
      o := Enqueue(r, ticket);
    }

    /** uplink_removeClient */
    method RemoveClient(client: nat)
      requires Valid() && client != NOBODY
      modifies this, slots
      ensures Valid() && View() == Removed(old(View()), client)
      ensures forall i: nat | i < old(len) && old(slots[..])[i].client == client ::
                slots[i] == old(slots[..])[i].(status := Free, client := 0)
      ensures forall i: nat | i < slots.Length && !(i < old(len) && old(slots[..])[i].client == client) ::
                slots[i] == old(slots[..])[i]
      ensures len <= old(len) && (len > 0 ==> !slots[len - 1].status.Free?)
      ensures forall i: nat | len <= i < old(len) :: slots[i].status.Free?
    {
      ghost var q := View();
      ghost var s := WithoutClient(q, client);
      Sweep(client, s, Trimmed(s, q.len));
      assert slots[..] == s;
      RemovedWellFormed(q, client);
    }

    /** Its loop: free the client's slots from the top down, trimming on the way. `s` are the slots without the client,
        n the length up to the last one in use. */
    method Sweep(client: nat, ghost s: seq<Slot>, ghost n: nat)
      requires |s| == slots.Length && n <= len <= slots.Length
      requires forall i: nat | i < len :: s[i] == if slots[i].client == client then Freed(slots[i]) else slots[i]
      requires forall i: nat | len <= i < |s| :: s[i] == slots[i]
      requires forall i: nat | n <= i < len :: s[i].client == NOBODY
      requires n > 0 ==> s[n - 1].client != NOBODY
      modifies this`len, slots
      ensures len == n && forall i: nat | i < slots.Length :: slots[i] == s[i]
    {
      ghost var was := slots[..];
      var i := len;
      while i > 0
        invariant 0 <= i <= old(len) && len == if n > i then n else i
        invariant forall j: nat | j < i :: slots[j] == was[j]
        invariant forall j: nat | i <= j < |s| :: slots[j] == s[j]
      {
        i := i - 1;
        if slots[i].client == client { slots[i] := Freed(slots[i]); }
        if slots[i].client == NOBODY && len == i + 1 { len := len - 1; }
      }
    }

    /** The marking pass of uplink_handleReceive. */
    method Mark(reply: Range)
      requires Valid() && forall i: nat | i < CAPACITY :: !slots[i].status.Processing?
      modifies slots
      ensures Valid() && View() == Marked(old(View()), reply)
      ensures forall i: nat | i < slots.Length ::
                var sl := old(slots[..])[i];
                slots[i] == if i < len && (sl.status.New? || sl.status.Pending?)
                               && reply.lo <= sl.range.lo && sl.range.hi <= reply.hi then sl.(status := Processing)
                            else sl
    {
      ghost var q := View();
      ghost var m := Marked(q, reply);
      for i := 0 to len
        invariant forall j: nat | j < CAPACITY :: slots[j] == if j < i then m.slots[j] else q.slots[j]
      {
        var sl := slots[i];
        assert !sl.status.Processing?;
        if Open(sl) {
          assert sl.client != NOBODY;
          if reply.lo <= sl.range.lo && sl.range.hi <= reply.hi { slots[i] := sl.(status := Processing); }
        }
      }
      assert slots[..] == m.slots;
    }

    /** The delivery pass of uplink_handleReceive at slot i; if it serves a client, up to the release of the lock. */
    method DeliverTurn(i: nat) returns (served: Option<Slot>)
      requires Valid() && i < CAPACITY
      modifies this`len, slots
      ensures Valid()
      ensures served == if old(slots[i]).status.Processing? then Some(old(slots[i])) else None
      ensures View() == if served.Some? then old(View()).(slots := old(View()).slots[i := Freed(served.value)])
                        else TrimOne(old(View()), i)
      ensures served.Some? ==> slots[i] == old(slots[i]).(status := Free, client := 0) && len == old(len)
      ensures served.None? ==> len == if old(slots[i]).status.Free? && i + 1 == old(len) then i else old(len)
    {
      var sl := slots[i];
      if sl.status.Processing? {
        slots[i] := Freed(sl);
        return Some(sl);
      }
      TrimBehind(i);
      return None;
    }

    /** ... and its end, with the lock held again. */
    method TrimBehind(i: nat)
      requires Valid() && i < CAPACITY
      modifies this`len
      ensures Valid() && View() == TrimOne(old(View()), i)
    {
      if slots[i].status.Free? && i + 1 == len { len := len - 1; }
    }

    /** The mark after a successful direct send: only if the slot still holds the client's own NEW request. */
    method DirectMark(slot: nat, handle: nat, client: nat) returns (marked: bool)
      requires Valid() && slot < CAPACITY
      modifies slots
      ensures Valid()
      ensures marked <==>
                old(slots[slot]).handle == handle && old(slots[slot]).client == client
                && old(slots[slot]).status.New?
      ensures View() ==
                if marked then old(View()).(slots := old(View()).slots[slot := old(slots[slot]).(status := Pending)])
                else old(View())
    {
      var sl := slots[slot];
      marked := sl.handle == handle && sl.client == client && sl.status.New?;
      if marked { slots[slot] := sl.(status := Pending); }
    }

    /** uplink_sendRequests up to the release of the queue lock: mark the next slot and compute its wire range. */
    method PickNext(start: nat, newOnly: bool) returns (slot: nat, reqStart: nat, reqSize: nat)
      requires Valid()
      requires forall i: nat | i < len :: slots[i].range.lo <= slots[i].range.hi <= slots[i].range.lo + 0x7fff_ffff
      modifies slots
      ensures slot == NextSendable(old(View()), start, newOnly)
      ensures slot == old(len) ==> View() == old(View())
      ensures slot < old(len) ==>
                && View()
                     == old(View()).(slots := old(View()).slots[slot := old(View()).slots[slot].(status := Pending)])
                && Range(reqStart, reqStart + reqSize) == WireRange(old(View()).slots[slot].range)
      ensures slot <= old(len)
      ensures slot < old(len) ==> old(slots[slot]).status.New? || (!newOnly && old(slots[slot]).status.Pending?)
      ensures forall i: nat | start <= i < slot ::
                !old(slots[..])[i].status.New? && (newOnly || !old(slots[..])[i].status.Pending?)
      ensures slot < old(len) ==>
                && reqStart % 4096 == 0 && reqStart <= old(slots[slot]).range.lo < reqStart + 4096
                && (reqStart + reqSize) % 4096 == 0
                && old(slots[slot]).range.hi <= reqStart + reqSize < old(slots[slot]).range.hi + 4096
    {
      ghost var q := View();
      var j := start;
      reqStart, reqSize := 0, 0;
      while j < len
        invariant start <= j && (j <= len || j == start)
        invariant forall k: nat | start <= k < j && k < len :: !Sendable(slots[k], newOnly)
      {
        var sl := slots[j];
        if sl.status.New? || (!newOnly && sl.status.Pending?) {
          NextSendableIs(q, start, j, newOnly);
          slots[j] := sl.(status := Pending);
          reqStart := AlignDown(sl.range.lo);
          reqSize := (AlignUp(sl.range.hi) - reqStart) % 0x1_0000_0000;
          return j, reqStart, reqSize;
        }
        j := j + 1;
      }
      if start <= len { NextSendableIs(q, start, len, newOnly); }
      slot := len;
    }
  }
}
