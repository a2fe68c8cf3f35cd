/** The uplink as a system of steps: client threads, the uplink thread and the upstream server take turns, one
    mutex-protected region at a time (src/server/uplink.c). */
module UplinkSystem {
  import opened Blocks
  import opened UplinkQueue

  type Content = s: seq<bv8> | |s| % BLOCK_SIZE == 0 witness []

  /** Where the uplink thread stands. `all` tells the resend after a server switch from the sending of NEW slots;
      `onWire` is a range it has marked and not yet written to the socket. */
  datatype Thread =
    | Waiting
    | Sending(next: nat, all: bool, onWire: seq<Range>)
    | Delivering(i: nat, reply: Range)  // slots below i are still to be looked at
    | Relocking(i: nat, reply: Range)   // slot i was served, the lock is being taken again

  /** A client thread inside uplink_request after it released the queue lock. */
  datatype Direct = Direct(slot: nat, handle: nat, ticket: nat, sent: bool)

  datatype Delivery = Delivery(ticket: nat, client: nat, handle: nat, data: seq<bv8>)

  /** `inFlight` are the requests sent on the current connection and not answered; `broken` is set by a failed send.
      `accepted` lists the accepted requests by ticket. */
  datatype State = State(
    q: Queue,
    connected: bool,
    broken: bool,
    inFlight: multiset<Range>,
    thread: Thread,
    direct: map<nat, Direct>,
    accepted: seq<Request>,
    delivered: seq<Delivery>,
    dropped: set<nat>)

  datatype Step =
    | Accept(r: Request)                  // uplink_request up to the release of the queue lock
    | DirectSend(client: nat, ok: bool)   // the send under trylock
    | DirectMark(client: nat)             // the check that turns NEW into PENDING
    | DirectGiveUp(client: nat)           // no socket, busy, or a failed send
    | RemoveClient(client: nat)
    | Signalled                           // the uplink thread starts to send NEW slots
    | Switch                              // the uplink thread takes over a new connection and starts to resend
    | Pick                                // uplink_sendRequests marks its next slot
    | Wire(ok: bool)                      // ... and sends it
    | Replicate(range: Range)             // a background replication request
    | Reply(range: Range)                 // a reply was read completely: the marking pass
    | Deliver                             // the delivery pass looks at one slot
    | Relock
    | Disconnect

  ghost predicate Enabled(image: Content, s: State, step: Step)
    requires WellFormed(s.q)
  {
    match step
    case Accept(r) =>
      r.client != NOBODY && r.client !in s.direct && r.range.lo <= r.range.hi <= |image| && !Rejects(s.q, r)
        && !IsFull(s.q)
    case DirectSend(client, ok) =>
      client in s.direct && !s.direct[client].sent && s.connected && s.direct[client].slot < CAPACITY
    case DirectMark(client) => client in s.direct && s.direct[client].sent && s.direct[client].slot < CAPACITY
    case DirectGiveUp(client) => client in s.direct && !s.direct[client].sent
    case RemoveClient(client) => client != NOBODY && client !in s.direct
    case Signalled => s.thread.Waiting? && s.connected
    case Switch => s.thread.Waiting?
    case Pick => s.thread.Sending? && s.thread.onWire == []
    case Wire(ok) => s.thread.Sending? && s.thread.onWire != []
    case Replicate(range) => s.thread.Waiting? && s.connected && range.lo <= range.hi <= |image|
    case Reply(range) => s.thread.Waiting? && s.connected && range in s.inFlight
    case Deliver => s.thread.Delivering?
    case Relock => s.thread.Relocking?
    case Disconnect => s.thread.Waiting?
  }

  /** The accepted request, and whether its client goes on to send it itself. */
  ghost function AcceptRequest(s: State, r: Request): State
    requires WellFormed(s.q) && !IsFull(s.q)
  {
    var f := FreeSlot(s.q.slots, s.q.len, 0);
    s.(q := Enqueued(s.q, r, |s.accepted|),
       accepted := s.accepted + [r],
       direct := if Attaches(s.q, r) then s.direct else s.direct[r.client := Direct(f, r.handle, |s.accepted|, false)])
  }

  function Slice(s: seq<bv8>, lo: nat, hi: nat): seq<bv8> { if lo <= hi <= |s| then s[lo..hi] else [] }

  /** The reply sent to the owner of a slot: its handle and its part of the receive buffer. */
  function Served(image: Content, sl: Slot, reply: Range): Delivery {
    var buffer := Slice(image, reply.lo, reply.hi);
    Delivery(sl.ticket, sl.client, sl.handle,
             if reply.lo <= sl.range.lo <= sl.range.hi
               then Slice(buffer, sl.range.lo - reply.lo, sl.range.hi - reply.lo) else [])
  }

  ghost function Apply(image: Content, s: State, step: Step): State
    requires WellFormed(s.q) && Enabled(image, s, step)
  {
    match step
    case Accept(r) => AcceptRequest(s, r)
    case DirectSend(client, ok) =>
      var d := s.direct[client];
      if ok then
        // the slot is read without the queue lock: it may hold another request by now
        s.(inFlight := s.inFlight + multiset{WireRange(s.q.slots[d.slot].range)},
           direct := s.direct[client := d.(sent := true)])
      else s.(broken := true, direct := s.direct - {client})
    case DirectMark(client) =>
      var d := s.direct[client];
      var sl := s.q.slots[d.slot];
      s.(direct := s.direct - {client},
         q := if sl.handle == d.handle && sl.client == client && sl.status.New?
              then s.q.(slots := s.q.slots[d.slot := sl.(status := Pending)]) else s.q)
    case DirectGiveUp(client) => s.(direct := s.direct - {client})
    case RemoveClient(client) =>
      s.(q := Removed(s.q, client),
         dropped := s.dropped + set i: nat | i < s.q.len && s.q.slots[i].client == client :: s.q.slots[i].ticket)
    case Signalled => s.(thread := Sending(0, false, []))
    case Switch => s.(connected := true, broken := false, inFlight := multiset{}, thread := Sending(0, true, []))
    case Pick =>
      var j := NextSendable(s.q, s.thread.next, !s.thread.all);
      if j == s.q.len then s.(thread := Waiting)
      else s.(q := s.q.(slots := s.q.slots[j := s.q.slots[j].(status := Pending)]),
              thread := Sending(j + 1, s.thread.all, [WireRange(s.q.slots[j].range)]))
    case Wire(ok) =>
      if ok then s.(inFlight := s.inFlight + multiset{s.thread.onWire[0]}, thread := s.thread.(onWire := []))
      else s.(broken := true, thread := Waiting)
    case Replicate(range) => s.(inFlight := s.inFlight + multiset{range})
    case Reply(range) =>
      s.(inFlight := s.inFlight - multiset{range}, q := Marked(s.q, range), thread := Delivering(s.q.len, range))
    case Deliver =>
      var reply := s.thread.reply;
      if s.thread.i == 0 then s.(thread := Waiting) else
      var i := s.thread.i - 1;
      if i < |s.q.slots| && s.q.slots[i].status.Processing? then
        s.(q := s.q.(slots := s.q.slots[i := Freed(s.q.slots[i])]),
           delivered := s.delivered + [Served(image, s.q.slots[i], reply)],
           thread := Relocking(i, reply))
      else s.(q := TrimOne(s.q, i), thread := Delivering(i, reply))
    case Relock => s.(q := TrimOne(s.q, s.thread.i), thread := Delivering(s.thread.i, s.thread.reply))
    case Disconnect => s.(connected := false, inFlight := multiset{})
  }

  // ---------------------------------------------------------------- what every step keeps

  predicate SlotOf(sl: Slot, r: Request) {
    sl.client == r.client && sl.handle == r.handle && sl.range == r.range && sl.hops == r.hops
  }

  predicate InImage(image: Content, r: Range) { r.lo <= r.hi <= |image| }

  /** Request t sits in slot i. */
  predicate Holds(q: Queue, i: nat, t: nat) { i < |q.slots| && !q.slots[i].status.Free? && q.slots[i].ticket == t }

  ghost predicate InQueue(q: Queue, t: nat) { exists i: nat :: Holds(q, i, t) }

  /** The answer to request t: its own handle and exactly the image's bytes. */
  ghost predicate Exact(image: Content, accepted: seq<Request>, d: Delivery) {
    d.ticket < |accepted| &&
    var r := accepted[d.ticket];
    d.client == r.client && d.handle == r.handle && r.range.lo <= r.range.hi <= |image|
      && d.data == image[r.range.lo..r.range.hi]
  }

  ghost predicate IsDelivered(s: State, t: nat) { exists k: nat :: k < |s.delivered| && s.delivered[k].ticket == t }

  /** Everything asked for or received lies in the image. */
  ghost predicate WiresInImage(image: Content, s: State) {
    && (forall i: nat | i < |s.q.slots| :: InImage(image, s.q.slots[i].range))
    && (forall w: Range | w in s.inFlight :: InImage(image, w))
    && (s.thread.Sending? ==> |s.thread.onWire| <= 1 && forall w <- s.thread.onWire :: InImage(image, w))
    && (s.thread.Delivering? || s.thread.Relocking? ==> InImage(image, s.thread.reply))
  }

  /** Agreement with the accepted requests and the one-slot rule only look at slots that are in use. */
  ghost predicate Agrees(q: Queue, accepted: seq<Request>)
    requires |q.slots| == CAPACITY
  {
    && (forall i: nat | i < CAPACITY && !q.slots[i].status.Free? ::
          q.slots[i].ticket < |accepted| && SlotOf(q.slots[i], accepted[q.slots[i].ticket]))
    && (forall i: nat, j: nat | i < j < CAPACITY && !q.slots[i].status.Free? && !q.slots[j].status.Free? ::
          q.slots[i].ticket != q.slots[j].ticket)
  }

  /** Only the running delivery pass leaves PROCESSING slots behind, all of them still ahead of it. */
  ghost predicate ProcessingAhead(q: Queue, thread: Thread) {
    forall i: nat | i < |q.slots| && q.slots[i].status.Processing? ::
      (thread.Delivering? || thread.Relocking?) && i < thread.i && Within(q.slots[i].range, thread.reply)
  }

  /** The slots agree with the accepted requests, each request holds at most one slot, and only the running
      delivery pass leaves PROCESSING slots behind. */
  ghost predicate SlotsInv(image: Content, s: State) {
    && WellFormed(s.q)
    && (forall r <- s.accepted :: InImage(image, r.range) && r.client != NOBODY)
    && Agrees(s.q, s.accepted)
    && ProcessingAhead(s.q, s.thread)
    && WiresInImage(image, s)
  }

  /** What DirectInv says about one client. */
  predicate DirectOk(q: Queue, accepted: seq<Request>, c: nat, d: Direct) {
    && c != NOBODY && d.slot < CAPACITY == |q.slots| && d.ticket < |accepted|
    && accepted[d.ticket].client == c && accepted[d.ticket].handle == d.handle
    && (q.slots[d.slot].client == c ==> q.slots[d.slot].ticket == d.ticket)
  }

  /** A client in the middle of uplink_request finds only its own request in the slot it filled, if any of its. */
  ghost predicate DirectInv(s: State)
    requires WellFormed(s.q)
  {
    forall c <- s.direct :: DirectOk(s.q, s.accepted, c, s.direct[c])
  }

  /** Every accepted request is in exactly one place: in the queue, answered, or dropped with its client. */
  ghost predicate LedgerInv(image: Content, s: State)
    requires WellFormed(s.q)
  {
    && (forall d <- s.delivered :: Exact(image, s.accepted, d))
    && (forall k: nat, l: nat | k < l < |s.delivered| :: s.delivered[k].ticket != s.delivered[l].ticket)
    && (forall t <- s.dropped :: t < |s.accepted|)
    && (forall t: nat | t < |s.accepted| :: InQueue(s.q, t) || IsDelivered(s, t) || t in s.dropped)
    && (forall t: nat :: !(InQueue(s.q, t) && IsDelivered(s, t)) && !(InQueue(s.q, t) && t in s.dropped)
                         && !(IsDelivered(s, t) && t in s.dropped))
  }

  ghost predicate Inv(image: Content, s: State) { SlotsInv(image, s) && DirectInv(s) && LedgerInv(image, s) }

  ghost predicate Init(s: State) {
    && WellFormed(s.q) && s.q.len == 0 && (forall i: nat | i < CAPACITY :: s.q.slots[i].range == Range(0, 0))
    && !s.connected && !s.broken && s.inFlight == multiset{} && s.thread.Waiting?
    && s.direct == map[] && s.accepted == [] && s.delivered == [] && s.dropped == {}
  }

  lemma InitInv(image: Content, s: State)
    requires Init(s)
    ensures Inv(image, s)
  {
  }

  /** Except for a new request, a slot is at most freed or moved to another status. */
  predicate Kept(a: Slot, b: Slot) {
    b == a || (!a.status.Free? && b == Freed(a)) || (Open(a) && !b.status.Free? && b == a.(status := b.status))
  }

  ghost predicate AllKept(q: Queue, p: Queue) {
    |q.slots| == |p.slots| && forall i: nat | i < |q.slots| :: Kept(q.slots[i], p.slots[i])
  }

  lemma RemoveKeeps(q: Queue, client: nat)
    requires WellFormed(q) && client != NOBODY
    ensures WellFormed(Removed(q, client)) && AllKept(q, Removed(q, client))
  {
    RemovedWellFormed(q, client);
    var s := WithoutClient(q, client);
    forall i: nat | i < CAPACITY ensures Kept(q.slots[i], s[i]) { }
  }

  lemma MarkKeeps(q: Queue, reply: Range)
    requires WellFormed(q)
    ensures WellFormed(Marked(q, reply)) && AllKept(q, Marked(q, reply))
  {
    var s := Marked(q, reply).slots;
    forall i: nat | i < CAPACITY ensures Kept(q.slots[i], s[i]) && (s[i].status.Free? <==> q.slots[i].status.Free?) { }
  }

  lemma TrimKeeps(q: Queue, i: nat)
    requires WellFormed(q)
    ensures WellFormed(TrimOne(q, i)) && AllKept(q, TrimOne(q, i))
  {
  }

  lemma FreeKeeps(q: Queue, i: nat)
    requires WellFormed(q) && i < CAPACITY && !q.slots[i].status.Free?
    ensures WellFormed(q.(slots := q.slots[i := Freed(q.slots[i])]))
    ensures AllKept(q, q.(slots := q.slots[i := Freed(q.slots[i])]))
  {
  }

  predicate Serves(s: State, step: Step) {
    step.Deliver? && s.thread.Delivering? && 0 < s.thread.i <= |s.q.slots|
      && s.q.slots[s.thread.i - 1].status.Processing?
  }

  lemma DeliveryKeeps(image: Content, s: State, step: Step, t: State)
    requires WellFormed(s.q) && Enabled(image, s, step) && (step.Deliver? || step.Relock?) && t == Apply(image, s, step)
    ensures WellFormed(t.q) && AllKept(s.q, t.q) && t.accepted == s.accepted
  {
    if Serves(s, step) {
      FreeKeeps(s.q, s.thread.i - 1);
    } else if step.Relock? {
      TrimKeeps(s.q, s.thread.i);
    } else if s.thread.i > 0 {
      TrimKeeps(s.q, s.thread.i - 1);
    }
  }

  lemma PickKeeps(image: Content, s: State, t: State)
    requires WellFormed(s.q) && Enabled(image, s, Pick) && t == Apply(image, s, Pick)
    ensures WellFormed(t.q) && AllKept(s.q, t.q) && t.accepted == s.accepted
  {
  }

  lemma DirectMarkKeeps(image: Content, s: State, client: nat, t: State)
    requires WellFormed(s.q) && Enabled(image, s, DirectMark(client)) && t == Apply(image, s, DirectMark(client))
    ensures WellFormed(t.q) && AllKept(s.q, t.q) && t.accepted == s.accepted
  {
  }

  lemma StepKeeps(image: Content, s: State, step: Step)
    requires WellFormed(s.q) && Enabled(image, s, step) && !step.Accept?
    ensures WellFormed(Apply(image, s, step).q) && AllKept(s.q, Apply(image, s, step).q)
    ensures Apply(image, s, step).accepted == s.accepted
  {
    if step.RemoveClient? {
      RemoveKeeps(s.q, step.client);
    } else if step.Reply? {
      MarkKeeps(s.q, step.range);
    } else if step.Deliver? || step.Relock? {
      DeliveryKeeps(image, s, step, Apply(image, s, step));
    } else if step.Pick? {
      PickKeeps(image, s, Apply(image, s, step));
    } else if step.DirectMark? {
      DirectMarkKeeps(image, s, step.client, Apply(image, s, step));
    } else {
      assert Apply(image, s, step).q == s.q;
    }
  }

  lemma KeptAgrees(q: Queue, p: Queue, accepted: seq<Request>)
    requires |q.slots| == CAPACITY && Agrees(q, accepted) && AllKept(q, p)
    ensures Agrees(p, accepted)
  {
    assert forall i: nat | i < CAPACITY && !p.slots[i].status.Free? ::
        && !q.slots[i].status.Free? && Kept(q.slots[i], p.slots[i]) && p.slots[i].ticket == q.slots[i].ticket
        && p.slots[i] == q.slots[i].(status := p.slots[i].status);
  }

  lemma EnqueueAgrees(q: Queue, r: Request, accepted: seq<Request>)
    requires WellFormed(q) && Agrees(q, accepted) && !IsFull(q)
    ensures |Enqueued(q, r, |accepted|).slots| == CAPACITY && Agrees(Enqueued(q, r, |accepted|), accepted + [r])
  {
  }

  lemma ProcessingReply(q: Queue, reply: Range)
    requires WellFormed(q) && forall i: nat | i < CAPACITY :: !q.slots[i].status.Processing?
    ensures ProcessingAhead(Marked(q, reply), Delivering(q.len, reply))
  {
  }

  /** Only the marking pass makes slots PROCESSING ... */
  lemma ProcessingKept(image: Content, s: State, step: Step, t: State)
    requires WellFormed(s.q) && Enabled(image, s, step) && t == Apply(image, s, step) && !step.Reply?
    ensures |t.q.slots| == |s.q.slots|
    ensures forall i: nat | i < |t.q.slots| && t.q.slots[i].status.Processing? :: t.q.slots[i] == s.q.slots[i]
  {
  }

  /** ... and the delivery pass does not skip one. */
  lemma DeliveryGoesOn(image: Content, s: State, step: Step, t: State)
    requires WellFormed(s.q) && Enabled(image, s, step) && t == Apply(image, s, step) && !step.Reply?
    ensures s.thread.Delivering? || s.thread.Relocking? ==>
              || ((t.thread.Delivering? || t.thread.Relocking?) && t.thread.reply == s.thread.reply
                  && forall i: nat | i < s.thread.i && i < |t.q.slots| && t.q.slots[i].status.Processing? ::
                       i < t.thread.i)
              || (s.thread.i == 0 && t.thread.Waiting?)
  {
    if !step.Deliver? && !step.Relock? { assert s.thread.Delivering? || s.thread.Relocking? ==> t.thread == s.thread; }
  }

  lemma ProcessingStep(image: Content, s: State, step: Step, t: State)
    requires WellFormed(s.q) && ProcessingAhead(s.q, s.thread) && Enabled(image, s, step) && t == Apply(image, s, step)
    requires step.Accept? || AllKept(s.q, t.q)
    ensures ProcessingAhead(t.q, t.thread)
  {
    if step.Reply? {
      ProcessingReply(s.q, step.range);
    } else {
      ProcessingKept(image, s, step, t);
      DeliveryGoesOn(image, s, step, t);
      forall i: nat | i < |t.q.slots| && t.q.slots[i].status.Processing?
        ensures (t.thread.Delivering? || t.thread.Relocking?) && i < t.thread.i
        ensures Within(t.q.slots[i].range, t.thread.reply)
      {
        assert s.q.slots[i].status.Processing?;
      }
    }
  }

  lemma WireInImage(image: Content, r: Range)
    requires InImage(image, r)
    ensures InImage(image, WireRange(r))
  {
  }

  lemma KeptRanges(image: Content, q: Queue, p: Queue)
    requires AllKept(q, p) && forall i: nat | i < |q.slots| :: InImage(image, q.slots[i].range)
    ensures forall i: nat | i < |p.slots| :: InImage(image, p.slots[i].range)
  {
    forall i: nat | i < |p.slots| ensures InImage(image, p.slots[i].range) { assert Kept(q.slots[i], p.slots[i]); }
  }

  lemma SlotRangesStep(image: Content, s: State, step: Step, t: State)
    requires WellFormed(s.q) && WiresInImage(image, s) && Enabled(image, s, step) && t == Apply(image, s, step)
    requires step.Accept? || AllKept(s.q, t.q)
    ensures forall i: nat | i < |t.q.slots| :: InImage(image, t.q.slots[i].range)
  {
    if !step.Accept? { KeptRanges(image, s.q, t.q); }
  }

  lemma InFlightStep(image: Content, s: State, step: Step, t: State)
    requires WellFormed(s.q) && WiresInImage(image, s) && Enabled(image, s, step) && t == Apply(image, s, step)
    ensures forall w: Range | w in t.inFlight :: InImage(image, w)
  {
    if step.DirectSend? { WireInImage(image, s.q.slots[s.direct[step.client].slot].range); }
    if step.Wire? { assert s.thread.onWire[0] in s.thread.onWire; }
  }

  lemma OnWireStep(image: Content, s: State, step: Step, t: State)
    requires WellFormed(s.q) && WiresInImage(image, s) && Enabled(image, s, step) && t == Apply(image, s, step)
    ensures t.thread.Sending? ==> |t.thread.onWire| <= 1 && forall w <- t.thread.onWire :: InImage(image, w)
  {
    if step.Pick? {
      var j := NextSendable(s.q, s.thread.next, !s.thread.all);
      if j < s.q.len { WireInImage(image, s.q.slots[j].range); }
    }
  }

  lemma ReplyRangeStep(image: Content, s: State, step: Step, t: State)
    requires WellFormed(s.q) && WiresInImage(image, s) && Enabled(image, s, step) && t == Apply(image, s, step)
    ensures t.thread.Delivering? || t.thread.Relocking? ==> InImage(image, t.thread.reply)
  {
  }

  lemma SlotsStep(image: Content, s: State, step: Step)
    requires SlotsInv(image, s) && Enabled(image, s, step)
    ensures SlotsInv(image, Apply(image, s, step))
  {
    if step.Accept? {
      EnqueuedWellFormed(s.q, step.r, |s.accepted|);
      EnqueueAgrees(s.q, step.r, s.accepted);
    } else {
      StepKeeps(image, s, step);
      KeptAgrees(s.q, Apply(image, s, step).q, s.accepted);
    }
    ProcessingStep(image, s, step, Apply(image, s, step));
    SlotRangesStep(image, s, step, Apply(image, s, step));
    InFlightStep(image, s, step, Apply(image, s, step));
    OnWireStep(image, s, step, Apply(image, s, step));
    ReplyRangeStep(image, s, step, Apply(image, s, step));
  }

  lemma DirectKept(q: Queue, p: Queue, accepted: seq<Request>, c: nat, d: Direct)
    requires DirectOk(q, accepted, c, d) && AllKept(q, p)
    ensures DirectOk(p, accepted, c, d)
  {
    assert Kept(q.slots[d.slot], p.slots[d.slot]);
  }

  lemma DirectMapStep(image: Content, s: State, step: Step)
    requires WellFormed(s.q) && Enabled(image, s, step) && !step.Accept?
    ensures forall c <- Apply(image, s, step).direct ::
              c in s.direct
                && Apply(image, s, step).direct[c] == s.direct[c].(sent := Apply(image, s, step).direct[c].sent)
  {
  }

  lemma DirectStep(image: Content, s: State, step: Step, t: State)
    requires SlotsInv(image, s) && DirectInv(s) && Enabled(image, s, step) && !step.Accept?
    requires t == Apply(image, s, step)
    ensures WellFormed(t.q) && DirectInv(t)
  {
    StepKeeps(image, s, step);
    DirectMapStep(image, s, step);
    forall c <- t.direct ensures DirectOk(t.q, t.accepted, c, t.direct[c]) {
      DirectKept(s.q, t.q, s.accepted, c, s.direct[c]);
    }
  }

  lemma DirectAccept(image: Content, s: State, r: Request)
    requires SlotsInv(image, s) && DirectInv(s) && Enabled(image, s, Accept(r))
    ensures DirectInv(AcceptRequest(s, r))
  {
    var t := AcceptRequest(s, r);
    forall c <- t.direct ensures DirectOk(t.q, t.accepted, c, t.direct[c]) {
      if c in s.direct { assert DirectOk(s.q, s.accepted, c, s.direct[c]); }
    }
  }

  /** The handle and client test in front of the direct PENDING mark recognizes the client's own request. */
  lemma DirectMarkIsExact(s: State, c: nat)
    requires WellFormed(s.q) && DirectInv(s) && c in s.direct
    ensures var d := s.direct[c];
            s.q.slots[d.slot].handle == d.handle && s.q.slots[d.slot].client == c ==> Holds(s.q, d.slot, d.ticket)
  {
  }
}
