/** Runs of the uplink: every accepted request is in exactly one place, and answered exactly and at most once. */
module UplinkRuns {
  import opened Blocks
  import opened UplinkQueue
  import opened UplinkSystem

  // ---------------------------------------------------------------- the ledger

  /** No step but the ones below takes a request out of the queue or answers one. */
  ghost predicate SameTickets(q: Queue, p: Queue) {
    forall t: nat :: InQueue(q, t) <==> InQueue(p, t)
  }

  ghost predicate SameUse(q: Queue, p: Queue) {
    |q.slots| == |p.slots| && forall i: nat | i < |q.slots| ::
      q.slots[i].status.Free? == p.slots[i].status.Free? && q.slots[i].ticket == p.slots[i].ticket
  }

  lemma SameUseTickets(q: Queue, p: Queue)
    requires SameUse(q, p)
    ensures SameTickets(q, p)
  {
    forall t: nat ensures InQueue(q, t) <==> InQueue(p, t) {
      assert forall i: nat :: Holds(q, i, t) <==> Holds(p, i, t);
    }
  }

  lemma EnqueueTickets(q: Queue, r: Request, accepted: seq<Request>, t: nat)
    requires WellFormed(q) && Agrees(q, accepted) && !IsFull(q)
    ensures InQueue(Enqueued(q, r, |accepted|), t) <==> InQueue(q, t) || t == |accepted|
  {
    var p, f := Enqueued(q, r, |accepted|), FreeSlot(q.slots, q.len, 0);
    assert Holds(p, f, |accepted|);
    assert forall i: nat | i != f :: Holds(p, i, t) <==> Holds(q, i, t);
    assert !Holds(q, f, t);
  }

  lemma RemoveTickets(q: Queue, accepted: seq<Request>, client: nat, t: nat)
    requires WellFormed(q) && Agrees(q, accepted) && client != NOBODY
    ensures var gone := set i: nat | i < q.len && q.slots[i].client == client :: q.slots[i].ticket;
            && (InQueue(Removed(q, client), t) <==> InQueue(q, t) && t !in gone)
            && (t in gone ==> InQueue(q, t) && t < |accepted|)
  {
    var p := Removed(q, client);
    var s := WithoutClient(q, client);
    assert forall i: nat | i < CAPACITY ::
      s[i] == if i < q.len && q.slots[i].client == client then Freed(q.slots[i]) else q.slots[i];
    assert forall i: nat :: Holds(p, i, t) <==> Holds(q, i, t) && q.slots[i].client != client;
    forall i: nat | i < q.len && q.slots[i].client == client ensures Holds(q, i, q.slots[i].ticket) { }
  }

  lemma FreeTickets(q: Queue, accepted: seq<Request>, i: nat, t: nat)
    requires WellFormed(q) && Agrees(q, accepted) && i < CAPACITY && !q.slots[i].status.Free?
    ensures InQueue(q.(slots := q.slots[i := Freed(q.slots[i])]), t) <==> InQueue(q, t) && t != q.slots[i].ticket
    ensures InQueue(q, q.slots[i].ticket)
  {
    var p := q.(slots := q.slots[i := Freed(q.slots[i])]);
    assert Holds(q, i, q.slots[i].ticket);
    assert forall j: nat | j != i :: Holds(p, j, t) <==> Holds(q, j, t);
    assert !Holds(p, i, t);
  }

  /** The bytes taken from the receive buffer are the image's bytes of the requested range. */
  lemma ServedExact(image: Content, sl: Slot, reply: Range, accepted: seq<Request>)
    requires InImage(image, reply) && Within(sl.range, reply) && sl.range.lo <= sl.range.hi
    requires sl.ticket < |accepted| && SlotOf(sl, accepted[sl.ticket])
    ensures Exact(image, accepted, Served(image, sl, reply))
  {
    assert image[reply.lo..reply.hi][sl.range.lo - reply.lo..sl.range.hi - reply.lo] == image[sl.range.lo..sl.range.hi];
  }

  lemma MarkUse(q: Queue, reply: Range)
    requires WellFormed(q)
    ensures SameUse(q, Marked(q, reply))
  {
    var s := Marked(q, reply).slots;
    forall i: nat | i < CAPACITY
      ensures s[i] == q.slots[i] || (!q.slots[i].status.Free? && s[i] == q.slots[i].(status := Processing))
    {
    }
  }

  lemma QuietStep(image: Content, s: State, step: Step, t: State)
    requires WellFormed(s.q) && Enabled(image, s, step) && t == Apply(image, s, step)
    requires !step.Accept? && !step.RemoveClient? && !Serves(s, step)
    ensures SameUse(s.q, t.q) && t.accepted == s.accepted && t.delivered == s.delivered && t.dropped == s.dropped
  {
    if step.Reply? {
      MarkUse(s.q, step.range);
    } else if !step.Pick? && !step.DirectMark? {
      assert t.q.slots == s.q.slots;
    }
  }

  lemma LedgerQuiet(image: Content, s: State, t: State)
    requires WellFormed(s.q) && WellFormed(t.q) && LedgerInv(image, s)
    requires SameUse(s.q, t.q) && t.accepted == s.accepted && t.delivered == s.delivered && t.dropped == s.dropped
    ensures LedgerInv(image, t)
  {
    SameUseTickets(s.q, t.q);
    forall n: nat ensures IsDelivered(s, n) == IsDelivered(t, n) { }
  }

  lemma LedgerAccept(image: Content, s: State, r: Request)
    requires Inv(image, s) && Enabled(image, s, Accept(r)) && WellFormed(AcceptRequest(s, r).q)
    ensures LedgerInv(image, AcceptRequest(s, r))
  {
    var t := AcceptRequest(s, r);
    forall n: nat ensures IsDelivered(s, n) == IsDelivered(t, n) { }
    forall n: nat
      ensures InQueue(t.q, n) <==> InQueue(s.q, n) || n == |s.accepted|
    {
      EnqueueTickets(s.q, r, s.accepted, n);
    }
    forall d <- t.delivered ensures Exact(image, t.accepted, d) { assert Exact(image, s.accepted, d); }
    assert !IsDelivered(s, |s.accepted|) by {
      forall k: nat | k < |s.delivered|
        ensures s.delivered[k].ticket != |s.accepted|
      {
        assert Exact(image, s.accepted, s.delivered[k]);
      }
    }
  }

  lemma LedgerRemove(image: Content, s: State, client: nat, t: State)
    requires Inv(image, s) && Enabled(image, s, RemoveClient(client)) && t == Apply(image, s, RemoveClient(client))
    ensures WellFormed(t.q) && LedgerInv(image, t)
  {
    RemovedWellFormed(s.q, client);
    var gone := set i: nat | i < s.q.len && s.q.slots[i].client == client :: s.q.slots[i].ticket;
    forall n: nat ensures IsDelivered(s, n) == IsDelivered(t, n) { }
    forall n: nat
      ensures (InQueue(t.q, n) <==> InQueue(s.q, n) && n !in gone)
      ensures (n in gone ==> InQueue(s.q, n) && n < |s.accepted|)
    {
      RemoveTickets(s.q, s.accepted, client, n);
    }
  }

  lemma AppendDelivered(s: State, t: State, d: Delivery)
    requires t.delivered == s.delivered + [d]
    ensures forall n: nat :: IsDelivered(t, n) <==> IsDelivered(s, n) || n == d.ticket
  {
    forall n: nat ensures IsDelivered(t, n) <==> IsDelivered(s, n) || n == d.ticket {
      assert t.delivered[|s.delivered|] == d;
      if IsDelivered(s, n) {
        var k: nat :| k < |s.delivered| && s.delivered[k].ticket == n;
        assert t.delivered[k].ticket == n;
      }
    }
  }

  lemma LedgerMove(image: Content, s: State, t: State, d: Delivery)
    requires WellFormed(s.q) && WellFormed(t.q) && LedgerInv(image, s) && t.accepted == s.accepted
    requires t.dropped == s.dropped
    requires t.delivered == s.delivered + [d] && Exact(image, s.accepted, d) && InQueue(s.q, d.ticket)
    requires forall n: nat :: InQueue(t.q, n) <==> InQueue(s.q, n) && n != d.ticket
    ensures LedgerInv(image, t)
  {
    AppendDelivered(s, t, d);
    forall k: nat | k < |s.delivered|
      ensures s.delivered[k].ticket != d.ticket
    {
      assert IsDelivered(s, s.delivered[k].ticket);
    }
  }

  lemma ServeOne(image: Content, s: State, t: State)
    requires SlotsInv(image, s) && Serves(s, Deliver) && t == Apply(image, s, Deliver)
    ensures var sl := s.q.slots[s.thread.i - 1];
            && t.q == s.q.(slots := s.q.slots[s.thread.i - 1 := Freed(sl)])
            && t.delivered == s.delivered + [Served(image, sl, s.thread.reply)] && t.accepted == s.accepted
            && t.dropped == s.dropped
            && Exact(image, s.accepted, Served(image, sl, s.thread.reply))
            && Served(image, sl, s.thread.reply).ticket == sl.ticket
  {
    ServedExact(image, s.q.slots[s.thread.i - 1], s.thread.reply, s.accepted);
  }

  lemma LedgerServe(image: Content, s: State, t: State)
    requires SlotsInv(image, s) && LedgerInv(image, s) && Serves(s, Deliver) && t == Apply(image, s, Deliver)
    requires WellFormed(t.q)
    ensures LedgerInv(image, t)
  {
    var i := s.thread.i - 1;
    var sl := s.q.slots[i];
    ServeOne(image, s, t);
    forall n: nat ensures InQueue(t.q, n) <==> InQueue(s.q, n) && n != sl.ticket { FreeTickets(s.q, s.accepted, i, n); }
    FreeTickets(s.q, s.accepted, i, sl.ticket);
    LedgerMove(image, s, t, Served(image, sl, s.thread.reply));
  }

  lemma StepInv(image: Content, s: State, step: Step)
    requires Inv(image, s) && Enabled(image, s, step)
    ensures Inv(image, Apply(image, s, step))
  {
    var t := Apply(image, s, step);
    SlotsStep(image, s, step);
    if step.Accept? {
      DirectAccept(image, s, step.r);
      LedgerAccept(image, s, step.r);
    } else {
      DirectStep(image, s, step, t);
      if step.RemoveClient? {
        LedgerRemove(image, s, step.client, t);
      } else if Serves(s, step) {
        LedgerServe(image, s, t);
      } else {
        QuietStep(image, s, step, t);
        LedgerQuiet(image, s, t);
      }
    }
  }

  // ---------------------------------------------------------------- runs

  ghost predicate IsRun(image: Content, states: seq<State>, steps: seq<Step>) {
    && |states| == |steps| + 1 && Init(states[0])
    && forall j: nat | j < |steps| ::
         WellFormed(states[j].q) && Enabled(image, states[j], steps[j])
           && states[j + 1] == Apply(image, states[j], steps[j])
  }

  lemma {:induction false} RunInv(image: Content, states: seq<State>, steps: seq<Step>, n: nat)
    requires IsRun(image, states, steps) && n <= |steps|
    ensures Inv(image, states[n])
  {
    if n == 0 {
      InitInv(image, states[0]);
    } else {
      RunInv(image, states, steps, n - 1);
      StepInv(image, states[n - 1], steps[n - 1]);
      assert states[n - 1 + 1] == Apply(image, states[n - 1], steps[n - 1]);
    }
  }

  /** In every run each request is answered at most once, with its own handle and exactly its bytes of the image;
      each accepted request is queued, answered or dropped with its client, and only one of these. */
  lemma DeliveryIsExactAndAtMostOnce(image: Content, states: seq<State>, steps: seq<Step>)
    requires IsRun(image, states, steps)
    ensures var s := states[|steps|];
            && (forall d <- s.delivered :: Exact(image, s.accepted, d))
            && (forall k: nat, l: nat | k < l < |s.delivered| :: s.delivered[k].ticket != s.delivered[l].ticket)
            && (forall t: nat | t < |s.accepted| ::
                  && (InQueue(s.q, t) || IsDelivered(s, t) || t in s.dropped)
                  && !(InQueue(s.q, t) && IsDelivered(s, t)) && !(InQueue(s.q, t) && t in s.dropped)
                  && !(IsDelivered(s, t) && t in s.dropped))
            && WellFormed(s.q)
  {
    RunInv(image, states, steps, |steps|);
  }

  /** The asserts of uplink_handleReceive hold: no PROCESSING slot is left when a marking pass begins, an open slot
      has a client, and the delivery pass only serves slots inside its reply. */
  lemma ReceiveAssertsHold(image: Content, states: seq<State>, steps: seq<Step>)
    requires IsRun(image, states, steps)
    ensures var s := states[|steps|];
            && (s.thread.Waiting? ==> forall i: nat | i < |s.q.slots| :: !s.q.slots[i].status.Processing?)
            && (forall i: nat | i < |s.q.slots| && (s.q.slots[i].status.New? || s.q.slots[i].status.Pending?) ::
                  s.q.slots[i].client != NOBODY)
            && (Serves(s, Deliver) ==>
                  var r := s.q.slots[s.thread.i - 1].range; s.thread.reply.lo <= r.lo && r.hi <= s.thread.reply.hi)
  {
    RunInv(image, states, steps, |steps|);
  }

  /** Request t is marked for the running delivery pass, or has left the queue. */
  ghost predicate Taken(q: Queue, t: nat) { forall i: nat | Holds(q, i, t) :: q.slots[i].status.Processing? }

  lemma TakenKept(q: Queue, p: Queue, t: nat)
    requires AllKept(q, p) && Taken(q, t)
    ensures Taken(p, t)
  {
    forall i: nat | Holds(p, i, t) ensures p.slots[i].status.Processing? {
      assert Kept(q.slots[i], p.slots[i]);
      assert Holds(q, i, t);
    }
  }

  lemma TakenStep(image: Content, s: State, step: Step, t: nat)
    requires Inv(image, s) && Enabled(image, s, step) && Taken(s.q, t) && t < |s.accepted|
    ensures Taken(Apply(image, s, step).q, t) && |Apply(image, s, step).accepted| >= |s.accepted|
  {
    var u := Apply(image, s, step);
    if step.Accept? {
      assert forall i: nat | Holds(u.q, i, t) :: Holds(s.q, i, t) && u.q.slots[i] == s.q.slots[i];
    } else {
      StepKeeps(image, s, step);
      TakenKept(s.q, u.q, t);
    }
  }

  lemma {:induction false} StaysTaken(image: Content, states: seq<State>, steps: seq<Step>, a: nat, b: nat, t: nat)
    requires IsRun(image, states, steps) && a <= b <= |steps|
    requires Taken(states[a].q, t) && t < |states[a].accepted|
    ensures Taken(states[b].q, t) && t < |states[b].accepted|
  {
    if a < b {
      StaysTaken(image, states, steps, a, b - 1, t);
      RunInv(image, states, steps, b - 1);
      TakenStep(image, states[b - 1], steps[b - 1], t);
      assert states[b - 1 + 1] == Apply(image, states[b - 1], steps[b - 1]);
    }
  }

  /** When a reply has been worked off, every request that was waiting inside its range is answered, unless its
      client left meanwhile. */
  lemma ReplyAnswersAll(image: Content, states: seq<State>, steps: seq<Step>, a: nat, b: nat, i: nat)
    requires IsRun(image, states, steps) && a < b <= |steps| && steps[a].Reply? && states[b].thread.Waiting?
    requires i < |states[a].q.slots|
    requires states[a].q.slots[i].status.New? || states[a].q.slots[i].status.Pending?
    requires steps[a].range.lo <= states[a].q.slots[i].range.lo && states[a].q.slots[i].range.hi <= steps[a].range.hi
    ensures var t := states[a].q.slots[i].ticket;
            !InQueue(states[b].q, t) && (IsDelivered(states[b], t) || t in states[b].dropped)
  {
    var t := states[a].q.slots[i].ticket;
    RunInv(image, states, steps, a);
    assert states[a + 1] == Apply(image, states[a], steps[a]);
    assert Taken(states[a + 1].q, t) by {
      var p := states[a + 1].q;
      forall j: nat | Holds(p, j, t) ensures p.slots[j].status.Processing? {
        assert Holds(states[a].q, j, t) && Holds(states[a].q, i, t);
      }
    }
    StaysTaken(image, states, steps, a + 1, b, t);
    RunInv(image, states, steps, b);
  }
}
