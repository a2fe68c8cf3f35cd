/** Runs of the uplink: what goes out to the upstream server, and how often (src/server/uplink.c 150-290, 585-620). */
module UplinkSending {
  import opened Blocks
  import opened UplinkQueue
  import opened UplinkSystem
  import opened UplinkRuns

  /** The range on the wire is the smallest run of 4 KiB blocks around the requested one. */
  predicate SmallestAround(w: Range, r: Range) {
    && w.lo % 4096 == 0 && w.lo <= r.lo < w.lo + 4096
    && w.hi % 4096 == 0 && r.hi <= w.hi < r.hi + 4096
  }

  /** This turn of uplink_sendRequests marks slot j as sent and is about to send it. */
  ghost predicate SendsSlot(s: State, t: State, j: nat) {
    && s.thread.Sending? && t.thread.Sending? && |t.thread.onWire| == 1
    && j < |s.q.slots| && t.q == s.q.(slots := s.q.slots[j := s.q.slots[j].(status := Pending)])
    && SmallestAround(t.thread.onWire[0], s.q.slots[j].range)
  }

  /** A turn of uplink_sendRequests ends the pass, or sends one slot behind those looked at: a NEW one, or, only in a
      pass behind a server switch, a PENDING one. */
  lemma PickSends(image: Content, s: State, t: State)
    requires WellFormed(s.q) && Enabled(image, s, Pick) && t == Apply(image, s, Pick)
    ensures t.thread.Waiting? ==>
              t.q == s.q && forall j: nat | s.thread.next <= j < s.q.len :: !s.q.slots[j].status.New?
    ensures !t.thread.Waiting? ==>
              exists j: nat :: SendsSlot(s, t, j) && s.thread.next <= j < s.q.len && t.thread.next == j + 1
                && (s.q.slots[j].status.New? || (s.thread.all && s.q.slots[j].status.Pending?))
  {
    var j := NextSendable(s.q, s.thread.next, !s.thread.all);
    if j < s.q.len { assert SendsSlot(s, t, j); }
  }

  /** One step of a run. */
  ghost predicate Follows(image: Content, s: State, step: Step, t: State) {
    WellFormed(s.q) && Enabled(image, s, step) && t == Apply(image, s, step)
  }

  ghost predicate Chain(image: Content, states: seq<State>, steps: seq<Step>) {
    && |states| == |steps| + 1
    && forall n: nat {:trigger steps[n]} | n < |steps| :: Follows(image, states[n], steps[n], states[n + 1])
  }

  lemma RunIsChain(image: Content, states: seq<State>, steps: seq<Step>)
    requires IsRun(image, states, steps)
    ensures Chain(image, states, steps)
  {
    forall n: nat {:trigger steps[n]} | n < |steps| ensures Follows(image, states[n], steps[n], states[n + 1]) {
      assert states[n + 1] == Apply(image, states[n], steps[n]);
    }
  }

  /** A pass goes on as it was begun. */
  lemma PassStep(image: Content, s: State, step: Step, t: State)
    requires Follows(image, s, step, t) && s.thread.Sending? && t.thread.Sending?
    ensures t.thread.all == s.thread.all
  {
  }

  lemma {:induction false} PassKept(image: Content, states: seq<State>, steps: seq<Step>, a: nat, b: nat)
    requires Chain(image, states, steps) && a <= b <= |steps|
    requires forall n: nat | a <= n <= b :: states[n].thread.Sending?
    ensures states[b].thread.all == states[a].thread.all
  {
    if a < b {
      PassKept(image, states, steps, a, b - 1);
      PassStep(image, states[b - 1], steps[b - 1], states[b]);
    }
  }

  lemma PassSendsNewOnly(image: Content, states: seq<State>, steps: seq<Step>, a: nat, b: nat)
    requires Chain(image, states, steps) && a < b < |steps| && steps[a].Signalled? && steps[b].Pick?
    requires forall n: nat | a < n <= b :: states[n].thread.Sending?
    ensures !states[b + 1].thread.Waiting? ==>
              exists j: nat :: SendsSlot(states[b], states[b + 1], j) && states[b].q.slots[j].status.New?
  {
    assert Follows(image, states[a], steps[a], states[a + 1]) && Follows(image, states[b], steps[b], states[b + 1]);
    PassKept(image, states, steps, a + 1, b);
    PickSends(image, states[b], states[b + 1]);
  }

  /** A pass begun by a signal puts no slot on the wire that is PENDING: whatever it sends was NEW. */
  lemma SignalSendsNewOnly(image: Content, states: seq<State>, steps: seq<Step>, a: nat, b: nat)
    requires IsRun(image, states, steps) && a < b < |steps| && steps[a].Signalled? && steps[b].Pick?
    requires forall n: nat | a < n <= b :: states[n].thread.Sending?
    ensures !states[b + 1].thread.Waiting? ==>
              exists j: nat :: SendsSlot(states[b], states[b + 1], j) && states[b].q.slots[j].status.New?
  {
    RunIsChain(image, states, steps);
    PassSendsNewOnly(image, states, steps, a, b);
  }

  /** Request t is not NEW: it was sent, or has left the queue. */
  ghost predicate NotNew(q: Queue, t: nat) { forall i: nat | Holds(q, i, t) :: !q.slots[i].status.New? }

  /** No step but accepting a request makes a slot NEW. */
  lemma NeverNewAgain(image: Content, s: State, step: Step, i: nat)
    requires WellFormed(s.q) && Enabled(image, s, step) && i < |s.q.slots| && !s.q.slots[i].status.New?
    requires !step.Accept? || i != FreeSlot(s.q.slots, s.q.len, 0)
    ensures |Apply(image, s, step).q.slots| == |s.q.slots| && !Apply(image, s, step).q.slots[i].status.New?
  {
  }

  lemma NotNewStep(image: Content, s: State, step: Step, u: State, t: nat)
    requires Follows(image, s, step, u) && NotNew(s.q, t) && t < |s.accepted|
    ensures NotNew(u.q, t) && t < |u.accepted|
  {
    forall i: nat | Holds(u.q, i, t) ensures !u.q.slots[i].status.New? {
      if !step.Accept? {
        StepKeeps(image, s, step);
        assert Kept(s.q.slots[i], u.q.slots[i]);
      }
      assert Holds(s.q, i, t);
      NeverNewAgain(image, s, step, i);
    }
  }

  lemma {:induction false} StaysNotNew(image: Content, states: seq<State>, steps: seq<Step>, a: nat, b: nat, t: nat)
    requires Chain(image, states, steps) && a <= b <= |steps|
    requires NotNew(states[a].q, t) && t < |states[a].accepted|
    ensures NotNew(states[b].q, t) && t < |states[b].accepted|
  {
    if a < b {
      StaysNotNew(image, states, steps, a, b - 1, t);
      NotNewStep(image, states[b - 1], steps[b - 1], states[b], t);
    }
  }

  lemma AcceptedGrow(image: Content, s: State, step: Step, t: State)
    requires Follows(image, s, step, t)
    ensures |s.accepted| <= |t.accepted|
  {
  }

  lemma ChainSendsOnce(image: Content, states: seq<State>, steps: seq<Step>, a: nat, b: nat, i: nat, j: nat)
    requires Chain(image, states, steps) && a < b < |steps| && SlotsInv(image, states[a])
    requires SendsSlot(states[a], states[a + 1], i) && SendsSlot(states[b], states[b + 1], j)
    requires states[a].q.slots[i].status.New? && states[b].q.slots[j].status.New?
    ensures states[a].q.slots[i].ticket != states[b].q.slots[j].ticket
  {
    var p, q, t := states[a].q, states[a + 1].q, states[a].q.slots[i].ticket;
    assert Holds(p, i, t) && Holds(states[b].q, j, states[b].q.slots[j].ticket);
    forall k: nat | Holds(q, k, t) ensures !q.slots[k].status.New? { assert Holds(p, k, t); }
    assert NotNew(q, t);
    assert Follows(image, states[a], steps[a], states[a + 1]);
    AcceptedGrow(image, states[a], steps[a], states[a + 1]);
    StaysNotNew(image, states, steps, a + 1, b, t);
  }

  /** What a signalled pass has sent is not sent again by any later signalled pass; only a server switch repeats it. */
  lemma SignalsSendOnce(image: Content, states: seq<State>, steps: seq<Step>, a: nat, b: nat, i: nat, j: nat)
    requires IsRun(image, states, steps) && a < b < |steps|
    requires SendsSlot(states[a], states[a + 1], i) && SendsSlot(states[b], states[b + 1], j)
    requires states[a].q.slots[i].status.New? && states[b].q.slots[j].status.New?
    ensures states[a].q.slots[i].ticket != states[b].q.slots[j].ticket
  {
    RunIsChain(image, states, steps);
    RunInv(image, states, steps, a);
    ChainSendsOnce(image, states, steps, a, b, i, j);
  }

  /** A request inside the range of a NEW one is not sent on its own: its slot is PENDING, so no signal sends it, and
      its client does not send it either. */
  lemma CoalescedIsNotSent(image: Content, s: State, r: Request, t: State)
    requires WellFormed(s.q) && Enabled(image, s, Accept(r)) && t == Apply(image, s, Accept(r))
    requires exists j: nat :: j < s.q.len && s.q.slots[j].status.New?
               && s.q.slots[j].range.lo <= r.range.lo && r.range.hi <= s.q.slots[j].range.hi
    ensures t.direct == s.direct && t.inFlight == s.inFlight
    ensures exists f: nat :: f < |s.q.slots| && s.q.slots[f].status.Free?
              && t.q.slots == s.q.slots[f := Slot(Pending, r.client, r.handle, r.range, r.hops, |s.accepted|)]
  {
    WaitingAttach(s.q, r);
    EnqueuedWellFormed(s.q, r, |s.accepted|);
  }

  /** A request that lies in no waiting one is NEW and left to its client to send. */
  lemma LoneRequestIsSent(image: Content, s: State, r: Request, t: State)
    requires WellFormed(s.q) && Enabled(image, s, Accept(r)) && t == Apply(image, s, Accept(r))
    requires forall j: nat | j < s.q.len && (s.q.slots[j].status.New? || s.q.slots[j].status.Pending?) ::
               !(s.q.slots[j].range.lo <= r.range.lo && r.range.hi <= s.q.slots[j].range.hi)
    ensures exists f: nat :: f < |s.q.slots| && s.q.slots[f].status.Free?
              && t.q.slots == s.q.slots[f := Slot(New, r.client, r.handle, r.range, r.hops, |s.accepted|)]
              && t.direct == s.direct[r.client := Direct(f, r.handle, |s.accepted|, false)]
  {
    AttachesMeans(s.q, r, FreeSlot(s.q.slots, s.q.len, 0));
    EnqueuedWellFormed(s.q, r, |s.accepted|);
  }

  /** Client 1 asks for two blocks and, before it has sent anything, client 2 for the first of them: one range goes out,
      and its reply answers both. */
  function Two(k: nat): Request {
    if k == 0 then Request(1, 7, Range(0, 8192), 0) else Request(2, 9, Range(0, 4096), 0)
  }

  function SlotOfTwo(k: nat, status: Status): Slot {
    Slot(status, Two(k).client, Two(k).handle, Two(k).range, 0, k)
  }

  /** Both are in the queue, the second one attached to the first. */
  ghost predicate BothQueued(s: State) {
    && WellFormed(s.q) && s.q.len == 2 && s.q.slots[0] == SlotOfTwo(0, New) && s.q.slots[1] == SlotOfTwo(1, Pending)
    && s.direct == map[1 := Direct(0, 7, 0, false)] && s.inFlight == multiset{} && s.connected && s.thread.Waiting?
    && s.accepted == [Two(0), Two(1)] && s.delivered == []
  }

  lemma QueueBoth(image: Content, s0: State) returns (states: seq<State>, steps: seq<Step>)
    requires Init(s0) && |image| >= 8192
    ensures IsRun(image, states, steps) && BothQueued(states[|steps|])
    ensures steps == [Switch, Pick, Accept(Two(0)), Accept(Two(1))]
  {
    var s1 := Apply(image, s0, Switch);
    var s2 := Apply(image, s1, Pick);
    assert s2.thread.Waiting? && s2.q == s0.q;
    EnqueuedWellFormed(s2.q, Two(0), 0);
    AttachesMeans(s2.q, Two(0), 0);
    var s3 := Apply(image, s2, Accept(Two(0)));
    RejectsMeans(s3.q, Two(1));
    AttachesMeans(s3.q, Two(1), 1);
    EnqueuedWellFormed(s3.q, Two(1), 1);
    var s4 := Apply(image, s3, Accept(Two(1)));
    states, steps := [s0, s1, s2, s3, s4], [Switch, Pick, Accept(Two(0)), Accept(Two(1))];
  }

  /** The range is in flight, both requests are PENDING. */
  ghost predicate OneInFlight(s: State) {
    && WellFormed(s.q) && s.q.len == 2 && s.q.slots[0] == SlotOfTwo(0, Pending) && s.q.slots[1] == SlotOfTwo(1, Pending)
    && s.inFlight == multiset{Range(0, 8192)} && s.connected && s.thread.Waiting? && s.delivered == []
  }

  lemma SendOne(image: Content, s: State) returns (t: State, u: State)
    requires BothQueued(s) && |image| >= 8192
    ensures Enabled(image, s, DirectSend(1, true)) && t == Apply(image, s, DirectSend(1, true)) && WellFormed(t.q)
    ensures Enabled(image, t, DirectMark(1)) && u == Apply(image, t, DirectMark(1)) && OneInFlight(u)
  {
    t := Apply(image, s, DirectSend(1, true));
    u := Apply(image, t, DirectMark(1));
  }

  /** The answers to both. */
  function BothAnswers(image: Content): seq<Delivery>
    requires |image| >= 8192
  {
    [Delivery(1, 2, 9, image[0..4096]), Delivery(0, 1, 7, image[0..8192])]
  }

  /** The second client is answered, the first one not yet. */
  ghost predicate OneAnswered(image: Content, s: State)
    requires |image| >= 8192
  {
    && WellFormed(s.q) && s.thread == Delivering(1, Range(0, 8192)) && s.q.slots[0] == SlotOfTwo(0, Processing)
    && s.delivered == BothAnswers(image)[..1]
  }

  lemma AnswerSecond(image: Content, s: State) returns (t: State, u: State, v: State)
    requires OneInFlight(s) && |image| >= 8192
    ensures Enabled(image, s, Reply(Range(0, 8192))) && t == Apply(image, s, Reply(Range(0, 8192))) && WellFormed(t.q)
    ensures Enabled(image, t, Deliver) && u == Apply(image, t, Deliver) && WellFormed(u.q)
    ensures Enabled(image, u, Relock) && v == Apply(image, u, Relock) && OneAnswered(image, v)
  {
    t := Apply(image, s, Reply(Range(0, 8192)));
    u := Apply(image, t, Deliver);
    v := Apply(image, u, Relock);
    assert image[0..8192][0..4096] == image[0..4096];
  }

  lemma AnswerFirst(image: Content, s: State) returns (t: State)
    requires |image| >= 8192 && OneAnswered(image, s)
    ensures Enabled(image, s, Deliver) && t == Apply(image, s, Deliver) && t.delivered == BothAnswers(image)
  {
    t := Apply(image, s, Deliver);
    assert image[0..8192][0..8192] == image[0..8192];
  }

  lemma RunOn(image: Content, states: seq<State>, steps: seq<Step>, step: Step, t: State)
    requires IsRun(image, states, steps) && WellFormed(states[|steps|].q)
    requires Enabled(image, states[|steps|], step) && t == Apply(image, states[|steps|], step)
    ensures IsRun(image, states + [t], steps + [step])
  {
    var longer, more := states + [t], steps + [step];
    forall j: nat | j < |more|
      ensures WellFormed(longer[j].q) && Enabled(image, longer[j], more[j])
      ensures longer[j + 1] == Apply(image, longer[j], more[j])
    {
      if j < |steps| { assert states[j + 1] == Apply(image, states[j], steps[j]); }
    }
  }

  lemma OneSent(image: Content, s0: State) returns (states: seq<State>)
    requires Init(s0) && |image| >= 8192
    ensures var steps := [Switch, Pick, Accept(Two(0)), Accept(Two(1)), DirectSend(1, true), DirectMark(1)];
            IsRun(image, states, steps) && OneInFlight(states[|steps|])
  {
    var steps: seq<Step>;
    states, steps := QueueBoth(image, s0);
    var t, u := SendOne(image, states[|steps|]);
    RunOn(image, states, steps, DirectSend(1, true), t);
    RunOn(image, states + [t], steps + [DirectSend(1, true)], DirectMark(1), u);
    states := states + [t] + [u];
    assert steps + [DirectSend(1, true)] + [DirectMark(1)]
        == [Switch, Pick, Accept(Two(0)), Accept(Two(1)), DirectSend(1, true), DirectMark(1)];
  }

  lemma SecondAnswered(image: Content, states0: seq<State>, steps: seq<Step>) returns (states: seq<State>)
    requires |image| >= 8192 && IsRun(image, states0, steps) && OneInFlight(states0[|steps|])
    ensures IsRun(image, states, steps + [Reply(Range(0, 8192)), Deliver, Relock])
    ensures OneAnswered(image, states[|steps| + 3])
  {
    var a, b, c := AnswerSecond(image, states0[|steps|]);
    RunOn(image, states0, steps, Reply(Range(0, 8192)), a);
    RunOn(image, states0 + [a], steps + [Reply(Range(0, 8192))], Deliver, b);
    RunOn(image, states0 + [a] + [b], steps + [Reply(Range(0, 8192))] + [Deliver], Relock, c);
    states := states0 + [a] + [b] + [c];
    assert steps + [Reply(Range(0, 8192))] + [Deliver] + [Relock] == steps + [Reply(Range(0, 8192)), Deliver, Relock];
  }

  lemma OneReplyAnswersBoth(image: Content, s0: State) returns (states: seq<State>)
    requires Init(s0) && |image| >= 8192
    ensures var steps := [Switch, Pick, Accept(Two(0)), Accept(Two(1)), DirectSend(1, true), DirectMark(1),
                          Reply(Range(0, 8192)), Deliver, Relock, Deliver];
            IsRun(image, states, steps) && states[|steps|].delivered == BothAnswers(image)
  {
    var steps := [Switch, Pick, Accept(Two(0)), Accept(Two(1)), DirectSend(1, true), DirectMark(1)];
    states := OneSent(image, s0);
    states := SecondAnswered(image, states, steps);
    steps := steps + [Reply(Range(0, 8192)), Deliver, Relock];
    var d := AnswerFirst(image, states[|steps|]);
    RunOn(image, states, steps, Deliver, d);
    states := states + [d];
  }
}
