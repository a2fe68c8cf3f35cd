/** Runs of the uplink: a reply that covers each waiting request is on its way or will be asked for. */
module UplinkCoverage {
  import opened Blocks
  import opened UplinkQueue
  import opened UplinkSystem
  import opened UplinkRuns

  // ---------------------------------------------------------------- no stranded request

  /** The uplink thread is resending everything and has not come to slot j yet. */
  predicate AwaitsResend(s: State, j: nat) { s.thread.Sending? && s.thread.all && s.thread.next <= j }

  /** Slot j will still be sent, or sent again. */
  predicate WillBeSent(s: State, j: nat) {
    j < |s.q.slots| && (s.q.slots[j].status.New? || (s.q.slots[j].status.Pending? && AwaitsResend(s, j)))
  }

  ghost predicate OnItsWay(s: State, r: Range) {
    || (exists w: Range :: w in s.inFlight && Within(r, w))
    || (s.thread.Sending? && exists w: Range :: w in s.thread.onWire && Within(r, w))
  }

  /** A reply that contains r is to come: it is on its way, or some slot covering r will be sent. */
  ghost predicate Carried(s: State, r: Range) {
    OnItsWay(s, r) || exists j: nat :: WillBeSent(s, j) && Within(r, s.q.slots[j].range)
  }

  ghost predicate Usable(s: State) { s.connected && !s.broken }

  /** No stranded request. */
  ghost predicate NoneStranded(s: State) {
    Usable(s) ==> forall i: nat | i < |s.q.slots| && Open(s.q.slots[i]) :: Carried(s, s.q.slots[i].range)
  }

  /** What SentIsCarried says about one client. */
  ghost predicate SentOk(s: State, c: nat, d: Direct) {
    d.sent && d.slot < |s.q.slots| && s.q.slots[d.slot].client == c && s.q.slots[d.slot].status.New? ==>
      OnItsWay(s, s.q.slots[d.slot].range) || AwaitsResend(s, d.slot)
  }

  /** A client that has sent its own NEW request may mark it PENDING. */
  ghost predicate SentIsCarried(s: State) {
    Usable(s) ==> forall c <- s.direct :: SentOk(s, c, s.direct[c])
  }

  lemma NewIsCarried(s: State, i: nat)
    requires i < |s.q.slots| && s.q.slots[i].status.New?
    ensures Carried(s, s.q.slots[i].range)
  {
    assert WillBeSent(s, i);
  }

  /** If every carrier of s is carried in t, so is everything s carries. */
  ghost predicate CarriersKept(s: State, t: State) {
    && (forall r: Range | OnItsWay(s, r) :: OnItsWay(t, r))
    && (forall j: nat | WillBeSent(s, j) :: Carried(t, s.q.slots[j].range))
  }

  lemma CarriedWithin(s: State, a: Range, b: Range)
    requires Within(a, b) && Carried(s, b)
    ensures Carried(s, a)
  {
  }

  lemma KeepsCarried(s: State, t: State, r: Range)
    requires CarriersKept(s, t) && Carried(s, r)
    ensures Carried(t, r)
  {
    if !OnItsWay(s, r) {
      var j: nat :| WillBeSent(s, j) && Within(r, s.q.slots[j].range);
      CarriedWithin(t, r, s.q.slots[j].range);
    }
  }

  /** Open slots of t were open in s, with the same range. */
  ghost predicate OpenBefore(s: State, t: State) {
    |t.q.slots| == |s.q.slots| &&
    forall i: nat | i < |t.q.slots| && Open(t.q.slots[i]) ::
      Open(s.q.slots[i]) && s.q.slots[i].range == t.q.slots[i].range
  }

  lemma StaysCarried(s: State, t: State)
    requires NoneStranded(s) && OpenBefore(s, t)
    requires Usable(t) ==> Usable(s) && CarriersKept(s, t)
    ensures NoneStranded(t)
  {
    if Usable(t) {
      forall i: nat | i < |t.q.slots| && Open(t.q.slots[i]) ensures Carried(t, t.q.slots[i].range) {
        KeepsCarried(s, t, s.q.slots[i].range);
      }
    }
  }

  /** Steps that touch neither an open slot nor the resend position. */
  predicate Plain(step: Step) {
    step.DirectSend? || step.DirectGiveUp? || step.Signalled? || step.Wire? || step.Replicate? || step.Deliver?
      || step.Relock?
    || step.Disconnect?
  }

  lemma PlainQueue(image: Content, s: State, step: Step, t: State)
    requires WellFormed(s.q) && Enabled(image, s, step) && Plain(step) && t == Apply(image, s, step)
    ensures |t.q.slots| == |s.q.slots|
    ensures forall i: nat | i < |s.q.slots| ::
              t.q.slots[i] == s.q.slots[i] || (s.q.slots[i].status.Processing? && t.q.slots[i].status.Free?)
  {
  }

  lemma PlainCarriers(image: Content, s: State, step: Step, t: State)
    requires WellFormed(s.q) && Enabled(image, s, step) && Plain(step) && t == Apply(image, s, step)
    requires WiresInImage(image, s) && Usable(t)
    ensures Usable(s)
    ensures forall r: Range | OnItsWay(s, r) :: OnItsWay(t, r)
    ensures forall j: nat | AwaitsResend(s, j) :: AwaitsResend(t, j)
  {
    if step.Wire? { assert forall w: Range | w in s.thread.onWire :: w == s.thread.onWire[0]; }
  }

  lemma PlainStep(image: Content, s: State, step: Step, t: State)
    requires SlotsInv(image, s) && NoneStranded(s) && Enabled(image, s, step) && Plain(step)
    requires t == Apply(image, s, step)
    ensures NoneStranded(t)
  {
    PlainQueue(image, s, step, t);
    if Usable(t) {
      PlainCarriers(image, s, step, t);
      forall j: nat | WillBeSent(s, j) ensures Carried(t, s.q.slots[j].range) { assert WillBeSent(t, j); }
    }
    StaysCarried(s, t);
  }

  lemma SwitchStep(image: Content, s: State, t: State)
    requires WellFormed(s.q) && Enabled(image, s, Switch) && t == Apply(image, s, Switch)
    ensures NoneStranded(t)
  {
    forall i: nat | i < |t.q.slots| && Open(t.q.slots[i])
      ensures Carried(t, t.q.slots[i].range)
    {
      assert WillBeSent(t, i);
    }
  }

  lemma AcceptStep(image: Content, s: State, r: Request, t: State)
    requires WellFormed(s.q) && NoneStranded(s) && Enabled(image, s, Accept(r)) && t == Apply(image, s, Accept(r))
    ensures NoneStranded(t)
  {
    var f := FreeSlot(s.q.slots, s.q.len, 0);
    EnqueuedWellFormed(s.q, r, |s.accepted|);
    if Usable(t) {
      forall j: nat | WillBeSent(s, j) ensures Carried(t, s.q.slots[j].range) { assert WillBeSent(t, j); }
      assert CarriersKept(s, t);
      forall i: nat | i < |t.q.slots| && Open(t.q.slots[i]) ensures Carried(t, t.q.slots[i].range) {
        if i != f {
          KeepsCarried(s, t, s.q.slots[i].range);
        } else if Attaches(s.q, r) {
          var j: nat :| j < s.q.len && Attachable(s.q, r, f, j);
          KeepsCarried(s, t, s.q.slots[j].range);
          CarriedWithin(t, r.range, s.q.slots[j].range);
        } else {
          NewIsCarried(t, f);
        }
      }
    }
  }

  lemma MarkOneStep(image: Content, s: State, c: nat, t: State)
    requires SlotsInv(image, s) && NoneStranded(s) && SentIsCarried(s)
    requires Enabled(image, s, DirectMark(c)) && t == Apply(image, s, DirectMark(c))
    ensures NoneStranded(t)
  {
    var k := s.direct[c].slot;
    if Usable(t) {
      assert SentOk(s, c, s.direct[c]);
      forall j: nat | WillBeSent(s, j) ensures Carried(t, s.q.slots[j].range) {
        if j != k || t.q == s.q || AwaitsResend(s, k) { assert WillBeSent(t, j); }
      }
    }
    StaysCarried(s, t);
  }

  lemma PickStep(image: Content, s: State, t: State)
    requires SlotsInv(image, s) && NoneStranded(s) && Enabled(image, s, Pick) && t == Apply(image, s, Pick)
    ensures NoneStranded(t)
  {
    var j := NextSendable(s.q, s.thread.next, !s.thread.all);
    if Usable(t) {
      forall k: nat | WillBeSent(s, k) ensures Carried(t, s.q.slots[k].range) {
        if k == j && j < s.q.len {
          WireCovers(s.q.slots[j].range);
        } else {
          if s.q.slots[k].status.Pending? { assert Sendable(s.q.slots[k], !s.thread.all); }
          assert WillBeSent(t, k);
        }
      }
    }
    StaysCarried(s, t);
  }

  lemma UnmarkedStays(s: State, reply: Range, r: Range, t: State)
    requires WellFormed(s.q) && Carried(s, r) && !Within(r, reply)
    requires t.q == Marked(s.q, reply) && t.inFlight == s.inFlight - multiset{reply} && s.thread.Waiting?
    ensures Carried(t, r)
  {
    if OnItsWay(s, r) {
      var w: Range :| w in s.inFlight && Within(r, w);
      assert w in t.inFlight;
    } else {
      var j: nat :| WillBeSent(s, j) && Within(r, s.q.slots[j].range);
      assert t.q.slots[j] == s.q.slots[j];
      assert WillBeSent(t, j);
    }
  }

  lemma ReplyStep(image: Content, s: State, reply: Range, t: State)
    requires SlotsInv(image, s) && NoneStranded(s) && Enabled(image, s, Reply(reply))
    requires t == Apply(image, s, Reply(reply))
    ensures NoneStranded(t)
  {
    if Usable(t) {
      forall i: nat | i < |t.q.slots| && Open(t.q.slots[i]) ensures Carried(t, t.q.slots[i].range) {
        assert t.q.slots[i] == s.q.slots[i];
        UnmarkedStays(s, reply, s.q.slots[i].range, t);
      }
    }
  }

  lemma SentByReply(s: State, reply: Range, t: State, c: nat, d: Direct)
    requires WellFormed(s.q) && SentOk(s, c, d) && s.thread.Waiting?
    requires t.q == Marked(s.q, reply) && t.inFlight == s.inFlight - multiset{reply}
    ensures SentOk(t, c, d)
  {
    if d.sent && d.slot < |t.q.slots| && t.q.slots[d.slot].client == c && t.q.slots[d.slot].status.New? {
      assert t.q.slots[d.slot] == s.q.slots[d.slot] && d.slot < s.q.len;
      var w: Range :| w in s.inFlight && Within(s.q.slots[d.slot].range, w);
      assert w in t.inFlight;
    }
  }

  lemma SentByPick(image: Content, s: State, t: State, c: nat, d: Direct)
    requires SlotsInv(image, s) && SentOk(s, c, d) && Enabled(image, s, Pick) && t == Apply(image, s, Pick)
    ensures SentOk(t, c, d)
  {
    var j := NextSendable(s.q, s.thread.next, !s.thread.all);
    if d.sent && d.slot < |t.q.slots| && t.q.slots[d.slot].client == c && t.q.slots[d.slot].status.New? {
      assert t.q.slots[d.slot] == s.q.slots[d.slot] && d.slot < s.q.len && Sendable(s.q.slots[d.slot], !s.thread.all);
    }
  }

  lemma SentByPlain(image: Content, s: State, step: Step, t: State, c: nat, d: Direct)
    requires SlotsInv(image, s) && SentOk(s, c, d) && Enabled(image, s, step) && Plain(step)
    requires t == Apply(image, s, step) && Usable(t)
    ensures SentOk(t, c, d)
  {
    PlainQueue(image, s, step, t);
    PlainCarriers(image, s, step, t);
  }

  lemma SentNow(image: Content, s: State, c: nat, t: State)
    requires WellFormed(s.q) && Enabled(image, s, DirectSend(c, true)) && t == Apply(image, s, DirectSend(c, true))
    ensures SentOk(t, c, t.direct[c])
  {
    var w := WireRange(s.q.slots[s.direct[c].slot].range);
    WireCovers(s.q.slots[s.direct[c].slot].range);
    assert w in t.inFlight;
  }

  /** The steps that change other slots than the client's own NEW one. */
  lemma SentByOthers(image: Content, s: State, step: Step, t: State, c: nat, d: Direct)
    requires SlotsInv(image, s) && Enabled(image, s, step) && t == Apply(image, s, step) && c in s.direct
    requires step.Switch? || SentOk(s, c, d)
    requires step.Accept? || step.DirectMark? || step.RemoveClient? || step.Switch?
    ensures SentOk(t, c, d)
  {
    if step.RemoveClient? && d.slot < |s.q.slots| {
      assert t.q.slots[d.slot] == s.q.slots[d.slot] || t.q.slots[d.slot].status.Free?;
    }
  }

  lemma SameDirect(image: Content, s: State, step: Step, t: State, c: nat)
    requires WellFormed(s.q) && Enabled(image, s, step) && t == Apply(image, s, step) && c in t.direct
    requires !(step.Accept? && c == step.r.client) && !(step.DirectSend? && c == step.client)
    ensures c in s.direct && t.direct[c] == s.direct[c]
    ensures Usable(t) && !step.Switch? ==> Usable(s)
  {
  }

  lemma SentStepFor(image: Content, s: State, step: Step, t: State, c: nat)
    requires Inv(image, s) && SentIsCarried(s) && Enabled(image, s, step) && t == Apply(image, s, step)
    requires Usable(t) && c in t.direct
    requires !(step.Accept? && c == step.r.client) && !(step.DirectSend? && c == step.client)
    ensures SentOk(t, c, t.direct[c])
  {
    SameDirect(image, s, step, t, c);
    var d := s.direct[c];
    if step.Reply? {
      SentByReply(s, step.range, t, c, d);
    } else if step.Pick? {
      SentByPick(image, s, t, c, d);
    } else if Plain(step) {
      PlainCarriers(image, s, step, t);
      SentByPlain(image, s, step, t, c, d);
    } else {
      SentByOthers(image, s, step, t, c, d);
    }
  }

  lemma SentStep(image: Content, s: State, step: Step, t: State)
    requires Inv(image, s) && SentIsCarried(s) && Enabled(image, s, step) && t == Apply(image, s, step)
    ensures SentIsCarried(t)
  {
    if Usable(t) {
      forall c <- t.direct ensures SentOk(t, c, t.direct[c]) {
        if step.Accept? && c == step.r.client {
        } else if step.DirectSend? && c == step.client {
          SentNow(image, s, c, t);
        } else {
          SentStepFor(image, s, step, t, c);
        }
      }
    }
  }

  // ---------------------------------------------------------------- removing a client

  /** Carried without the help of this client's own slots. */
  ghost predicate CarriedWithout(s: State, r: Range, client: nat) {
    OnItsWay(s, r) || exists j: nat ::
      WillBeSent(s, j) && s.q.slots[j].client != client && Within(r, s.q.slots[j].range)
  }

  /** No request of another client depends on this client's slots alone. */
  ghost predicate NoDependents(s: State, client: nat) {
    Usable(s) ==>
      forall i: nat | i < |s.q.slots| && Open(s.q.slots[i]) && s.q.slots[i].client != client ::
        CarriedWithout(s, s.q.slots[i].range, client)
  }

  lemma AfterRemoval(s: State, client: nat, t: State)
    requires WellFormed(s.q) && client != NOBODY && t.q == Removed(s.q, client)
    requires t.thread == s.thread && t.inFlight == s.inFlight
    ensures forall i: nat | i < CAPACITY ::
              t.q.slots[i] == if s.q.slots[i].client == client then Freed(s.q.slots[i]) else s.q.slots[i]
    ensures forall r: Range :: Carried(t, r) <==> CarriedWithout(s, r, client)
  {
    forall i: nat | i < CAPACITY
      ensures t.q.slots[i] == if s.q.slots[i].client == client then Freed(s.q.slots[i]) else s.q.slots[i]
    {
    }
    forall j: nat ensures WillBeSent(t, j) <==> WillBeSent(s, j) && s.q.slots[j].client != client { }
    forall r: Range ensures Carried(t, r) <==> CarriedWithout(s, r, client) {
      if CarriedWithout(s, r, client) && !OnItsWay(s, r) {
        var j: nat :| WillBeSent(s, j) && s.q.slots[j].client != client && Within(r, s.q.slots[j].range);
        assert WillBeSent(t, j);
      }
      if Carried(t, r) && !OnItsWay(t, r) {
        var j: nat :| WillBeSent(t, j) && Within(r, t.q.slots[j].range);
        assert WillBeSent(s, j);
      }
    }
  }

  /** Removing a client strands no one if and only if no other request depends on its slots alone. */
  lemma RemovalStrandsIffDependents(image: Content, s: State, client: nat)
    requires WellFormed(s.q) && Enabled(image, s, RemoveClient(client))
    ensures NoneStranded(Apply(image, s, RemoveClient(client))) <==> NoDependents(s, client)
  {
    var t := Apply(image, s, RemoveClient(client));
    AfterRemoval(s, client, t);
    if Usable(s) && NoneStranded(t) {
      forall i: nat | i < |s.q.slots| && Open(s.q.slots[i]) && s.q.slots[i].client != client
        ensures CarriedWithout(s, s.q.slots[i].range, client)
      {
        assert t.q.slots[i] == s.q.slots[i];
      }
    }
  }

  /** A client without a request that is NEW or waits to be resent can always leave. */
  lemma IdleClientMayLeave(s: State, client: nat)
    requires NoneStranded(s) && forall j: nat | WillBeSent(s, j) :: s.q.slots[j].client != client
    ensures NoDependents(s, client)
  {
  }

  // ---------------------------------------------------------------- runs

  /** No client leaves while another request depends on its slots alone. */
  ghost predicate Considerate(states: seq<State>, steps: seq<Step>)
    requires |states| == |steps| + 1
  {
    forall j: nat | j < |steps| && steps[j].RemoveClient? :: NoDependents(states[j], steps[j].client)
  }

  lemma StrandedStep(image: Content, s: State, step: Step, t: State)
    requires Inv(image, s) && NoneStranded(s) && SentIsCarried(s) && Enabled(image, s, step)
    requires t == Apply(image, s, step)
    requires step.RemoveClient? ==> NoDependents(s, step.client)
    ensures NoneStranded(t) && SentIsCarried(t)
  {
    SentStep(image, s, step, t);
    if Plain(step) {
      PlainStep(image, s, step, t);
    } else {
      match step
      case Accept(r) => AcceptStep(image, s, r, t);
      case DirectMark(c) => MarkOneStep(image, s, c, t);
      case Switch => SwitchStep(image, s, t);
      case Pick => PickStep(image, s, t);
      case Reply(range) => ReplyStep(image, s, range, t);
      case RemoveClient(c) => RemovalStrandsIffDependents(image, s, c);
    }
  }

  /** While the connection is usable, each NEW or PENDING request lies in a range in flight on it or in a slot
      that is still to be sent: enqueueing, attaching, sending, replies, server switches and clients that leave
      considerately all keep this. */
  lemma {:induction false} NoStrandedRequest(image: Content, states: seq<State>, steps: seq<Step>, n: nat)
    requires IsRun(image, states, steps) && Considerate(states, steps) && n <= |steps|
    ensures NoneStranded(states[n]) && SentIsCarried(states[n])
  {
    if n > 0 {
      NoStrandedRequest(image, states, steps, n - 1);
      RunInv(image, states, steps, n - 1);
      assert states[n - 1 + 1] == Apply(image, states[n - 1], steps[n - 1]);
      StrandedStep(image, states[n - 1], steps[n - 1], states[n]);
    }
  }

  /** What that means: whatever waits lies in a range in flight, in the one about to be sent, or in a slot that is NEW
      or that the running resend has not come to. */
  lemma NoneStrandedMeans(s: State, i: nat)
    requires NoneStranded(s) && s.connected && !s.broken && i < |s.q.slots|
    requires s.q.slots[i].status.New? || s.q.slots[i].status.Pending?
    ensures var r := s.q.slots[i].range;
            || (exists w: Range :: w in s.inFlight && w.lo <= r.lo && r.hi <= w.hi)
            || (s.thread.Sending? && exists w: Range :: w in s.thread.onWire && w.lo <= r.lo && r.hi <= w.hi)
            || (exists j: nat :: j < |s.q.slots| && s.q.slots[j].range.lo <= r.lo && r.hi <= s.q.slots[j].range.hi
                  && (s.q.slots[j].status.New?
                      || (s.q.slots[j].status.Pending? && s.thread.Sending? && s.thread.all && s.thread.next <= j)))
  {
    var r := s.q.slots[i].range;
    assert Carried(s, r);
    if !OnItsWay(s, r) {
      var j: nat :| WillBeSent(s, j) && Within(r, s.q.slots[j].range);
    }
  }

  /** Whoever leaves owns no request that is NEW or waits to be sent again. */
  ghost predicate OnlyIdleLeave(states: seq<State>, steps: seq<Step>)
    requires |states| == |steps| + 1
  {
    forall j: nat | j < |steps| && steps[j].RemoveClient? ::
      forall k: nat | WillBeSent(states[j], k) :: states[j].q.slots[k].client != steps[j].client
  }

  /** The same in terms of what the server can see when a client leaves: the status of its slots and how far the resend
      has come. */
  lemma {:induction false} NoneStrandedIfOnlyIdleLeave(image: Content, states: seq<State>, steps: seq<Step>, n: nat)
    requires IsRun(image, states, steps) && OnlyIdleLeave(states, steps) && n <= |steps|
    ensures NoneStranded(states[n]) && SentIsCarried(states[n])
  {
    if n > 0 {
      NoneStrandedIfOnlyIdleLeave(image, states, steps, n - 1);
      RunInv(image, states, steps, n - 1);
      assert states[n - 1 + 1] == Apply(image, states[n - 1], steps[n - 1]);
      if steps[n - 1].RemoveClient? { IdleClientMayLeave(states[n - 1], steps[n - 1].client); }
      StrandedStep(image, states[n - 1], steps[n - 1], states[n]);
    }
  }

  /** One request, NEW and sent by nobody yet, on a connection without traffic. */
  ghost predicate LoneNew(s: State) {
    && WellFormed(s.q) && s.q.len == 1 && s.q.slots[0] == Slot(New, 1, 0, Range(0, BLOCK_SIZE), 0, 0)
    && Usable(s) && s.thread.Waiting? && s.direct == map[] && s.inFlight == multiset{} && |s.accepted| == 1
  }

  lemma LoneNewReached(image: Content, s0: State) returns (states: seq<State>, steps: seq<Step>)
    requires Init(s0) && |image| >= BLOCK_SIZE
    ensures IsRun(image, states, steps) && LoneNew(states[|steps|])
  {
    var r := Request(1, 0, Range(0, BLOCK_SIZE), 0);
    var s1 := Apply(image, s0, Switch);
    var s2 := Apply(image, s1, Pick);
    assert s2.thread.Waiting? && s2.q == s0.q;
    var s3 := Apply(image, s2, Accept(r));
    EnqueuedWellFormed(s2.q, r, 0);
    assert s3.direct.Keys == {1};
    var s4 := Apply(image, s3, DirectGiveUp(1));
    states, steps := [s0, s1, s2, s3, s4], [Switch, Pick, Accept(r), DirectGiveUp(1)];
  }

  /** Without that consideration a request does get stranded: client 2 attaches to client 1's unsent request,
      client 1 leaves, and nothing on the open connection will ever answer client 2. */
  lemma StrandedExample(image: Content, s: State) returns (t: State, u: State)
    requires LoneNew(s) && |image| >= BLOCK_SIZE
    ensures var r := Request(2, 0, Range(0, BLOCK_SIZE), 0);
            && Enabled(image, s, Accept(r)) && t == Apply(image, s, Accept(r)) && WellFormed(t.q)
            && Enabled(image, t, RemoveClient(1)) && u == Apply(image, t, RemoveClient(1))
    ensures Usable(u) && |u.q.slots| > 1 && u.q.slots[1].status.Pending? && u.q.slots[1].client == 2 && !NoneStranded(u)
  {
    var r := Request(2, 0, Range(0, BLOCK_SIZE), 0);
    assert FreeSlot(s.q.slots, 1, 0) == FreeSlot(s.q.slots, 1, 1) == 1;
    assert Attachable(s.q, r, 1, 0);
    EnqueuedWellFormed(s.q, r, 1);
    t := Apply(image, s, Accept(r));
    u := Apply(image, t, RemoveClient(1));
    AfterRemoval(t, 1, u);
    assert forall j: nat :: !WillBeSent(u, j);
    assert !Carried(u, u.q.slots[1].range);
  }
}
