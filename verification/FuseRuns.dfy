/** The FUSE client's connection (src/fuse/connection.c 245-261, 360-406, 430-441, 483-492, 807-862): readers, one
    receive thread per socket, and the thread that switches servers. */
module FuseRuns {
  import opened FuseQueue
  import opened Wrappers

  /** Who holds sendMutex: nobody; a thread that has queued a request and is about to send it; the switching thread,
      between two requests or about to send the one it has just put back. */
  datatype Holder = Nobody | Sending(req: nat) | Resending | ResendingOne(req: nat)

  /** `sock` is connection.sockFd (None for -1), `list` the request list, `detached` what the switching thread took
      away, `receiving` the requests taken out by receive threads, `failing` those whose payload did not arrive,
      `answered` the requests that were replied to, in order; `sent` records which request went out on which socket. */
  datatype State = State(created: set<nat>, sock: Option<nat>, list: seq<nat>, detached: seq<nat>,
                         receiving: multiset<nat>, failing: multiset<nat>, answered: seq<nat>, sent: set<(nat, nat)>,
                         holder: Holder)

  datatype Step =
    | Read(req: nat)                             // connection_read: queued, about to be sent
    | Requeue(req: nat)                          // the same after a failed payload
    | Send(ok: bool)                             // ... and the send
    | Reply(handle: nat)                         // a receive thread looks for the request of a reply
    | Payload(req: nat)                          // its data arrived and is handed to FUSE
    | PayloadFails(req: nat)
    | Broken                                     // a receive or keepalive error on the current socket
    | Switch(sock: nat, alive: bool, asked: bool) // the first locked region of switchConnection
    | ResendStart | ResendQueue | ResendSend(ok: bool) | ResendEnd

  function Sent(s: State, req: nat, ok: bool, next: Holder): State {
    if s.sock.None? then s.(holder := next)
    else if ok then s.(sent := s.sent + {(req, s.sock.value)}, holder := next)
    else s.(sock := None, holder := next)
  }

  ghost predicate Next(s: State, step: Step, t: State) {
    match step
    case Read(req) =>
      && s.holder.Nobody? && req !in s.created
      && t == s.(created := s.created + {req}, list := s.list + [req], holder := Sending(req))
    case Requeue(req) =>
      && s.holder.Nobody? && req in s.failing
      && t == s.(failing := s.failing - multiset{req}, list := s.list + [req], holder := Sending(req))
    case Send(ok) =>
      s.holder.Sending? && t == Sent(s, s.holder.req, ok, Nobody)
    case Reply(handle) =>
      t == if handle in s.list
        then s.(list := Without<nat>(s.list, handle), receiving := s.receiving + multiset{handle}) else s
    case Payload(req) =>
      req in s.receiving && t == s.(receiving := s.receiving - multiset{req}, answered := s.answered + [req])
    case PayloadFails(req) =>
      req in s.receiving && t == s.(receiving := s.receiving - multiset{req}, failing := s.failing + multiset{req})
    case Broken =>
      s.holder.Nobody? && t == s.(sock := None)
    case Switch(sock, alive, asked) =>
      && s.holder.Nobody? && s.detached == []
      && t == if alive then s.(sock := if asked then Some(sock) else None, detached := s.list, list := [])
           else s.(sock := None)
    case ResendStart =>
      s.holder.Nobody? && s.detached != [] && t == s.(holder := Resending)
    case ResendQueue =>
      && s.holder.Resending? && s.detached != []
      && t == s.(detached := s.detached[1..], list := s.list + [s.detached[0]], holder := ResendingOne(s.detached[0]))
    case ResendSend(ok) =>
      s.holder.ResendingOne? && t == Sent(s, s.holder.req, ok, Resending)
    case ResendEnd =>
      s.holder.Resending? && s.detached == [] && t == s.(holder := Nobody)
  }

  /** How often a request occurs somewhere. */
  ghost function Count(s: State, req: nat): nat {
    multiset(s.list)[req] + multiset(s.detached)[req] + s.receiving[req] + s.failing[req] + multiset(s.answered)[req]
  }

  ghost predicate Conserved(s: State) { forall req: nat :: Count(s, req) == if req in s.created then 1 else 0 }

  /** The request just queued by the thread that holds sendMutex. */
  predicate AboutToBeSent(h: Holder, req: nat) { (h.Sending? || h.ResendingOne?) && h.req == req }

  ghost predicate SentOrBroken(s: State) {
    forall req: nat | req in s.list :: s.sock.None? || (req, s.sock.value) in s.sent || AboutToBeSent(s.holder, req)
  }

  ghost predicate Inv(s: State) { Conserved(s) && SentOrBroken(s) }

  ghost predicate Init(s: State) {
    && s.created == {} && s.list == [] && s.detached == [] && s.receiving == multiset{} && s.failing == multiset{}
    && s.answered == [] && s.sent == {} && s.holder == Nobody
  }

  function One(b: bool): nat { if b then 1 else 0 }

  lemma Appended(l: seq<nat>, x: nat, req: nat)
    ensures multiset(l + [x])[req] == multiset(l)[req] + One(req == x)
  {
  }

  lemma Headless(l: seq<nat>, req: nat)
    requires l != []
    ensures multiset(l)[req] == multiset(l[1..])[req] + One(req == l[0])
  {
    assert l == [l[0]] + l[1..];
  }

  lemma {:induction false} Removed(l: seq<nat>, x: nat, req: nat)
    ensures multiset(Without<nat>(l, x))[req] + One(req == x && x in l) == multiset(l)[req]
  {
    if l != [] {
      Headless(l, req);
      if l[0] != x {
        Removed(l[1..], x, req);
        var t: seq<nat> := Without<nat>(l[1..], x);
        var u: seq<nat> := [l[0]] + t;
        Headless(u, req);
        assert u[1..] == t;
      }
    }
  }

  lemma {:induction false} RemovedMembers(l: seq<nat>, x: nat)
    ensures forall y <- Without<nat>(l, x) :: y in l
  {
    if l != [] && l[0] != x { RemovedMembers(l[1..], x); }
  }

  lemma CountOfMember(l: seq<nat>, req: nat)
    ensures req in l <==> multiset(l)[req] > 0
  {
    assert req in l <==> req in multiset(l);
  }

  // One step as seen by one request.
  lemma ReadConserves(s: State, r: nat, t: State, req: nat)
    requires Count(s, req) == One(req in s.created) && Next(s, Read(r), t)
    ensures Count(t, req) == One(req in t.created)
  {
    Appended(s.list, r, req);
  }

  lemma RequeueConserves(s: State, r: nat, t: State, req: nat)
    requires Count(s, req) == One(req in s.created) && Next(s, Requeue(r), t)
    ensures Count(t, req) == One(req in t.created)
  {
    Appended(s.list, r, req);
  }

  lemma ReplyConserves(s: State, r: nat, t: State, req: nat)
    requires Count(s, req) == One(req in s.created) && Next(s, Reply(r), t)
    ensures Count(t, req) == One(req in t.created)
  {
    Removed(s.list, r, req);
    if r in s.list {
      assert t.receiving[req] == s.receiving[req] + One(req == r);
    }
  }

  lemma PayloadConserves(s: State, r: nat, t: State, req: nat)
    requires Count(s, req) == One(req in s.created) && Next(s, Payload(r), t)
    ensures Count(t, req) == One(req in t.created)
  {
    Appended(s.answered, r, req);
  }

  lemma ResendConserves(s: State, t: State, req: nat)
    requires Count(s, req) == One(req in s.created) && Next(s, ResendQueue, t)
    ensures Count(t, req) == One(req in t.created)
  {
    Headless(s.detached, req);
    Appended(s.list, s.detached[0], req);
  }

  lemma FailConserves(s: State, r: nat, t: State, req: nat)
    requires Count(s, req) == One(req in s.created) && Next(s, PayloadFails(r), t)
    ensures Count(t, req) == One(req in t.created)
  {
    assert t.receiving[req] + t.failing[req] == s.receiving[req] + s.failing[req];
  }

  lemma SwitchConserves(s: State, sock: nat, alive: bool, asked: bool, t: State, req: nat)
    requires Count(s, req) == One(req in s.created) && Next(s, Switch(sock, alive, asked), t)
    ensures Count(t, req) == One(req in t.created)
  {
    CountOfMember(s.detached, req);
    CountOfMember(t.list, req);
  }

  /** The steps that move no request. */
  lemma QuietConserves(s: State, step: Step, t: State, req: nat)
    requires Count(s, req) == One(req in s.created) && Next(s, step, t)
    requires step.Send? || step.Broken? || step.ResendStart? || step.ResendSend? || step.ResendEnd?
    ensures Count(t, req) == One(req in t.created)
  {
    assert t.list == s.list && t.detached == s.detached && t.answered == s.answered && t.created == s.created;
  }

  lemma StepConserves(s: State, step: Step, t: State, req: nat)
    requires Count(s, req) == One(req in s.created) && Next(s, step, t)
    ensures Count(t, req) == One(req in t.created)
  {
    match step
    case Read(r) => ReadConserves(s, r, t, req);
    case Requeue(r) => RequeueConserves(s, r, t, req);
    case Reply(handle) => ReplyConserves(s, handle, t, req);
    case Payload(r) => PayloadConserves(s, r, t, req);
    case ResendQueue => ResendConserves(s, t, req);
    case PayloadFails(r) => FailConserves(s, r, t, req);
    case Switch(sock, alive, asked) => SwitchConserves(s, sock, alive, asked, t, req);
    case _ => QuietConserves(s, step, t, req);
  }

  lemma StepSent(s: State, step: Step, t: State)
    requires SentOrBroken(s) && Next(s, step, t)
    ensures SentOrBroken(t)
  {
    if step.Reply? { RemovedMembers(s.list, step.handle); }
  }

  ghost predicate Steps(s: State, t: State) { exists step :: Next(s, step, t) }

  ghost predicate Run(run: seq<State>) {
    |run| > 0 && Init(run[0]) && forall n: nat | n + 1 < |run| :: Steps(run[n], run[n + 1])
  }

  lemma {:induction false} RunInv(run: seq<State>, n: nat)
    requires Run(run) && n < |run|
    ensures Inv(run[n])
  {
    if n > 0 {
      RunInv(run, n - 1);
      assert Steps(run[n - 1], run[n - 1 + 1]);
      var step :| Next(run[n - 1], step, run[n]);
      forall req: nat ensures Count(run[n], req) == One(req in run[n].created) {
        assert Count(run[n - 1], req) == One(req in run[n - 1].created);
        StepConserves(run[n - 1], step, run[n], req);
      }
      StepSent(run[n - 1], step, run[n]);
    }
  }

  ghost predicate Pending(s: State, req: nat) {
    req in s.list || req in s.detached || req in s.receiving || req in s.failing
  }

  /** Across reads, replies, failed payloads and switches each request is pending or answered, never both, answered at
      most once, and nothing is answered that was not read. */
  lemma PendingOrAnsweredOnce(run: seq<State>, n: nat, req: nat)
    requires Run(run) && n < |run|
    ensures var s := run[n];
            && multiset(s.answered)[req] <= 1
            && (req in s.created <==> Pending(s, req) || req in s.answered)
            && !(Pending(s, req) && req in s.answered)
            && multiset(s.list)[req] + multiset(s.detached)[req] <= 1
  {
    RunInv(run, n);
    var s := run[n];
    CountOfMember(s.list, req); CountOfMember(s.detached, req); CountOfMember(s.answered, req);
    assert Count(s, req) == One(req in s.created);
  }

  /** While nobody is in the middle of sending, every queued request went out on the current socket, if there is one. */
  lemma QueuedWasSent(run: seq<State>, n: nat, req: nat)
    requires Run(run) && n < |run| && req in run[n].list && run[n].holder.Nobody? && run[n].sock.Some?
    ensures (req, run[n].sock.value) in run[n].sent
  {
    RunInv(run, n);
  }

  // ---------------------------------------------------------------- a switch in the middle

  function SwitchedAt(n: nat): Step {
    match n
    case 0 => Read(1)
    case 1 => Send(true)
    case 2 => Switch(6, true, true)
    case 3 => ResendStart
    case 4 => ResendQueue
    case 5 => ResendSend(true)
    case 6 => ResendEnd
    case 7 => Reply(1)
    case _ => Payload(1)
  }

  function SwitchedState(n: nat): State {
    match n
    case 0 => State({}, Some(5), [], [], multiset{}, multiset{}, [], {}, Nobody)
    case 1 => State({1}, Some(5), [1], [], multiset{}, multiset{}, [], {}, Sending(1))
    case 2 => State({1}, Some(5), [1], [], multiset{}, multiset{}, [], {(1, 5)}, Nobody)
    case 3 => State({1}, Some(6), [], [1], multiset{}, multiset{}, [], {(1, 5)}, Nobody)
    case 4 => State({1}, Some(6), [], [1], multiset{}, multiset{}, [], {(1, 5)}, Resending)
    case 5 => State({1}, Some(6), [1], [], multiset{}, multiset{}, [], {(1, 5)}, ResendingOne(1))
    case 6 => State({1}, Some(6), [1], [], multiset{}, multiset{}, [], {(1, 5), (1, 6)}, Resending)
    case 7 => State({1}, Some(6), [1], [], multiset{}, multiset{}, [], {(1, 5), (1, 6)}, Nobody)
    case 8 => State({1}, Some(6), [], [], multiset{1}, multiset{}, [], {(1, 5), (1, 6)}, Nobody)
    case _ => State({1}, Some(6), [], [], multiset{}, multiset{}, [1], {(1, 5), (1, 6)}, Nobody)
  }

  lemma SentStep(n: nat)
    requires n < 3
    ensures Next(SwitchedState(n), SwitchedAt(n), SwitchedState(n + 1))
  {
  }

  lemma ResentStep(n: nat)
    requires 3 <= n < 7
    ensures Next(SwitchedState(n), SwitchedAt(n), SwitchedState(n + 1))
  {
  }

  lemma AnsweredStep(n: nat)
    requires 7 <= n < 9
    ensures Next(SwitchedState(n), SwitchedAt(n), SwitchedState(n + 1))
  {
  }

  /** A request is sent, the server is switched, the request is sent again on the new socket, and answered once. */
  lemma SwitchedRun()
    ensures var run := seq(10, n requires 0 <= n < 10 => SwitchedState(n));
            Run(run) && run[9].answered == [1] && run[9].sent == {(1, 5), (1, 6)}
  {
    var run := seq(10, n requires 0 <= n < 10 => SwitchedState(n));
    forall n: nat | n + 1 < |run| ensures Steps(run[n], run[n + 1]) {
      if n < 3 { SentStep(n); } else if n < 7 { ResentStep(n); } else { AnsweredStep(n); }
    }
  }
}
