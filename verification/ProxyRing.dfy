/** Proxies whose upstream connections form a ring: one client request and the hop count that stops it
    (uplink.c 168-271, 284-287, 595-605). */
module ProxyRing {
  import opened Blocks
  import opened UplinkQueue

  /** One message carrying the request under watch: about to be handled by proxy `at`, after `relays` proxies have sent
      it on. */
  datatype Copy = Copy(msg: Request, at: nat, relays: nat)

  /** Proxy p forwards to proxy p + 1, the last one to proxy 0. `copies` are the messages sent so far. They stay in the
      set after they were handled, so each may arrive any number of times: the uplink thread can send a NEW slot once
      more between a client's own send and the mark behind it. */
  datatype Ring = Ring(queues: seq<Queue>, copies: set<Copy>)

  datatype Step =
    | Relay(c: Copy, ticket: nat, client: nat)     // queued as NEW and sent to the next proxy
    | Other(p: nat, r: Request, ticket: nat)       // another request is queued at proxy p
    | Sent(p: nat, i: nat)                         // proxy p marks slot i as sent

  /** The hop count on the next leg. */
  function Hop(h: nat): nat { if h < 200 then h + 1 else h }

  function Forwarded(r: Request, client: nat): Request {
    Request(client, WireRange(r.range).lo, WireRange(r.range), Hop(r.hops))
  }

  function After(n: nat, at: nat): nat { if at + 1 < n then at + 1 else 0 }

  /** The request comes from the very host it would be forwarded to. */
  predicate FromUplink(n: nat, c: Copy) { c.msg.hops != 0 && c.relays > 0 && n <= 2 }

  ghost predicate Shaped(s: Ring) {
    && (forall c <- s.copies :: c.at < |s.queues| && c.msg.client != NOBODY)
    && forall p: nat | p < |s.queues| :: WellFormed(s.queues[p])
  }

  /** The proxy neither rejects the request nor lets it wait for another one. */
  ghost predicate Passes(q: Queue, n: nat, c: Copy)
    requires q.len <= |q.slots|
  {
    !FromUplink(n, c) && !Rejects(q, c.msg) && !IsFull(q) && !Attaches(q, c.msg)
  }

  function MarkSent(q: Queue, i: nat): Queue
    requires i < |q.slots|
  {
    q.(slots := q.slots[i := q.slots[i].(status := Pending)])
  }

  ghost predicate Next(s: Ring, step: Step, t: Ring)
    requires Shaped(s)
  {
    match step
    case Relay(c, ticket, client) =>
      && c in s.copies && client != NOBODY && Passes(s.queues[c.at], |s.queues|, c)
      && t == Ring(s.queues[c.at := Enqueued(s.queues[c.at], c.msg, ticket)],
                   s.copies + {Copy(Forwarded(c.msg, client), After(|s.queues|, c.at), c.relays + 1)})
    case Other(p, r, ticket) =>
      && p < |s.queues| && r.client != NOBODY && !Rejects(s.queues[p], r) && !IsFull(s.queues[p])
      && t == s.(queues := s.queues[p := Enqueued(s.queues[p], r, ticket)])
    case Sent(p, i) =>
      && p < |s.queues| && i < s.queues[p].len && s.queues[p].slots[i].status.New?
      && t == s.(queues := s.queues[p := MarkSent(s.queues[p], i)])
  }

  /** A request for exactly this range, sent with this hop count, waits in the queue. */
  ghost predicate Waits(q: Queue, r: Range, hops: nat) {
    exists j: nat :: j < q.len && j < |q.slots| && Open(q.slots[j]) && q.slots[j].range == r && q.slots[j].hops == hops
  }

  lemma WaitsOn(q: Queue, r: Request, ticket: nat, range: Range, hops: nat)
    requires WellFormed(q) && !IsFull(q)
    ensures Waits(q, range, hops) ==> Waits(Enqueued(q, r, ticket), range, hops)
    ensures Waits(Enqueued(q, r, ticket), r.range, r.hops)
  {
    var f := FreeSlot(q.slots, q.len, 0);
    var t := Enqueued(q, r, ticket);
    assert Open(t.slots[f]) && t.slots[f].range == r.range;
    if Waits(q, range, hops) {
      var j: nat :| j < q.len && Open(q.slots[j]) && q.slots[j].range == range && q.slots[j].hops == hops;
      assert j != f && t.slots[j] == q.slots[j];
    }
  }

  lemma MarkWaits(q: Queue, i: nat, range: Range, hops: nat)
    requires WellFormed(q) && i < q.len && q.slots[i].status.New?
    ensures WellFormed(MarkSent(q, i))
    ensures Waits(q, range, hops) ==> Waits(MarkSent(q, i), range, hops)
  {
    if Waits(q, range, hops) {
      var j: nat :| j < q.len && Open(q.slots[j]) && q.slots[j].range == range && q.slots[j].hops == hops;
      assert Open(MarkSent(q, i).slots[j]);
    }
  }

  /** A waiting request with fewer hops stops the same request. */
  lemma WaitsStops(q: Queue, r: Request, hops: nat)
    requires WellFormed(q) && Waits(q, r.range, hops) && hops < r.hops
    ensures Rejects(q, r) || Attaches(q, r)
  {
    var j: nat :| j < q.len && Open(q.slots[j]) && q.slots[j].range == r.range && q.slots[j].hops == hops;
    LoopIsNoticed(q, r, j);
  }

  /** The request as it arrived first. */
  predicate Start(s: Ring, r0: Request) { s.copies == {Copy(r0, 0, 0)} }

  lemma WireTwice(r: Range)
    ensures WireRange(WireRange(r)) == WireRange(r)
  {
  }

  /** Where the ring is after k relays, for up to two rounds. */
  function Place(n: nat, k: nat): int { if k < n then k else k - n }

  /** How often the request may be relayed: an unaligned range costs one relay more. */
  function Bound(n: nat, r0: Request): nat { if WireRange(r0.range) == r0.range then n else n + 1 }

  /** The condition under which the hop count stops a cycle: it must still grow once the range is rounded. */
  predicate Stoppable(r0: Request) { r0.hops < 199 || (r0.hops == 199 && WireRange(r0.range) == r0.range) }

  function Hops(h: nat, k: nat): (r: nat)
    ensures r >= h && (h < 200 && k > 0 ==> r > h)
    ensures h >= 200 ==> r == h
  {
    if k == 0 then h else Hop(Hops(h, k - 1))
  }

  lemma {:induction false} HopsGrow(h: nat, k: nat)
    requires h < 199 && k > 1
    ensures Hops(h, k) > Hop(h)
  {
    if k > 2 { HopsGrow(h, k - 1); } else { assert Hops(h, k) == Hop(Hop(Hops(h, 0))); }
  }

  /** What is known of one copy: it travels with the rounded range, its hop count follows the relays, and the first two
      proxies it passed still hold it. */
  ghost predicate CopyOk(n: nat, r0: Request, queues: seq<Queue>, c: Copy)
    requires n > 0 && |queues| == n && forall p: nat | p < n :: WellFormed(queues[p])
  {
    && c.relays <= Bound(n, r0)
    && c.at == (if c.relays < 2 * n then Place(n, c.relays) else 0)
    && c.msg.range == (if c.relays == 0 then r0.range else WireRange(r0.range))
    && c.msg.hops == Hops(r0.hops, c.relays)
    && (c.relays > 0 ==> Waits(queues[0], r0.range, r0.hops))
    && (c.relays > 1 ==> Waits(queues[if n == 1 then 0 else 1], WireRange(r0.range), Hop(r0.hops)))
  }

  ghost predicate Inv(n: nat, r0: Request, s: Ring) {
    && n > 0 && |s.queues| == n && Shaped(s)
    && forall c <- s.copies :: CopyOk(n, r0, s.queues, c)
  }

  /** After the last relay the next proxy has seen the request with fewer hops. */
  lemma LastRelay(n: nat, r0: Request, s: Ring, c: Copy)
    requires Inv(n, r0, s) && c in s.copies && c.relays == Bound(n, r0) && Stoppable(r0)
    ensures Rejects(s.queues[c.at], c.msg) || Attaches(s.queues[c.at], c.msg)
  {
    var q := s.queues[c.at];
    if WireRange(r0.range) == r0.range {
      WaitsStops(q, c.msg, r0.hops);
    } else {
      HopsGrow(r0.hops, n + 1);
      WaitsStops(q, c.msg, Hop(r0.hops));
    }
  }

  /** What waits at a proxy goes on waiting there. */
  lemma QueuedOn(n: nat, r0: Request, queues: seq<Queue>, p: nat, r: Request, ticket: nat, c: Copy)
    requires n > 0 && |queues| == n && (forall k: nat | k < n :: WellFormed(queues[k])) && CopyOk(n, r0, queues, c)
    requires p < n && r.client != NOBODY && !IsFull(queues[p])
    ensures WellFormed(Enqueued(queues[p], r, ticket)) && CopyOk(n, r0, queues[p := Enqueued(queues[p], r, ticket)], c)
  {
    EnqueuedWellFormed(queues[p], r, ticket);
    WaitsOn(queues[p], r, ticket, r0.range, r0.hops);
    WaitsOn(queues[p], r, ticket, WireRange(r0.range), Hop(r0.hops));
  }

  /** The copy a relay sends. */
  lemma SentOn(n: nat, r0: Request, s: Ring, c: Copy, ticket: nat, client: nat)
    requires Inv(n, r0, s) && Stoppable(r0) && c in s.copies && client != NOBODY && Passes(s.queues[c.at], n, c)
    ensures var q := Enqueued(s.queues[c.at], c.msg, ticket);
            WellFormed(q)
              && CopyOk(n, r0, s.queues[c.at := q], Copy(Forwarded(c.msg, client), After(n, c.at), c.relays + 1))
  {
    if c.relays == Bound(n, r0) { LastRelay(n, r0, s, c); }
    QueuedOn(n, r0, s.queues, c.at, c.msg, ticket, c);
    WaitsOn(s.queues[c.at], c.msg, ticket, r0.range, r0.hops);
    WireTwice(r0.range);
    assert Hops(r0.hops, 1) == Hop(Hops(r0.hops, 0));
  }

  lemma RelayInv(n: nat, r0: Request, s: Ring, c: Copy, ticket: nat, client: nat, t: Ring)
    requires Inv(n, r0, s) && Stoppable(r0) && Next(s, Relay(c, ticket, client), t)
    ensures Inv(n, r0, t)
  {
    SentOn(n, r0, s, c, ticket, client);
    forall d <- s.copies ensures CopyOk(n, r0, t.queues, d) { QueuedOn(n, r0, s.queues, c.at, c.msg, ticket, d); }
  }

  lemma OtherInv(n: nat, r0: Request, s: Ring, p: nat, r: Request, ticket: nat, t: Ring)
    requires Inv(n, r0, s) && Next(s, Other(p, r, ticket), t)
    ensures Inv(n, r0, t)
  {
    EnqueuedWellFormed(s.queues[p], r, ticket);
    forall d <- s.copies ensures CopyOk(n, r0, t.queues, d) { QueuedOn(n, r0, s.queues, p, r, ticket, d); }
  }

  lemma SentInv(n: nat, r0: Request, s: Ring, p: nat, i: nat, t: Ring)
    requires Inv(n, r0, s) && Next(s, Sent(p, i), t)
    ensures Inv(n, r0, t)
  {
    MarkWaits(s.queues[p], i, r0.range, r0.hops);
    MarkWaits(s.queues[p], i, WireRange(r0.range), Hop(r0.hops));
  }

  lemma StepInv(n: nat, r0: Request, s: Ring, step: Step, t: Ring)
    requires Inv(n, r0, s) && Stoppable(r0) && Next(s, step, t)
    ensures Inv(n, r0, t)
  {
    match step
    case Relay(c, ticket, client) => RelayInv(n, r0, s, c, ticket, client, t);
    case Other(p, r, ticket) => OtherInv(n, r0, s, p, r, ticket, t);
    case Sent(p, i) => SentInv(n, r0, s, p, i, t);
  }

  ghost predicate Steps(s: Ring, t: Ring) { Shaped(s) && exists step :: Next(s, step, t) }

  /** A run of a ring of n proxies, with any requests already queued. */
  ghost predicate Run(n: nat, r0: Request, run: seq<Ring>) {
    && n > 0 && |run| > 0 && |run[0].queues| == n && Shaped(run[0]) && Start(run[0], r0)
    && forall k: nat | k + 1 < |run| :: Steps(run[k], run[k + 1])
  }

  lemma {:induction false} RunInv(n: nat, r0: Request, run: seq<Ring>, k: nat)
    requires Run(n, r0, run) && Stoppable(r0) && k < |run|
    ensures Inv(n, r0, run[k])
  {
    if k > 0 {
      RunInv(n, r0, run, k - 1);
      assert Steps(run[k - 1], run[k - 1 + 1]);
      var step :| Next(run[k - 1], step, run[k]);
      StepInv(n, r0, run[k - 1], step, run[k]);
    }
  }

  /** A cycle of n proxies relays no copy of a request more than n + 1 times, and n times if its range is aligned. */
  lemma CycleStops(n: nat, r0: Request, run: seq<Ring>, k: nat, c: Copy)
    requires Run(n, r0, run) && Stoppable(r0) && k < |run| && c in run[k].copies
    ensures c.relays <= Bound(n, r0)
  {
    RunInv(n, r0, run, k);
  }

  // ---------------------------------------------------------------- a hop count that cannot grow

  /** How many requests proxy p has queued after k relays of one request, for up to two rounds. */
  function Passed(n: nat, k: nat, p: nat): nat {
    if k <= n then if p < k then 1 else 0 else if p < k - n then 2 else 1
  }

  /** A queue that holds `len` requests, all sent, none of which can stop a request for r with h hops. */
  ghost predicate Harmless(q: Queue, len: nat, r: Range, h: nat) {
    && WellFormed(q) && q.len == len
    && forall i: nat | i < len :: q.slots[i].status.Pending? && (q.slots[i].range != r || q.slots[i].hops >= h)
  }

  /** Copy c has been all this way and nothing in its path stops it. */
  ghost predicate Circling(n: nat, r0: Request, k: nat, s: Ring, c: Copy) {
    && |s.queues| == n && Shaped(s) && c in s.copies
    && c.relays == k && c.at == Place(n, k) && c.msg.client != NOBODY
    && c.msg.range == (if k == 0 then r0.range else WireRange(r0.range))
    && c.msg.hops == (if k == 0 then r0.hops else Hop(r0.hops))
    && forall p: nat | p < n :: Harmless(s.queues[p], Passed(n, k, p), WireRange(r0.range), Hop(r0.hops))
  }

  /** A request goes past a harmless queue. */
  lemma GoesPast(q: Queue, len: nat, r: Request, range: Range, h: nat, ticket: nat)
    requires Harmless(q, len, range, h) && len < CAPACITY && r.client != NOBODY
    requires len == 0 || (r.range == range && r.hops <= h)
    requires r.range != range || r.hops >= h
    ensures !Rejects(q, r) && !Attaches(q, r) && !IsFull(q)
    ensures Enqueued(q, r, ticket).slots[len].status.New?
    ensures Harmless(MarkSent(Enqueued(q, r, ticket), len), len + 1, range, h)
  {
    var f := FreeSlot(q.slots, q.len, 0);
    assert f == len;
  }

  lemma OneMore(n: nat, r0: Request, k: nat, s: Ring, c: Copy) returns (t: Ring, u: Ring, d: Copy)
    requires n >= 3 && k < n + 2 && !Stoppable(r0) && Circling(n, r0, k, s, c)
    ensures Shaped(s) && Next(s, Relay(c, 0, 1), t)
    ensures Shaped(t) && Next(t, Sent(Place(n, k), Passed(n, k, Place(n, k))), u)
    ensures Circling(n, r0, k + 1, u, d)
  {
    var p := Place(n, k);
    var len := Passed(n, k, p);
    GoesPast(s.queues[p], len, c.msg, WireRange(r0.range), Hop(r0.hops), 0);
    EnqueuedWellFormed(s.queues[p], c.msg, 0);
    WireTwice(r0.range);
    d := Copy(Forwarded(c.msg, 1), After(n, p), k + 1);
    t := Ring(s.queues[p := Enqueued(s.queues[p], c.msg, 0)], s.copies + {d});
    u := t.(queues := t.queues[p := MarkSent(t.queues[p], len)]);
  }

  lemma TwoSteps(n: nat, r0: Request, k: nat, s: Ring, c: Copy) returns (t: Ring, u: Ring, d: Copy)
    requires n >= 3 && k < n + 2 && !Stoppable(r0) && Circling(n, r0, k, s, c)
    ensures Steps(s, t) && Steps(t, u) && Circling(n, r0, k + 1, u, d)
  {
    t, u, d := OneMore(n, r0, k, s, c);
  }

  lemma RunLonger(n: nat, r0: Request, run: seq<Ring>, t: Ring)
    requires Run(n, r0, run) && Steps(run[|run| - 1], t)
    ensures Run(n, r0, run + [t])
  {
    var longer := run + [t];
    forall j: nat | j + 1 < |longer| ensures Steps(longer[j], longer[j + 1]) {
      if j + 1 < |run| { assert Steps(run[j], run[j + 1]); }
    }
  }

  lemma Fresh(n: nat, r0: Request) returns (s: Ring)
    requires n >= 3 && r0.client != NOBODY
    ensures Circling(n, r0, 0, s, Copy(r0, 0, 0)) && Start(s, r0)
  {
    var empty := Queue(seq(CAPACITY, _ => Slot(Free, NOBODY, 0, Range(0, 0), 0, 0)), 0);
    s := Ring(seq(n, _ => empty), {Copy(r0, 0, 0)});
    assert forall p: nat | p < n :: s.queues[p] == empty;
  }

  lemma {:induction false} Circle(n: nat, r0: Request, k: nat) returns (run: seq<Ring>, c: Copy)
    requires n >= 3 && k <= n + 2 && !Stoppable(r0) && r0.client != NOBODY
    ensures Run(n, r0, run) && Circling(n, r0, k, run[|run| - 1], c)
  {
    if k == 0 {
      var s := Fresh(n, r0);
      c := Copy(r0, 0, 0);
      run := [s];
    } else {
      var before, b := Circle(n, r0, k - 1);
      var s := before[|before| - 1];
      var t, u, d := TwoSteps(n, r0, k - 1, s, b);
      c := d;
      RunLonger(n, r0, before, t);
      RunLonger(n, r0, before + [t], u);
      run := before + [t] + [u];
    }
  }

  // ---------------------------------------------------------------- rings of one or two

  /** A request that comes back to the host it came from has a hop count, and is refused there. */
  ghost predicate Short(n: nat, s: Ring) {
    |s.queues| == n && forall c <- s.copies :: c.relays <= 1 && (c.relays > 0 ==> c.msg.hops != 0)
  }

  lemma {:induction false} ShortRun(n: nat, r0: Request, run: seq<Ring>, k: nat)
    requires Run(n, r0, run) && n <= 2 && k < |run|
    ensures Short(n, run[k])
  {
    if k > 0 {
      ShortRun(n, r0, run, k - 1);
      assert Steps(run[k - 1], run[k - 1 + 1]);
      var step :| Next(run[k - 1], step, run[k]);
    }
  }

  ghost predicate Exceeds(n: nat, r0: Request) {
    exists run: seq<Ring>, c: Copy :: Run(n, r0, run) && c in run[|run| - 1].copies && c.relays > n + 1
  }

  /** The bound of n + 1 relays holds for every copy in every run of a ring exactly if the hop count of the request can
      still grow or the ring has at most two proxies. */
  lemma BoundIffStoppable(n: nat, r0: Request)
    requires n > 0 && r0.client != NOBODY
    ensures Exceeds(n, r0) <==> n >= 3 && !Stoppable(r0)
  {
    if n <= 2 {
      forall run: seq<Ring>, c: Copy | Run(n, r0, run) && c in run[|run| - 1].copies ensures c.relays <= n + 1 {
        ShortRun(n, r0, run, |run| - 1);
      }
    } else if Stoppable(r0) {
      forall run: seq<Ring>, c: Copy | Run(n, r0, run) && c in run[|run| - 1].copies ensures c.relays <= n + 1 {
        CycleStops(n, r0, run, |run| - 1, c);
      }
    } else {
      var run, c := Circle(n, r0, n + 2);
    }
  }
}
