/** The handshake between uplink threads and the thread that measures alternative servers
    (altservers.c 131-179, 435-599; uplink.c 375-391, 480-508, 537, 920-941). */
module RttHandshake {
  import opened Wrappers

  /** SERVER_MAX_PENDING_ALT_CHECKS */
  const SLOTS: nat := 500

  /** The RTT_* values of rttTestResult. */
  datatype Test = Idle | InProgress | DontChange | DoChange | NotReachable

  type Slots = s: seq<Option<nat>> | |s| == SLOTS witness seq(SLOTS, _ => None)

  /** The first empty slot at or after i, or SLOTS. */
  function FirstFree(p: Slots, i: nat): (f: nat)
    requires i <= SLOTS
    ensures i <= f <= SLOTS && (f < SLOTS ==> p[f].None?)
    ensures forall j: nat | i <= j < f :: p[j].Some?
    decreases SLOTS - i
  {
    if i == SLOTS || p[i].None? then i else FirstFree(p, i + 1)
  }

  /** altservers_findUplink on the slots and the uplink's rttTestResult. */
  function Found(p: Slots, k: nat, r: Test): (Slots, Test) {
    if r.InProgress? && Some(k) in p then (p, r)
    else
      var f := FirstFree(p, 0);
      if f < SLOTS then (p[f := Some(k)], InProgress) else (p, r)
  }

  /** The same without FirstFree. */
  lemma FoundMeans(p: Slots, k: nat, r: Test)
    ensures if !(r.InProgress? && Some(k) in p) && None in p then
              Found(p, k, r).1 == InProgress
              && exists f: nat :: f < |p| && p[f].None? && (forall j: nat | j < f :: p[j].Some?)
                   && Found(p, k, r).0 == p[f := Some(k)]
            else Found(p, k, r) == (p, r)
  {
    var f := FirstFree(p, 0);
    assert f < SLOTS ==> p[f] in p;
    if None in p {
      var i: nat :| i < |p| && p[i] == None;
      assert f <= i;
    }
  }

  /** altservers_removeUplink */
  function Without(p: Slots, k: nat): (q: Slots)
    ensures forall i: nat | i < SLOTS :: q[i] == if p[i] == Some(k) then None else p[i]
  {
    seq(SLOTS, i requires 0 <= i < SLOTS => if p[i] == Some(k) then None else p[i])
  }

  /** The array `pending` with the functions of the source. */
  class PendingChecks {
    const pending: array<Option<nat>>

    constructor ()
      ensures fresh(pending) && Valid() && forall i: nat | i < SLOTS :: pending[i].None?
    {
      pending := new Option<nat>[SLOTS](_ => None);
    }

    ghost predicate Valid()
      reads this
    {
      pending.Length == SLOTS
    }

    /** Its second loop: the first empty slot is taken. */
    method TakeSlot(k: nat, rttTestResult: Test) returns (r: Test)
      requires Valid()
      modifies pending
      ensures var p, f := old(pending[..]), FirstFree(old(pending[..]), 0);
              if f < SLOTS then pending[..] == p[f := Some(k)] && r == InProgress
              else pending[..] == p && r == rttTestResult
    {
      for i := 0 to SLOTS
        invariant FirstFree(pending[..], 0) == FirstFree(pending[..], i)
      {
        if pending[i].Some? { continue; }
        pending[i] := Some(k);
        return InProgress;
      }
      return rttTestResult;
    }

    /** The first empty slot asks for a measurement and the uplink is INPROGRESS, unless it is queued already or no
        slot is empty. */
    method FindUplink(k: nat, rttTestResult: Test, betterFd: int) returns (r: Test)
      requires Valid() && betterFd == -1
      modifies pending
      ensures (pending[..], r) == Found(old(pending[..]), k, rttTestResult)
      ensures var p := old(pending[..]);
              if !(rttTestResult.InProgress? && Some(k) in p) && None in p then
                r == InProgress
                && exists f: nat :: f < |p| && p[f].None? && (forall j: nat | j < f :: p[j].Some?)
                     && pending[..] == p[f := Some(k)]
              else r == rttTestResult && pending[..] == p
    {
      FoundMeans(pending[..], k, rttTestResult);
      if rttTestResult.InProgress? {
        for i := 0 to SLOTS
          invariant Some(k) !in pending[..i]
        {
          if pending[i] == Some(k) {
            assert pending[..][i] == Some(k);
            return rttTestResult;
          }
        }
        assert pending[..SLOTS] == pending[..];
      }
      r := TakeSlot(k, rttTestResult);
    }

    method RemoveUplink(k: nat, rttTestResult: Test) returns (r: Test)
      requires Valid()
      modifies pending
      ensures pending[..] == Without(old(pending[..]), k)
      ensures r == if Some(k) in old(pending[..]) then NotReachable else rttTestResult
    {
      r := rttTestResult;
      ghost var was := pending[..];
      for i := 0 to SLOTS
        invariant forall j: nat | j < SLOTS :: pending[j] == if j < i && was[j] == Some(k) then None else was[j]
        invariant r == if Some(k) in was[..i] then NotReachable else rttTestResult
      {
        if pending[i] == Some(k) {
          r := NotReachable;
          pending[i] := None;
        }
      }
      assert was[..SLOTS] == was;
    }
  }

  // ---------------------------------------------------------------- the threads

  /** Where an uplink's thread is with respect to the handshake. */
  datatype UplinkAt =
    | Working
    | Calling    // about to call altservers_findUplink
    | Finding    // past the assertion of altservers_findUplink, before its locked region
    | Resetting  // saw that no server was reachable, about to go idle
    | Removing   // holds pendingLockConsume
    | Removed

  /** `better` stands for betterFd != -1. */
  datatype Link = Link(test: Test, better: bool, at: UplinkAt)

  /** Where the measuring thread is; i is the slot it works on, k the uplink it found there. */
  datatype CheckerAt =
    | Scanning(i: nat)
    | Wanting(i: nat)            // saw an uplink in slot i, about to take pendingLockConsume
    | Holding(i: nat)            // has the lock, about to look again
    | Got(i: nat, k: nat)        // has the uplink, about to lock its image
    | Checking(i: nat, k: nat)   // past the assertion on rttTestResult
    | Clearing(i: nat, k: nat)   // the result is written, the slot is not cleared yet
    | Releasing(i: nat)

  datatype Owner = Nobody | Checker | Uplink(k: nat)

  datatype State = State(links: seq<Link>, pending: Slots, checker: CheckerAt, consume: Owner)

  datatype Step =
    | Create(connected: bool) | Decide(k: nat) | Assert(k: nat) | Find(k: nat) | Switch(k: nat)
    | SeeUnreachable(k: nat) | Reset(k: nat) | LockToRemove(k: nat) | Remove(k: nat)
    | Look | Lock | LookAgain | LockImage(ok: bool) | Finish(result: Test) | Clear | Release

  function NextSlot(i: nat): nat { if i + 1 < SLOTS then i + 1 else 0 }

  function With(s: State, k: nat, l: Link): State
    requires k < |s.links|
  {
    s.(links := s.links[k := l])
  }

  /** The steps of the uplink threads. */
  ghost predicate UplinkNext(s: State, step: Step, k: nat, t: State)
    requires k < |s.links|
  {
    var l := s.links[k];
    match step
    // uplink.c 482-494 and 935-940: the result is neither pending nor waiting to be taken
    case Decide(_) => l.at.Working? && !l.test.InProgress? && !l.better && t == With(s, k, l.(at := Calling))
    case Assert(_) => l.at.Calling? && t == With(s, k, l.(at := Finding))
    case Find(_) =>
      && l.at.Finding?
      && t == With(s, k, l.(test := Found(s.pending, k, l.test).1, at := Working))
              .(pending := Found(s.pending, k, l.test).0)
    case Switch(_) => l.at.Working? && l.test.DoChange? && t == With(s, k, l.(test := Idle, better := false))
    case SeeUnreachable(_) => l.at.Working? && l.test.NotReachable? && t == With(s, k, l.(at := Resetting))
    case Reset(_) => l.at.Resetting? && t == With(s, k, l.(test := Idle, at := Working))
    case LockToRemove(_) =>
      l.at.Working? && s.consume.Nobody? && t == With(s, k, l.(at := Removing)).(consume := Uplink(k))
    case Remove(_) =>
      && l.at.Removing?
      && t == With(s, k, l.(test := if Some(k) in s.pending then NotReachable else l.test, at := Removed))
              .(pending := Without(s.pending, k), consume := Nobody)
    case _ => false
  }

  /** The steps of the measuring thread. */
  ghost predicate CheckerNext(s: State, step: Step, t: State) {
    var i := s.checker.i;
    i < SLOTS &&
    match (s.checker, step)
    case (Scanning(_), Look) => t == s.(checker := if s.pending[i].None? then Scanning(NextSlot(i)) else Wanting(i))
    case (Wanting(_), Lock) => s.consume.Nobody? && t == s.(checker := Holding(i), consume := Checker)
    case (Holding(_), LookAgain) =>
      t == s.(checker := if s.pending[i].None? then Releasing(i) else Got(i, s.pending[i].value))
    case (Got(_, k), LockImage(ok)) =>
      && k < |s.links|
      && t == if ok then s.(checker := Checking(i, k))
           else With(s, k, s.links[k].(test := NotReachable)).(checker := Clearing(i, k))
    case (Checking(_, k), Finish(result)) =>
      && k < |s.links| && (result.DoChange? || result.DontChange? || result.NotReachable?)
      && t == With(s, k, s.links[k].(test := result, better := if result.DoChange? then true else s.links[k].better))
              .(checker := Clearing(i, k))
    case (Clearing(_, _), Clear) => t == s.(pending := s.pending[i := None], checker := Releasing(i))
    case (Releasing(_), Release) => t == s.(checker := Scanning(NextSlot(i)), consume := Nobody)
    case _ => false
  }

  ghost predicate Next(s: State, step: Step, t: State) {
    match step
    case Create(connected) =>
      t == s.(links := s.links + [Link(if connected then DoChange else Idle, connected, Working)])
    case Decide(k) => k < |s.links| && UplinkNext(s, step, k, t)
    case Assert(k) => k < |s.links| && UplinkNext(s, step, k, t)
    case Find(k) => k < |s.links| && UplinkNext(s, step, k, t)
    case Switch(k) => k < |s.links| && UplinkNext(s, step, k, t)
    case SeeUnreachable(k) => k < |s.links| && UplinkNext(s, step, k, t)
    case Reset(k) => k < |s.links| && UplinkNext(s, step, k, t)
    case LockToRemove(k) => k < |s.links| && UplinkNext(s, step, k, t)
    case Remove(k) => k < |s.links| && UplinkNext(s, step, k, t)
    case _ => CheckerNext(s, step, t)
  }

  ghost predicate Init(s: State) {
    s.links == [] && (forall i: nat | i < SLOTS :: s.pending[i].None?) && s.checker == Scanning(0) && s.consume.Nobody?
  }

  /** Slot i asks for a measurement for uplink k that has no result yet. */
  predicate Unprocessed(s: State, i: nat, k: nat) {
    i < SLOTS && s.pending[i] == Some(k) && s.checker != Clearing(i, k)
  }

  predicate CheckerHolds(c: CheckerAt) { !c.Scanning? && !c.Wanting? }

  /** What holds for uplink k. */
  ghost predicate LinkOk(s: State, k: nat)
    requires k < |s.links|
  {
    var l := s.links[k];
    && (l.better <==> l.test.DoChange?)
    && (l.test.InProgress? ==> exists i: nat :: Unprocessed(s, i, k))
    && (forall i: nat :: Unprocessed(s, i, k) ==> l.test.InProgress?)
    && (forall i: nat, j: nat :: Unprocessed(s, i, k) && Unprocessed(s, j, k) ==> i == j)
    && (l.at.Calling? || l.at.Finding? ==> !l.test.InProgress? && !l.test.DoChange?)
    && (l.at.Resetting? ==> l.test.NotReachable?)
    && (l.at.Removing? <==> s.consume == Uplink(k))
    && (l.at.Removed? ==> Some(k) !in s.pending && !l.test.InProgress?)
  }

  ghost predicate Inv(s: State) {
    && s.checker.i < SLOTS
    && (forall i: nat | i < SLOTS && s.pending[i].Some? :: s.pending[i].value < |s.links|)
    && (s.consume.Checker? <==> CheckerHolds(s.checker))
    && (s.consume.Uplink? ==> s.consume.k < |s.links|)
    && (s.checker.Got? || s.checker.Checking? || s.checker.Clearing? ==> s.pending[s.checker.i] == Some(s.checker.k))
    && forall k: nat | k < |s.links| :: LinkOk(s, k)
  }

  lemma FindInv(s: State, k: nat, t: State)
    requires Inv(s) && k < |s.links| && UplinkNext(s, Find(k), k, t)
    ensures Inv(t)
  {
    var f := FirstFree(s.pending, 0);
    assert LinkOk(s, k) && t.links[k].test == if f < SLOTS then InProgress else s.links[k].test;
    if f < SLOTS { assert Unprocessed(t, f, k); }
    forall j: nat | j < |t.links| ensures LinkOk(t, j) {
      assert LinkOk(s, j);
      assert forall i: nat :: Unprocessed(t, i, j) <==> Unprocessed(s, i, j) || (i == f < SLOTS && j == k);
    }
  }

  lemma RemoveInv(s: State, k: nat, t: State)
    requires Inv(s) && k < |s.links| && UplinkNext(s, Remove(k), k, t)
    ensures Inv(t)
  {
    assert LinkOk(s, k);
    if Some(k) in s.pending {
      var i: nat :| i < SLOTS && s.pending[i] == Some(k);
      assert Unprocessed(s, i, k);
    }
    forall j: nat | j < |t.links| ensures LinkOk(t, j) {
      assert LinkOk(s, j);
      assert forall i: nat :: Unprocessed(t, i, j) <==> Unprocessed(s, i, j) && j != k;
    }
  }

  lemma LinkInv(s: State, step: Step, k: nat, t: State)
    requires Inv(s) && k < |s.links| && UplinkNext(s, step, k, t)
    ensures Inv(t)
  {
    if step.Find? { FindInv(s, k, t); } else if step.Remove? { RemoveInv(s, k, t); } else {
      forall j: nat | j < |t.links| ensures LinkOk(t, j) {
        assert LinkOk(s, j);
        assert forall i: nat :: Unprocessed(t, i, j) <==> Unprocessed(s, i, j);
      }
    }
  }

  /** The result is written: the slot counts as processed from here on. */
  lemma ResultInv(s: State, step: Step, t: State)
    requires Inv(s) && CheckerNext(s, step, t) && t.checker.Clearing?
    ensures Inv(t)
  {
    var i, k := s.checker.i, s.checker.k;
    assert Unprocessed(s, i, k) && LinkOk(s, k);
    assert s.links[k].test.InProgress? && !s.links[k].better;
    forall j: nat | j < |t.links| ensures LinkOk(t, j) {
      assert LinkOk(s, j);
      forall x: nat ensures Unprocessed(t, x, j) <==> Unprocessed(s, x, j) && j != k {
        if Unprocessed(s, x, k) { assert x == i; }
      }
    }
  }

  lemma CheckerInv(s: State, step: Step, t: State)
    requires Inv(s) && CheckerNext(s, step, t)
    ensures Inv(t)
  {
    if t.checker.Clearing? { ResultInv(s, step, t); } else {
      forall j: nat | j < |t.links| ensures LinkOk(t, j) {
        assert LinkOk(s, j);
        assert forall x: nat :: Unprocessed(t, x, j) <==> Unprocessed(s, x, j);
      }
    }
  }

  lemma CreateInv(s: State, connected: bool, t: State)
    requires Inv(s) && Next(s, Create(connected), t)
    ensures Inv(t)
  {
    forall j: nat | j < |t.links| ensures LinkOk(t, j) {
      if j < |s.links| { assert LinkOk(s, j); }
      assert forall x: nat :: Unprocessed(t, x, j) <==> Unprocessed(s, x, j);
    }
  }

  lemma StepInv(s: State, step: Step, t: State)
    requires Inv(s) && Next(s, step, t)
    ensures Inv(t)
  {
    match step
    case Create(connected) => CreateInv(s, connected, t);
    case Decide(k) => LinkInv(s, step, k, t);
    case Assert(k) => LinkInv(s, step, k, t);
    case Find(k) => LinkInv(s, step, k, t);
    case Switch(k) => LinkInv(s, step, k, t);
    case SeeUnreachable(k) => LinkInv(s, step, k, t);
    case Reset(k) => LinkInv(s, step, k, t);
    case LockToRemove(k) => LinkInv(s, step, k, t);
    case Remove(k) => LinkInv(s, step, k, t);
    case _ => CheckerInv(s, step, t);
  }

  ghost predicate Steps(s: State, t: State) { exists step :: Next(s, step, t) }

  ghost predicate Run(run: seq<State>) {
    |run| > 0 && Init(run[0]) && forall n: nat | n + 1 < |run| :: Steps(run[n], run[n + 1])
  }

  lemma {:induction false} RunInv(run: seq<State>, n: nat)
    requires Run(run) && n < |run|
    ensures Inv(run[n])
  {
    if n > 0 {
      RunInv(run, n - 1);
      assert Steps(run[n - 1], run[n - 1 + 1]);
      var step :| Next(run[n - 1], step, run[n]);
      StepInv(run[n - 1], step, run[n]);
    }
  }

  /** In every interleaving: a better connection waits exactly with DOCHANGE; an uplink has an unprocessed slot exactly
      while INPROGRESS, and never two; both assertions hold; a removed uplink is in no slot, is not being measured and
      not INPROGRESS. */
  lemma HandshakeIsSafe(run: seq<State>, n: nat, k: nat)
    requires Run(run) && n < |run| && k < |run[n].links|
    ensures var s := run[n]; var l := s.links[k];
            && (l.better <==> l.test.DoChange?)
            && (l.test.InProgress? <==> exists i: nat :: Unprocessed(s, i, k))
            && (forall i: nat, j: nat :: Unprocessed(s, i, k) && Unprocessed(s, j, k) ==> i == j)
            && (l.at.Calling? || l.at.Finding? ==> !l.better)
            && ((s.checker.Got? || s.checker.Checking?) && s.checker.k == k ==> l.test.InProgress?)
            && (l.at.Removed? ==>
                  && Some(k) !in s.pending && !l.test.InProgress?
                  && !((s.checker.Got? || s.checker.Checking? || s.checker.Clearing?) && s.checker.k == k))
  {
    RunInv(run, n);
    var s := run[n];
    assert LinkOk(s, k);
    if (s.checker.Got? || s.checker.Checking?) && s.checker.k == k { assert Unprocessed(s, s.checker.i, k); }
  }

  // ---------------------------------------------------------------- a measurement

  /** An uplink is created without a connection, asks for a measurement, and the measuring thread finds a server. */
  function Measured(n: nat): Step {
    match n
    case 0 => Create(false)
    case 1 => Decide(0)
    case 2 => Assert(0)
    case 3 => Find(0)
    case 4 => Look
    case 5 => Lock
    case 6 => LookAgain
    case 7 => LockImage(true)
    case _ => Finish(DoChange)
  }

  function NothingQueued(): (p: Slots)
    ensures forall i: nat | i < SLOTS :: p[i].None?
  {
    seq(SLOTS, _ => None)
  }

  function OneQueued(): Slots { NothingQueued()[0 := Some(0)] }

  function MeasuredState(n: nat): State {
    match n
    case 0 => State([], NothingQueued(), Scanning(0), Nobody)
    case 1 => State([Link(Idle, false, Working)], NothingQueued(), Scanning(0), Nobody)
    case 2 => State([Link(Idle, false, Calling)], NothingQueued(), Scanning(0), Nobody)
    case 3 => State([Link(Idle, false, Finding)], NothingQueued(), Scanning(0), Nobody)
    case 4 => State([Link(InProgress, false, Working)], OneQueued(), Scanning(0), Nobody)
    case 5 => State([Link(InProgress, false, Working)], OneQueued(), Wanting(0), Nobody)
    case 6 => State([Link(InProgress, false, Working)], OneQueued(), Holding(0), Checker)
    case 7 => State([Link(InProgress, false, Working)], OneQueued(), Got(0, 0), Checker)
    case 8 => State([Link(InProgress, false, Working)], OneQueued(), Checking(0, 0), Checker)
    case _ => State([Link(DoChange, true, Working)], OneQueued(), Clearing(0, 0), Checker)
  }

  lemma AskedStep(n: nat)
    requires n < 4
    ensures Next(MeasuredState(n), Measured(n), MeasuredState(n + 1))
  {
    if n == 3 { FoundMeans(NothingQueued(), 0, Idle); }
  }

  lemma MeasuredStep(n: nat)
    requires 4 <= n < 9
    ensures Next(MeasuredState(n), Measured(n), MeasuredState(n + 1))
  {
    assert MeasuredState(n).pending[0] == Some(0);
  }

  /** A run in which an uplink is INPROGRESS, with its slot, and then has a better connection waiting. */
  lemma MeasurementRun()
    ensures var run := seq(10, n requires 0 <= n < 10 => MeasuredState(n));
            && Run(run) && run[4].links[0].test.InProgress? && run[4].pending[0] == Some(0)
            && run[9].links[0] == Link(DoChange, true, Working)
  {
    var run := seq(10, n requires 0 <= n < 10 => MeasuredState(n));
    forall n: nat | n + 1 < |run| ensures Steps(run[n], run[n + 1]) {
      if n < 4 { AskedStep(n); } else { MeasuredStep(n); }
    }
  }
}
