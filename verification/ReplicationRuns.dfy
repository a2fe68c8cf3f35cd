/** Runs of background replication: each map byte is asked for once, and full replication ends with a complete image. */
module ReplicationRuns {
  import opened Blocks
  import opened CacheMap
  import opened HashBlockSearch
  import opened Replication
  import opened Wrappers

  /** The map and the replication state of a proxy. `dead` means that the request of the handle was not sent, `stale`
      that the map lost blocks since the last search came up empty, `lostLast` that a block of the last map byte is
      missing although the byte counts as replicated, or did so when replication switched itself off. `hurt` is what
      happened: since the last byte was last asked for, the request for it got no full answer or a clear took a block of
      it. The numbers count: requests sent; requests that got no answer or were stored only in part; changes of server
      after the last byte was asked for; bytes that clears made incomplete. */
  datatype State = State(m: seq<bv8>, rep: Rep, connected: bool, dead: bool, stale: bool, lostLast: bool, hurt: bool,
                         sent: nat, failed: nat, forgotten: nat, reopened: nat)

  datatype Step =
    | Search(later: seq<bv8>, last: seq<bv8>, sendOk: bool, i: int) // uplink_sendReplicationRequest, if it searches
    | Reply(n: seq<bv8>)                        // the answer arrived and was stored
    | ShortReply(n: seq<bv8>)                   // it was stored in part, or another reply with its offset was
    | Stored(n: seq<bv8>, restart: Option<nat>) // data for clients arrived; `restart` if a client was served
    | Cleared(n: seq<bv8>)                      // the integrity checker took blocks out of the map
    | ConnectionFailed
    | ClosedIdle                                // the connection was not needed any more
    | Switched                                  // a server was taken, with or without a connection before
    | Recheck                                   // the periodic check found the image incomplete

  /** n has every bit of m. */
  ghost predicate Kept(m: seq<bv8>, n: seq<bv8>) {
    |n| == |m| && forall k: nat | k < 8 * |m| :: BlockSet(m, k) ==> BlockSet(n, k)
  }

  /** Every block of the last map byte is there. */
  ghost predicate LastCached(m: seq<bv8>, size: nat)
    requires |m| == MapBytes(size)
  {
    forall k: nat | 8 * (|m| - 1) <= k < BlockUp(size) :: k < 8 * |m| && BlockSet(m, k)
  }

  /** The full bytes of m that are not full in n. */
  ghost function Reopened(m: seq<bv8>, n: seq<bv8>, lastDone: bool): set<nat>
    requires |m| == |n|
  {
    set i: nat | i < |m| && IsFull(m, lastDone, i) && !IsFull(n, lastDone, i)
  }

  function One(b: bool): nat { if b then 1 else 0 }

  /** The map and the replication state become m and r. */
  ghost function To(size: nat, s: State, m: seq<bv8>, r: Rep): State
    requires |m| == MapBytes(size)
  {
    var lost := m != [] && !Awaits(r, |m| - 1) && !LastCached(m, size) && (r.lastDone || (s.lostLast && r.next == -1));
    s.(m := m, rep := r, lostLast := lost)
  }

  /** The request on its way is the one for the last map byte. */
  predicate AwaitsLast(s: State) { s.m != [] && Awaits(s.rep, |s.m| - 1) }

  /** Blocks are taken out of the map. */
  ghost function Clear(size: nat, s: State, n: seq<bv8>): State
    requires |n| == |s.m| == MapBytes(size)
  {
    var t := To(size, s, n, s.rep);
    t.(stale := s.stale || n != s.m,
       hurt := s.hurt || (s.m != [] && s.rep.lastDone && n[|s.m| - 1] != s.m[|s.m| - 1]),
       reopened := s.reopened + |Reopened(s.m, n, s.rep.lastDone)| + One(t.lostLast && !s.lostLast))
  }

  /** The state after a search that chose i; u is the one before, with what was cleared during the call. */
  ghost function Searched(size: nat, u: State, cleared: bool, r: Rep, sendOk: bool, i: int): State
    requires |u.m| == MapBytes(size)
  {
    var t := To(size, u, u.m, r);
    if i == -1 then t.(stale := cleared)
    else if sendOk then t.(sent := u.sent + 1, hurt := u.hurt && i != |u.m| - 1)
    else t.(dead := true)
  }

  /** Neither image completion nor new data can come between the searches of one call, as only the thread that makes it
      does these; the integrity checker can. */
  ghost predicate Next(size: nat, mode: Mode, s: State, step: Step, t: State)
    requires |s.m| == MapBytes(size) && !mode.Disabled?
  {
    match step
    case Search(later, last, sendOk, i) =>
      && s.connected && s.rep.handle.None? && 0 <= s.rep.next <= |s.m| && Kept(later, s.m) && Kept(last, later)
      && (exists sent: Option<Range> ::
            Requests(s.m, Partial(later), Partial(last), size, mode, s.rep, t.rep, sendOk, sent, i))
      && t == Searched(size, Clear(size, s, last), last != s.m, t.rep, sendOk, i)
    case Reply(n) =>
      && s.connected && !s.dead
      && (exists i: nat | i < |s.m| ::
            Awaits(s.rep, i) && SetRange(s.m, n, RequestFor(size, i).lo, RequestFor(size, i).hi))
      && |n| == |s.m| && t == To(size, s, n, s.rep.(handle := None))
    case ShortReply(n) =>
      && s.connected && !s.dead && s.rep.handle.Some? && Kept(s.m, n)
      && t == To(size, s, n, s.rep.(handle := None)).(hurt := s.hurt || AwaitsLast(s), failed := s.failed + 1)
    case Stored(n, restart) =>
      && s.connected && Kept(s.m, n) && (restart.Some? ==> restart.value < |s.m|)
      && t == To(size, s, n, if restart.Some? && s.rep.next == -1 then s.rep.(next := HashStart(restart.value))
                             else s.rep)
    case Cleared(n) =>
      Kept(n, s.m) && t == Clear(size, s, n)
    case ConnectionFailed =>
      && s.connected
      && t == To(size, s, s.m, Rep(if mode.Full? && s.rep.next == -1 then 0 else s.rep.next, None, s.rep.lastDone))
              .(connected := false, dead := false, hurt := s.hurt || AwaitsLast(s),
                failed := s.failed + One(s.rep.handle.Some?))
    case ClosedIdle =>
      mode.HashBlock? && s.connected && t == s.(connected := false)
    case Switched =>
      t == To(size, s, s.m, Rep(s.rep.next, None, false))
           .(connected := true, dead := false, hurt := s.hurt || AwaitsLast(s),
             failed := s.failed + One(s.rep.handle.Some?),
             forgotten := s.forgotten + One(s.rep.lastDone))
    case Recheck =>
      mode.Full? && s.rep.next == -1 && !AllCached(Partial(s.m), size) && t == To(size, s, s.m, s.rep.(next := 0))
  }

  ghost predicate Init(size: nat, s: State) {
    && 0 < size && size % BLOCK_SIZE == 0 && |s.m| == MapBytes(size)
    && s == State(s.m, Rep(0, None, false), false, false, false, false, false, 0, 0, 0, 0)
  }

  /** The bytes still to be asked for, counting a last byte that was asked for in vain. */
  ghost function Due(s: State): nat { |Open(s.m, s.rep)| + One(s.lostLast) }

  ghost predicate Shape(size: nat, mode: Mode, s: State) {
    && 0 < size && size % BLOCK_SIZE == 0 && |s.m| == MapBytes(size) && -1 <= s.rep.next <= |s.m|
    && (s.rep.handle.Some? ==> exists i: nat | i < |s.m| ::
          Awaits(s.rep, i) && (i == |s.m| - 1 && !s.dead ==> s.rep.lastDone))
    && (mode.Full? && s.rep.next == -1 ==>
          s.rep.handle.None? && (s.stale || (AllFullBytes(s.m, true) && (s.lostLast || LastCached(s.m, size)))))
    && (s.rep.lastDone && !Awaits(s.rep, |s.m| - 1) && !s.lostLast ==> LastCached(s.m, size))
  }

  ghost predicate Counted(s: State) {
    s.sent + Due(s) <= |s.m| + s.failed + s.forgotten + s.reopened
  }

  ghost predicate Inv(size: nat, mode: Mode, s: State) { Shape(size, mode, s) && Counted(s) }

  lemma KeptFull(m: seq<bv8>, n: seq<bv8>, lastDone: bool)
    requires Kept(m, n)
    ensures forall i: nat | i < |m| :: IsFull(m, lastDone, i) ==> IsFull(n, lastDone, i)
  {
    forall i: nat | i < |m| && IsFull(m, lastDone, i) ensures IsFull(n, lastDone, i) {
      FullMapByte(m, i);
      FullMapByte(n, i);
    }
  }

  lemma KeptLast(m: seq<bv8>, n: seq<bv8>, size: nat)
    requires Kept(m, n) && |m| == MapBytes(size)
    ensures LastCached(m, size) ==> LastCached(n, size)
  {
  }

  /** The request for map byte i covers every block of the image that the byte stands for. */
  lemma RequestCovers(size: nat, i: nat, k: nat)
    requires size % BLOCK_SIZE == 0 && i < MapBytes(size) && 8 * i <= k < 8 * i + 8 && k < BlockUp(size)
    ensures Inside(k, RequestFor(size, i).lo, RequestFor(size, i).hi)
  {
  }

  lemma WholeBytes(size: nat, i: nat)
    ensures BlockUp(size) <= 8 * MapBytes(size)
    ensures i + 1 < MapBytes(size) ==> 8 * i + 8 <= BlockUp(size)
  {
  }

  /** A reply fills its map byte; the last one as far as there are blocks. */
  lemma ReplyFills(m: seq<bv8>, n: seq<bv8>, size: nat, i: nat)
    requires size % BLOCK_SIZE == 0 && |m| == MapBytes(size) && i < |m|
    requires SetRange(m, n, RequestFor(size, i).lo, RequestFor(size, i).hi)
    ensures Kept(m, n)
    ensures i < |m| - 1 ==> n[i] == 0xff
    ensures i == |m| - 1 ==> LastCached(n, size)
  {
    WholeBytes(size, i);
    forall k: nat | 8 * i <= k < 8 * i + 8 && k < BlockUp(size) ensures BlockSet(n, k) { RequestCovers(size, i, k); }
    if i < |m| - 1 { FullMapByte(n, i); }
  }

  ghost function Below(n: nat): (b: set<nat>)
    ensures |b| == n && forall i: nat :: i in b <==> i < n
  {
    if n == 0 then {} else Below(n - 1) + {n - 1}
  }

  lemma Subset(a: set<nat>, b: set<nat>)
    requires a <= b
    ensures |a| <= |b|
  {
    if a != b {
      var x :| x in b && x !in a;
      var c := b - {x};
      Subset(a, c);
    }
  }

  lemma MoreAtMost(a: set<nat>, more: set<nat>, b: set<nat>)
    requires b <= a + more
    ensures |b| <= |a| + |more|
  {
    Subset(b, a + more);
    assert |a + more| <= |a| + |more|;
  }

  lemma ClearShape(size: nat, mode: Mode, s: State, n: seq<bv8>)
    requires Shape(size, mode, s) && |n| == |s.m|
    ensures Shape(size, mode, Clear(size, s, n))
  {
  }

  lemma ClearInv(size: nat, mode: Mode, s: State, n: seq<bv8>)
    requires Inv(size, mode, s) && Kept(n, s.m)
    ensures Inv(size, mode, Clear(size, s, n))
  {
    var t := Clear(size, s, n);
    ClearShape(size, mode, s, n);
    assert Open(t.m, t.rep) <= Open(s.m, s.rep) + Reopened(s.m, n, s.rep.lastDone);
    MoreAtMost(Open(s.m, s.rep), Reopened(s.m, n, s.rep.lastDone), Open(t.m, t.rep));
  }

  /** An empty last byte is not cached, as the image ends in it. */
  lemma EmptyLast(m: seq<bv8>, n: seq<bv8>, size: nat)
    requires 0 < size && |m| == MapBytes(size) && Kept(n, m) && m[|m| - 1] == 0
    ensures !LastCached(n, size)
  {
    ZeroByte(0);
    var k := 8 * (|m| - 1);
    assert !BlockSet(m, k);
  }

  /** A byte that is not full in a map is not full with blocks taken out. */
  lemma StillOpen(m: seq<bv8>, later: seq<bv8>, last: seq<bv8>, lastDone: bool, i: nat)
    requires Kept(later, m) && Kept(last, later) && i < |m|
    requires !IsFull(m, lastDone, i) || !IsFull(later, lastDone, i)
    ensures !IsFull(last, lastDone, i)
  {
    KeptFull(later, m, lastDone);
    KeptFull(last, later, lastDone);
  }

  /** A byte found by a search over all hash blocks is not full, unless it is the last one, marked but empty. */
  lemma FoundOpen(c: seq<bv8>, lastDone: bool, start: nat, i: int)
    requires 0 < |c| && Found(Partial(c), lastDone, start, i) && i != -1
    ensures 0 <= i < |c| && (!IsFull(c, lastDone, i) || (lastDone && i == |c| - 1 && c[i] == 0))
  {
    var s := SearchStart(c, start);
    Borders(start);
    if lastDone && i == |c| - 1 {
      var k: nat :| FirstMixed(c, true, s, k) && i == Answer(c, s, k);
      LastByteAgainIff(c, s, k);
    }
  }

  lemma ChosenOpen(m: seq<bv8>, later: seq<bv8>, mode: Mode, r: Rep, i: int)
    requires 0 < |m| == |later| && 0 <= r.next <= |m| && !mode.Disabled? && Chosen(m, Partial(later), mode, r, i)
    requires i != -1
    ensures 0 <= i < |m|
    ensures || !IsFull(m, r.lastDone, i) || !IsFull(later, r.lastDone, i)
            || (mode.HashBlock? && r.lastDone && i == |m| - 1 && later[i] == 0)
  {
    if mode.HashBlock? && BlockDone(m, r) { FoundOpen(later, r.lastDone, HashEnd(m, r.next), i); }
  }

  lemma RequestTakes(size: nat, mode: Mode, s: State, later: seq<bv8>, last: seq<bv8>, sendOk: bool, i: int, t: State)
    requires 0 < size && |s.m| == MapBytes(size) && !mode.Disabled?
    requires Next(size, mode, s, Search(later, last, sendOk, i), t) && 0 <= i < |s.m|
    ensures t.m == last && forall j: nat :: Awaits(t.rep, j) <==> j == i
    ensures Open(t.m, t.rep) == Open(last, s.rep) - {i}
  {
    var sent: Option<Range> :|
      Requests(s.m, Partial(later), Partial(last), size, mode, s.rep, t.rep, sendOk, sent, i);
    assert t.rep.lastDone == s.rep.lastDone || i == |s.m| - 1;
  }

  /** A request lies in the image and leaves its byte out of those still to be asked for. It was one of them, or it is
      the last byte, which counts as replicated although a block of it is missing. */
  lemma RequestMakesProgress(size: nat, mode: Mode, s: State, later: seq<bv8>, last: seq<bv8>, sendOk: bool, i: int,
                             t: State)
    requires Shape(size, mode, s) && !mode.Disabled? && Next(size, mode, s, Search(later, last, sendOk, i), t)
    requires i != -1
    ensures 0 <= i < |s.m| && RequestFor(size, i).lo < RequestFor(size, i).hi <= size
    ensures var u := Clear(size, s, last);
            && Open(t.m, t.rep) == Open(u.m, u.rep) - {i}
            && (i in Open(u.m, u.rep)
                || (mode.HashBlock? && i == |s.m| - 1 && s.rep.lastDone && u.lostLast && !t.lostLast))
  {
    assert Chosen(s.m, Partial(later), mode, s.rep, i);
    ChosenOpen(s.m, later, mode, s.rep, i);
    RequestTakes(size, mode, s, later, last, sendOk, i, t);
    if IsFull(s.m, s.rep.lastDone, i) && IsFull(later, s.rep.lastDone, i) {
      EmptyLast(later, last, size);
    } else {
      StillOpen(s.m, later, last, s.rep.lastDone, i);
    }
  }

  lemma FullLast(m: seq<bv8>, size: nat)
    requires 0 < size && |m| == MapBytes(size) && m[|m| - 1] == 0xff
    ensures LastCached(m, size)
  {
    WholeBytes(size, |m| - 1);
    FullMapByte(m, |m| - 1);
  }

  lemma MarkedFull(m: seq<bv8>, lastDone: bool)
    requires AllFullBytes(m, lastDone)
    ensures AllFullBytes(m, true)
  {
    forall x: nat | x < |m| ensures IsFull(m, true, x) { assert IsFull(m, lastDone, x); }
  }

  /** An empty search in full mode on a map that is not cleared meanwhile. */
  lemma EmptySearchOff(size: nat, s: State)
    requires Shape(size, Full, s) && s.rep.handle.None? && AllFullBytes(s.m, s.rep.lastDone)
    ensures AllFullBytes(s.m, true) && ((s.rep.lastDone && s.lostLast) || LastCached(s.m, size))
  {
    MarkedFull(s.m, s.rep.lastDone);
    assert IsFull(s.m, s.rep.lastDone, |s.m| - 1);
    if !s.rep.lastDone { FullLast(s.m, size); }
  }

  lemma EmptySearchInv(size: nat, mode: Mode, s: State, later: seq<bv8>, last: seq<bv8>, sendOk: bool, t: State)
    requires Inv(size, mode, s) && !mode.Disabled? && Next(size, mode, s, Search(later, last, sendOk, -1), t)
    ensures Inv(size, mode, t)
  {
    var u := Clear(size, s, last);
    ClearInv(size, mode, s, last);
    assert t.m == u.m && t.rep == u.rep.(next := -1) && u.rep.handle.None?;
    assert Open(t.m, t.rep) == Open(u.m, u.rep);
    if mode.Full? && last == s.m {
      assert AllFullBytes(s.m, s.rep.lastDone);
      EmptySearchOff(size, s);
    }
  }

  lemma RequestShape(size: nat, mode: Mode, s: State, later: seq<bv8>, last: seq<bv8>, sendOk: bool, i: int, t: State)
    requires Shape(size, mode, s) && !mode.Disabled? && Next(size, mode, s, Search(later, last, sendOk, i), t)
    requires 0 <= i < |s.m|
    ensures Shape(size, mode, t)
  {
    ClearShape(size, mode, s, last);
    RequestTakes(size, mode, s, later, last, sendOk, i, t);
    assert Awaits(t.rep, i);
    assert Awaits(t.rep, |s.m| - 1) <==> i == |s.m| - 1;
  }

  /** A request does not lose the last byte. */
  lemma RequestLost(size: nat, mode: Mode, s: State, later: seq<bv8>, last: seq<bv8>, sendOk: bool, i: int, t: State)
    requires Shape(size, mode, s) && !mode.Disabled? && Next(size, mode, s, Search(later, last, sendOk, i), t)
    requires 0 <= i < |s.m|
    ensures t.lostLast ==> Clear(size, s, last).lostLast
    ensures t == Clear(size, s, last).(m := t.m, rep := t.rep, lostLast := t.lostLast, hurt := t.hurt,
                                         dead := t.dead, sent := t.sent)
    ensures t.sent <= s.sent + 1 && t.hurt == (Clear(size, s, last).hurt && !(sendOk && i == |s.m| - 1))
  {
    ClearShape(size, mode, s, last);
    RequestTakes(size, mode, s, later, last, sendOk, i, t);
    assert t.rep.lastDone && i != |s.m| - 1 ==> s.rep.lastDone;
  }

  lemma RequestInv(size: nat, mode: Mode, s: State, later: seq<bv8>, last: seq<bv8>, sendOk: bool, i: int, t: State)
    requires Inv(size, mode, s) && !mode.Disabled? && Next(size, mode, s, Search(later, last, sendOk, i), t) && i != -1
    ensures Inv(size, mode, t)
  {
    ClearInv(size, mode, s, last);
    RequestMakesProgress(size, mode, s, later, last, sendOk, i, t);
    RequestShape(size, mode, s, later, last, sendOk, i, t);
    RequestLost(size, mode, s, later, last, sendOk, i, t);
  }

  lemma ReplyInv(size: nat, mode: Mode, s: State, n: seq<bv8>, t: State)
    requires Inv(size, mode, s) && !mode.Disabled? && Next(size, mode, s, Reply(n), t)
    ensures Inv(size, mode, t)
  {
    var i: nat :| i < |s.m| && Awaits(s.rep, i) && SetRange(s.m, n, RequestFor(size, i).lo, RequestFor(size, i).hi);
    ReplyFills(s.m, n, size, i);
    KeptFull(s.m, n, s.rep.lastDone);
    KeptLast(s.m, n, size);
    assert forall j: nat :: Awaits(s.rep, j) <==> j == i;
    assert IsFull(t.m, t.rep.lastDone, i);
    assert Open(t.m, t.rep) <= Open(s.m, s.rep);
    Subset(Open(t.m, t.rep), Open(s.m, s.rep));
  }

  lemma ShortReplyInv(size: nat, mode: Mode, s: State, n: seq<bv8>, t: State)
    requires Inv(size, mode, s) && !mode.Disabled? && Next(size, mode, s, ShortReply(n), t)
    ensures Inv(size, mode, t)
  {
    var i: nat :| i < |s.m| && Awaits(s.rep, i) && (i == |s.m| - 1 && !s.dead ==> s.rep.lastDone);
    KeptFull(s.m, n, s.rep.lastDone);
    KeptLast(s.m, n, size);
    assert forall j: nat :: Awaits(s.rep, j) <==> j == i;
    var more: set<nat> := if i == |s.m| - 1 then {} else {i};
    assert Open(t.m, t.rep) <= Open(s.m, s.rep) + more;
    MoreAtMost(Open(s.m, s.rep), more, Open(t.m, t.rep));
  }

  lemma StoredInv(size: nat, mode: Mode, s: State, n: seq<bv8>, restart: Option<nat>, t: State)
    requires Inv(size, mode, s) && !mode.Disabled? && Next(size, mode, s, Stored(n, restart), t)
    ensures Inv(size, mode, t)
  {
    KeptFull(s.m, n, s.rep.lastDone);
    KeptFull(s.m, n, true);
    KeptLast(s.m, n, size);
    assert Open(t.m, t.rep) <= Open(s.m, s.rep);
    Subset(Open(t.m, t.rep), Open(s.m, s.rep));
    assert forall j: nat :: Awaits(t.rep, j) == Awaits(s.rep, j);
  }

  /** Giving up a request on its way opens at most its byte; none if that is a last byte that stays marked. */
  lemma GivenUp(m: seq<bv8>, r: Rep)
    requires m != [] && (r.handle.Some? ==> exists i: nat | i < |m| :: Awaits(r, i))
    ensures |Open(m, r.(handle := None))| <= |Open(m, r)| + One(r.handle.Some? && !(r.lastDone && Awaits(r, |m| - 1)))
  {
    var awaited: set<nat> := {};
    if r.handle.Some? {
      var i: nat :| i < |m| && Awaits(r, i);
      assert forall j: nat :: Awaits(r, j) ==> j == i;
      if i < |m| - 1 || !r.lastDone { awaited := {i}; }
    }
    assert Open(m, r.(handle := None)) <= Open(m, r) + awaited;
    MoreAtMost(Open(m, r), awaited, Open(m, r.(handle := None)));
  }

  /** Forgetting that the last byte was asked for opens at most that byte. */
  lemma MarkForgotten(m: seq<bv8>, r: Rep)
    requires m != []
    ensures |Open(m, r.(lastDone := false))| <= |Open(m, r)| + One(r.lastDone)
  {
    var mark: set<nat> := if r.lastDone then {|m| - 1} else {};
    assert forall j: nat :: Awaits(r.(lastDone := false), j) == Awaits(r, j);
    assert Open(m, r.(lastDone := false)) <= Open(m, r) + mark;
    MoreAtMost(Open(m, r), mark, Open(m, r.(lastDone := false)));
  }

  lemma FailedInv(size: nat, mode: Mode, s: State, t: State)
    requires Inv(size, mode, s) && !mode.Disabled? && Next(size, mode, s, ConnectionFailed, t)
    ensures Inv(size, mode, t)
  {
    GivenUp(s.m, s.rep);
    assert Open(t.m, t.rep) == Open(s.m, s.rep.(handle := None));
  }

  lemma SwitchedInv(size: nat, mode: Mode, s: State, t: State)
    requires Inv(size, mode, s) && !mode.Disabled? && Next(size, mode, s, Switched, t)
    ensures Inv(size, mode, t)
  {
    GivenUp(s.m, s.rep);
    MarkForgotten(s.m, s.rep.(handle := None));
    assert t.rep == s.rep.(handle := None).(lastDone := false);
  }

  lemma RecheckInv(size: nat, mode: Mode, s: State, t: State)
    requires Inv(size, mode, s) && !mode.Disabled? && Next(size, mode, s, Recheck, t)
    ensures Inv(size, mode, t)
  {
    assert Open(t.m, t.rep) == Open(s.m, s.rep);
    assert Awaits(t.rep, |s.m| - 1) == Awaits(s.rep, |s.m| - 1);
  }

  lemma StepInv(size: nat, mode: Mode, s: State, step: Step, t: State)
    requires Inv(size, mode, s) && !mode.Disabled? && Next(size, mode, s, step, t)
    ensures Inv(size, mode, t)
  {
    match step
    case Search(later, last, sendOk, i) =>
      if i == -1 { EmptySearchInv(size, mode, s, later, last, sendOk, t); }
      else { RequestInv(size, mode, s, later, last, sendOk, i, t); }
    case Reply(n) => ReplyInv(size, mode, s, n, t);
    case ShortReply(n) => ShortReplyInv(size, mode, s, n, t);
    case Stored(n, restart) => StoredInv(size, mode, s, n, restart, t);
    case Cleared(n) => ClearInv(size, mode, s, n);
    case ConnectionFailed => FailedInv(size, mode, s, t);
    case ClosedIdle =>
    case Switched => SwitchedInv(size, mode, s, t);
    case Recheck => RecheckInv(size, mode, s, t);
  }

  ghost predicate Steps(size: nat, mode: Mode, s: State, t: State) {
    |s.m| == MapBytes(size) && !mode.Disabled? && exists step :: Next(size, mode, s, step, t)
  }

  /** A run: consecutive states are related by steps. */
  ghost predicate Run(size: nat, mode: Mode, run: seq<State>) {
    && |run| > 0 && Init(size, run[0]) && !mode.Disabled?
    && forall k: nat | k + 1 < |run| :: Steps(size, mode, run[k], run[k + 1])
  }

  lemma {:induction false} RunInv(size: nat, mode: Mode, run: seq<State>, k: nat)
    requires Run(size, mode, run) && k < |run|
    ensures Inv(size, mode, run[k])
  {
    if k == 0 {
      Subset(Open(run[0].m, run[0].rep), Below(|run[0].m|));
    } else {
      RunInv(size, mode, run, k - 1);
      assert Steps(size, mode, run[k - 1], run[k - 1 + 1]);
      var step :| Next(size, mode, run[k - 1], step, run[k]);
      StepInv(size, mode, run[k - 1], step, run[k]);
    }
  }

  /** When data of the last byte is missing, something happened to it. */
  ghost predicate Paid(s: State) { s.lostLast ==> s.hurt && s.failed + s.reopened > 0 }

  lemma LastUntouched(m: seq<bv8>, n: seq<bv8>, size: nat)
    requires 0 < size && |m| == |n| == MapBytes(size) && m[|m| - 1] == n[|m| - 1] && LastCached(m, size)
    ensures LastCached(n, size)
  {
    var last: nat := |m| - 1;
    WholeBytes(size, last);
    forall k: nat | 8 * last <= k < BlockUp(size) ensures BlockSet(n, k) {
      assert k / 8 == last;
      assert BlockSet(m, k);
    }
  }

  lemma ClearPaid(size: nat, mode: Mode, s: State, n: seq<bv8>)
    requires Shape(size, mode, s) && Paid(s) && |n| == |s.m|
    ensures Paid(Clear(size, s, n))
  {
    var t := Clear(size, s, n);
    if t.lostLast && !s.lostLast && n[|n| - 1] == s.m[|n| - 1] {
      LastUntouched(s.m, n, size);
    }
  }

  lemma SearchPaid(size: nat, mode: Mode, s: State, later: seq<bv8>, last: seq<bv8>, sendOk: bool, i: int, t: State)
    requires Shape(size, mode, s) && Paid(s) && !mode.Disabled?
    requires Next(size, mode, s, Search(later, last, sendOk, i), t)
    ensures Paid(t)
  {
    ClearPaid(size, mode, s, last);
    ClearShape(size, mode, s, last);
    if i != -1 {
      RequestMakesProgress(size, mode, s, later, last, sendOk, i, t);
      RequestLost(size, mode, s, later, last, sendOk, i, t);
      RequestTakes(size, mode, s, later, last, sendOk, i, t);
    }
  }

  /** A full answer for the last byte leaves nothing missing; one for another byte takes nothing away. */
  lemma ReplyPaid(size: nat, mode: Mode, s: State, n: seq<bv8>, t: State)
    requires Shape(size, mode, s) && Paid(s) && !mode.Disabled? && Next(size, mode, s, Reply(n), t)
    ensures Paid(t)
  {
    var i: nat :| i < |s.m| && Awaits(s.rep, i) && SetRange(s.m, n, RequestFor(size, i).lo, RequestFor(size, i).hi);
    ReplyFills(s.m, n, size, i);
    KeptLast(s.m, n, size);
    assert Awaits(s.rep, |s.m| - 1) <==> i == |s.m| - 1;
  }

  lemma ShortReplyPaid(size: nat, mode: Mode, s: State, n: seq<bv8>, t: State)
    requires Shape(size, mode, s) && Paid(s) && !mode.Disabled? && Next(size, mode, s, ShortReply(n), t)
    ensures Paid(t)
  {
    KeptLast(s.m, n, size);
  }

  lemma StoredPaid(size: nat, mode: Mode, s: State, n: seq<bv8>, restart: Option<nat>, t: State)
    requires Shape(size, mode, s) && Paid(s) && !mode.Disabled? && Next(size, mode, s, Stored(n, restart), t)
    ensures Paid(t)
  {
    KeptLast(s.m, n, size);
    assert Awaits(t.rep, |s.m| - 1) == Awaits(s.rep, |s.m| - 1);
  }

  /** No step loses data of the last byte without a failed request or a clear. */
  lemma StepPaid(size: nat, mode: Mode, s: State, step: Step, t: State)
    requires Shape(size, mode, s) && Paid(s) && !mode.Disabled? && Next(size, mode, s, step, t)
    ensures Paid(t)
  {
    match step
    case Search(later, last, sendOk, i) => SearchPaid(size, mode, s, later, last, sendOk, i, t);
    case Reply(n) => ReplyPaid(size, mode, s, n, t);
    case ShortReply(n) => ShortReplyPaid(size, mode, s, n, t);
    case Stored(n, restart) => StoredPaid(size, mode, s, n, restart, t);
    case Cleared(n) => ClearPaid(size, mode, s, n);
    case _ => assert t.m == s.m && Awaits(s.rep.(next := 0), |s.m| - 1) == Awaits(s.rep, |s.m| - 1);
  }

  lemma {:induction false} RunPaid(size: nat, mode: Mode, run: seq<State>, k: nat)
    requires Run(size, mode, run) && k < |run|
    ensures Paid(run[k])
  {
    if k > 0 {
      RunPaid(size, mode, run, k - 1);
      RunInv(size, mode, run, k - 1);
      assert Steps(size, mode, run[k - 1], run[k - 1 + 1]);
      var step :| Next(size, mode, run[k - 1], step, run[k]);
      StepPaid(size, mode, run[k - 1], step, run[k]);
    }
  }

  /** At most one request per map byte, plus one for each request that got no answer or was stored only in part, each
      byte that a clear made incomplete and each change of server after the last byte was asked for. */
  lemma RequestsBounded(size: nat, mode: Mode, run: seq<State>, k: nat)
    requires Run(size, mode, run) && k < |run|
    ensures var s := run[k]; s.sent + Due(s) <= MapBytes(size) + s.failed + s.forgotten + s.reopened
  {
    RunInv(size, mode, run, k);
  }

  /** With no byte left to be asked for, the last map byte decides whether the image is complete. */
  lemma NothingLeft(size: nat, m: seq<bv8>, lastDone: bool)
    requires 0 < size && |m| == MapBytes(size) && AllFullBytes(m, lastDone)
    ensures AllCached(Partial(m), size) <==> LastCached(m, size)
    ensures !lastDone ==> AllCached(Partial(m), size)
  {
    BlocksFit(size);
    var last: nat := |m| - 1;
    if !lastDone {
      assert IsFull(m, lastDone, last);
      FullMapByte(m, last);
    }
    if LastCached(m, size) {
      forall k: nat | k < BlockUp(size) ensures Cached(Partial(m), k) {
        if k < 8 * last {
          assert IsFull(m, lastDone, k / 8);
          FullMapByte(m, k / 8);
        }
      }
    } else {
      var k: nat :| 8 * last <= k < BlockUp(size) && !BlockSet(m, k);
      assert !Cached(Partial(m), k);
    }
  }

  /** When full replication has switched itself off and the map was not cleared since, the image is complete: if every
      request was answered and fully written and no clear took a byte; and already if nothing happened to the last map
      byte since it was last asked for, whatever happened to the others. In any case its blocks decide. */
  lemma ReplicationEndsComplete(size: nat, run: seq<State>, k: nat)
    requires Run(size, Full, run) && k < |run| && run[k].rep.next == -1 && !run[k].stale
    ensures |run[k].m| == MapBytes(size)
    ensures run[k].failed == 0 && run[k].reopened == 0 ==> AllCached(Partial(run[k].m), size)
    ensures !run[k].hurt ==> AllCached(Partial(run[k].m), size)
    ensures !run[k].lostLast ==> AllCached(Partial(run[k].m), size)
    ensures AllCached(Partial(run[k].m), size) <==> LastCached(run[k].m, size)
  {
    RunInv(size, Full, run, k);
    RunPaid(size, Full, run, k);
    NothingLeft(size, run[k].m, true);
  }

  /** Counting requests is enough, in both modes: when as many were sent as RequestsBounded allows and none is on its
      way, the image is complete. */
  lemma EnoughRequestsComplete(size: nat, mode: Mode, run: seq<State>, k: nat)
    requires Run(size, mode, run) && k < |run| && run[k].rep.handle.None?
    requires var s := run[k]; s.sent >= MapBytes(size) + s.failed + s.forgotten + s.reopened
    ensures |run[k].m| == MapBytes(size) && AllCached(Partial(run[k].m), size)
  {
    RunInv(size, mode, run, k);
    var s := run[k];
    assert Open(s.m, s.rep) == {} && !s.lostLast;
    forall x: nat | x < |s.m| ensures IsFull(s.m, s.rep.lastDone, x) { assert x !in Open(s.m, s.rep); }
    NothingLeft(size, s.m, s.rep.lastDone);
  }

  /** While something is open and no request on its way, the search finds a byte. */
  lemma {:induction false} SearchFinds(m: seq<bv8>, lastDone: bool, next: nat, j: nat)
    requires next <= |m| && j <= |m| && !AllFullBytes(m, lastDone)
    requires forall x: nat | x < |m| && Turn(m, next, x) < j :: IsFull(m, lastDone, x)
    ensures exists i: nat :: FirstWanted(m, lastDone, next, i)
    decreases |m| - j
  {
    if j < |m| {
      WrappedTurn(m, next, next + j);
      var i: nat := Wrapped(m, next + j);
      if IsFull(m, lastDone, i) { SearchFinds(m, lastDone, next, j + 1); }
      else { assert FirstWanted(m, lastDone, next, i); }
    }
  }

  /** The run of LostLastExample, state by state. */
  ghost function LostLastState(k: nat): State {
    match k
    case 0 => State([0], Rep(0, None, false), false, false, false, false, false, 0, 0, 0, 0)
    case 1 => State([0], Rep(0, None, false), true, false, false, false, false, 0, 0, 0, 0)
    case 2 => State([0], Rep(1, Some(0), true), true, false, false, false, false, 1, 0, 0, 0)
    case 3 => State([0], Rep(1, None, true), true, false, false, true, true, 1, 1, 0, 0)
    case 4 => State([0], Rep(-1, None, true), true, false, false, true, true, 1, 1, 0, 0)
    case _ => State([0], Rep(-1, None, false), true, false, false, true, true, 1, 1, 1, 0)
  }

  lemma EmptyMap()
    ensures MapBytes(BLOCK_SIZE) == 1 && !BlockSet([0], 0) && !LastCached([0], BLOCK_SIZE)
  {
    ZeroByte(0);
    assert !BlockSet([0], 0);
  }

  lemma LostLastRequest(s: State, t: State)
    requires s == LostLastState(1) && t == LostLastState(2)
    ensures Steps(BLOCK_SIZE, Full, s, t)
  {
    EmptyMap();
    var m: seq<bv8> := [0];
    assert FirstWanted(m, false, 0, 0);
    var sent := Some(RequestFor(BLOCK_SIZE, 0));
    assert Requests(m, Partial(m), Partial(m), BLOCK_SIZE, Full, s.rep, t.rep, true, sent, 0);
    assert Reopened(m, m, false) == {};
    assert Next(BLOCK_SIZE, Full, s, Search(m, m, true, 0), t);
  }

  lemma LostLastEmptySearch(s: State, t: State)
    requires s == LostLastState(3) && t == LostLastState(4)
    ensures Steps(BLOCK_SIZE, Full, s, t)
  {
    EmptyMap();
    var m: seq<bv8> := [0];
    assert Requests(m, Partial(m), Partial(m), BLOCK_SIZE, Full, s.rep, t.rep, true, None, -1);
    assert Reopened(m, m, true) == {};
    assert Next(BLOCK_SIZE, Full, s, Search(m, m, true, -1), t);
  }

  lemma LostLastConnected(s: State, t: State)
    requires s == LostLastState(0) && t == LostLastState(1)
    ensures Steps(BLOCK_SIZE, Full, s, t)
  {
    EmptyMap();
    assert Next(BLOCK_SIZE, Full, s, Switched, t);
  }

  lemma LostLastShortReply(s: State, t: State)
    requires s == LostLastState(2) && t == LostLastState(3)
    ensures Steps(BLOCK_SIZE, Full, s, t)
  {
    EmptyMap();
    assert Next(BLOCK_SIZE, Full, s, ShortReply([0]), t);
  }

  lemma LostLastSwitch(s: State, t: State)
    requires s == LostLastState(4) && t == LostLastState(5)
    ensures Next(BLOCK_SIZE, Full, s, Switched, t)
    ensures Steps(BLOCK_SIZE, Full, s, t)
  {
    EmptyMap();
    assert Next(BLOCK_SIZE, Full, s, Switched, t);
  }

  lemma LostLastStep(n: nat)
    requires n < 5
    ensures Steps(BLOCK_SIZE, Full, LostLastState(n), LostLastState(n + 1))
  {
    var s, t := LostLastState(n), LostLastState(n + 1);
    if n == 0 { LostLastConnected(s, t); }
    else if n == 1 { LostLastRequest(s, t); }
    else if n == 2 { LostLastShortReply(s, t); }
    else if n == 3 { LostLastEmptySearch(s, t); }
    else { LostLastSwitch(s, t); }
  }

  lemma LongerRun(size: nat, mode: Mode, run: seq<State>, t: State)
    requires Run(size, mode, run) && Steps(size, mode, run[|run| - 1], t)
    ensures Run(size, mode, run + [t])
  {
  }

  ghost function LostLastRun(n: nat): (r: seq<State>)
    ensures |r| == n + 1 && r[n] == LostLastState(n)
  {
    if n == 0 then [LostLastState(0)] else LostLastRun(n - 1) + [LostLastState(n)]
  }

  lemma {:induction false} LostLastRuns(n: nat)
    requires n <= 5
    ensures Run(BLOCK_SIZE, Full, LostLastRun(n))
  {
    if n == 0 {
      EmptyMap();
    } else {
      LostLastRuns(n - 1);
      LostLastStep(n - 1);
      LongerRun(BLOCK_SIZE, Full, LostLastRun(n - 1), LostLastState(n));
    }
  }

  /** Replication is off although the image is incomplete, with a server at hand and no clear to blame. */
  ghost predicate OffIncomplete(s: State) {
    && s.connected && s.rep.next == -1 && !s.stale && s.lostLast
    && |s.m| == MapBytes(BLOCK_SIZE) && !AllCached(Partial(s.m), BLOCK_SIZE)
  }

  lemma LostLastOff(k: nat)
    requires 4 <= k <= 5
    ensures OffIncomplete(LostLastState(k))
  {
    EmptyMap();
    assert !Cached(Partial([0]), 0);
  }

  /** A reply stored in part for the last map byte: replication ends although the image is incomplete, and stays off
      when a better server is taken. */
  lemma LostLastExample()
    ensures Run(BLOCK_SIZE, Full, LostLastRun(4)) && OffIncomplete(LostLastRun(4)[4])
    ensures Run(BLOCK_SIZE, Full, LostLastRun(5)) && OffIncomplete(LostLastRun(5)[5])
    ensures Next(BLOCK_SIZE, Full, LostLastRun(4)[4], Switched, LostLastRun(5)[5])
  {
    LostLastRuns(4);
    LostLastRuns(5);
    LostLastOff(4);
    LostLastOff(5);
    LostLastSwitch(LostLastState(4), LostLastState(5));
  }

  /** The answer to the request of a one-block image is stored. */
  ghost function AnsweredState(k: nat): State {
    if k <= 2 then LostLastState(k)
    else State([1], Rep(if k == 3 then 1 else -1, None, true), true, false, false, false, false, 1, 0, 0, 0)
  }

  lemma OneBlockMap()
    ensures BlockSet([1], 0) && forall k: nat | 0 < k < 8 :: !BlockSet([1], k)
    ensures SetRange([0], [1], 0, BLOCK_SIZE) && LastCached([1], BLOCK_SIZE) && AllCached(Partial([1]), BLOCK_SIZE)
  {
    forall k: nat | k < 8 ensures BlockSet([1], k) <==> k == 0 {
      assert 1 & Mask(k) != 0 <==> k == 0;
    }
    forall k: nat | k < 8 ensures !BlockSet([0], k) { ZeroByte(k); }
  }

  lemma AnsweredReply()
    ensures Steps(BLOCK_SIZE, Full, AnsweredState(2), AnsweredState(3))
  {
    OneBlockMap();
    var m: seq<bv8> := [1];
    assert Awaits(AnsweredState(2).rep, 0);
    assert RequestFor(BLOCK_SIZE, 0).lo == 0 && RequestFor(BLOCK_SIZE, 0).hi == BLOCK_SIZE;
    assert Next(BLOCK_SIZE, Full, AnsweredState(2), Reply(m), AnsweredState(3));
  }

  lemma AnsweredEmptySearch()
    ensures Steps(BLOCK_SIZE, Full, AnsweredState(3), AnsweredState(4))
  {
    OneBlockMap();
    var m: seq<bv8> := [1];
    var s, t := AnsweredState(3), AnsweredState(4);
    assert Requests(m, Partial(m), Partial(m), BLOCK_SIZE, Full, s.rep, t.rep, true, None, -1);
    assert Reopened(m, m, true) == {};
    assert Next(BLOCK_SIZE, Full, s, Search(m, m, true, -1), t);
  }

  /** A run without mishaps: one request, one answer, and replication is off with the image complete. */
  lemma CompleteRun()
    ensures var run := LostLastRun(2) + [AnsweredState(3)] + [AnsweredState(4)];
            && Run(BLOCK_SIZE, Full, run) && run[4].rep.next == -1 && !run[4].stale && run[4].sent == 1
            && run[4].failed == run[4].reopened == 0 && AllCached(Partial(run[4].m), BLOCK_SIZE)
  {
    LostLastRuns(2);
    OneBlockMap();
    AnsweredReply();
    AnsweredEmptySearch();
    LongerRun(BLOCK_SIZE, Full, LostLastRun(2), AnsweredState(3));
    LongerRun(BLOCK_SIZE, Full, LostLastRun(2) + [AnsweredState(3)], AnsweredState(4));
  }
}
