/** The list of alternative servers handed to a client (altservers.c 182-232, 340-360): built by insertion into a
    truncated array, it is the beginning of a stable sort. */
module AltServerList {
  import opened Wrappers

  /** HOST_IP4 */
  const IP4: nat := 2

  type Address = a: seq<bv8> | |a| == 16 witness seq(16, _ => 0)

  /** kind 0 marks an empty entry. */
  datatype Host = Host(kind: nat, addr: Address)

  /** What a client is told about a server. */
  datatype Entry = Entry(host: Host, failures: nat)

  datatype AltServer = AltServer(host: Host, isPrivate: bool, numFails: nat)

  // ---------------------------------------------------------------- closeness

  /** The k-th group of four bits of an address, left in its place in the byte. */
  function Nibble(a: Address, k: nat): bv8
    requires k < 32
  {
    if k % 2 == 0 then a[k / 2] & 0xf0 else a[k / 2] & 0x0f
  }

  /** How many leading groups of four bits agree, from group k on. */
  function Agreeing(a: Address, b: Address, k: nat, max: nat): (n: nat)
    requires k <= max <= 32
    ensures k <= n <= max && (n < max ==> Nibble(a, n) != Nibble(b, n))
    ensures forall i: nat | k <= i < n :: Nibble(a, i) == Nibble(b, i)
    decreases max - k
  {
    if k == max || Nibble(a, k) != Nibble(b, k) then k else Agreeing(a, b, k + 1, max)
  }

  function Closeness(h1: Host, h2: Host): int {
    if h1.kind != h2.kind then -1 else Agreeing(h1.addr, h2.addr, 0, if h1.kind == IP4 then 8 else 32)
  }

  /** One byte holds two groups. */
  lemma ByteAgrees(a: Address, b: Address, i: nat, max: nat)
    requires 2 * i + 2 <= max <= 32
    ensures Agreeing(a, b, 2 * i, max) ==
              if a[i] & 0xf0 != b[i] & 0xf0 then 2 * i
              else if a[i] & 0x0f != b[i] & 0x0f then 2 * i + 1
              else Agreeing(a, b, 2 * i + 2, max)
  {
    var k := 2 * i;
    assert k % 2 == 0 && k / 2 == i && (k + 1) % 2 == 1 && (k + 1) / 2 == i;
    assert Agreeing(a, b, k, max) == if Nibble(a, k) != Nibble(b, k) then k else Agreeing(a, b, k + 1, max);
  }

  /** The first m groups of four bits agree, in the order high half, low half of each byte. */
  ghost predicate Agree(a: Address, b: Address, m: nat) {
    && m <= 32
    && (forall i: nat | 2 * i < m :: a[i] & 0xf0 == b[i] & 0xf0)
    && (forall i: nat | 2 * i + 1 < m :: a[i] & 0x0f == b[i] & 0x0f)
  }

  /** Closeness is the number of leading groups that agree, of 8 for IPv4 and 32 otherwise. */
  lemma ClosenessMeans(h1: Host, h2: Host)
    ensures h1.kind != h2.kind ==> Closeness(h1, h2) == -1
    ensures h1.kind == h2.kind ==>
              && 0 <= Closeness(h1, h2) <= (if h1.kind == 2 then 8 else 32)
              && forall m: nat | m <= (if h1.kind == 2 then 8 else 32) ::
                   Agree(h1.addr, h2.addr, m) <==> m <= Closeness(h1, h2)
  {
    if h1.kind == h2.kind {
      var a, b, n := h1.addr, h2.addr, Closeness(h1, h2);
      forall i: nat | 2 * i < n ensures a[i] & 0xf0 == b[i] & 0xf0 { assert Nibble(a, 2 * i) == Nibble(b, 2 * i); }
      forall i: nat | 2 * i + 1 < n ensures a[i] & 0x0f == b[i] & 0x0f {
        assert (2 * i + 1) / 2 == i && Nibble(a, 2 * i + 1) == Nibble(b, 2 * i + 1);
      }
      assert Agree(a, b, n);
      var max := if h1.kind == IP4 then 8 else 32;
      if n < max {
        assert Nibble(a, n) != Nibble(b, n);
        assert n == if n % 2 == 0 then 2 * (n / 2) else 2 * (n / 2) + 1;
        assert !Agree(a, b, n + 1);
      }
    }
  }

  /** altservers_netCloseness; None for NULL. */
  method NetCloseness(host1: Option<Host>, host2: Option<Host>) returns (retval: int)
    ensures retval == if host1.None? || host2.None? then -1 else Closeness(host1.value, host2.value)
  {
    if host1.None? || host2.None? || host1.value.kind != host2.value.kind { return -1; }
    retval := 0;
    var a, b := host1.value.addr, host2.value.addr;
    var max: nat := if host1.value.kind == IP4 then 4 else 16;
    ghost var all := Agreeing(a, b, 0, 2 * max);
    for i := 0 to max
      invariant retval == 2 * i && all == Agreeing(a, b, 2 * i, 2 * max)
    {
      ByteAgrees(a, b, i, 2 * max);
      if a[i] & 0xf0 != b[i] & 0xf0 { return; }
      retval := retval + 1;
      if a[i] & 0x0f != b[i] & 0x0f { return; }
      retval := retval + 1;
    }
  }

  // ---------------------------------------------------------------- the order

  /** A server by its place in the source's array, with its score. */
  datatype Ranked = Ranked(index: nat, score: int)

  /** Higher scores first, equal scores in array order. */
  predicate Before(a: Ranked, b: Ranked) { a.score > b.score || (a.score == b.score && a.index < b.index) }

  ghost predicate Ordered(l: seq<Ranked>) { forall i: nat, j: nat | i < j < |l| :: Before(l[i], l[j]) }

  predicate Eligible(s: AltServer) { s.host.kind != 0 && !s.isPrivate }

  function Score(host: Host, s: AltServer): int {
    if host.kind == s.host.kind then Closeness(host, s.host) - s.numFails else -(s.numFails + 128)
  }

  /** All servers a client may be told about, in array order. */
  function Candidates(host: Host, servers: seq<AltServer>): (c: seq<Ranked>)
    ensures |c| <= |servers|
    ensures forall x <- c ::
              x.index < |servers| && Eligible(servers[x.index]) && x.score == Score(host, servers[x.index])
    ensures forall i: nat | i < |servers| && Eligible(servers[i]) :: Ranked(i, Score(host, servers[i])) in c
    ensures forall i: nat, j: nat | i < j < |c| :: c[i].index < c[j].index
  {
    if servers == [] then [] else
      var n := |servers| - 1;
      var c := Candidates(host, servers[..n]);
      if Eligible(servers[n]) then c + [Ranked(n, Score(host, servers[n]))] else c
  }

  /** Behind everything that scores as high. */
  function Position(l: seq<Ranked>, score: int, j: nat): (p: nat)
    requires j <= |l|
    ensures j <= p <= |l| && (p < |l| ==> l[p].score < score)
    ensures forall i: nat | j <= i < p :: l[i].score >= score
    decreases |l| - j
  {
    if j < |l| && l[j].score >= score then Position(l, score, j + 1) else j
  }

  function Insert(l: seq<Ranked>, x: Ranked): (r: seq<Ranked>)
    ensures |r| == |l| + 1
  {
    var p := Position(l, x.score, 0);
    l[..p] + [x] + l[p..]
  }

  function Sorted(c: seq<Ranked>): (r: seq<Ranked>)
    ensures |r| == |c|
  {
    if c == [] then [] else Insert(Sorted(c[..|c| - 1]), c[|c| - 1])
  }

  lemma SplicedAt(l: seq<Ranked>, p: nat, x: Ranked, i: nat)
    requires p <= |l| && i <= |l|
    ensures (l[..p] + [x] + l[p..])[i] == if i < p then l[i] else if i == p then x else l[i - 1]
  {
  }

  lemma InsertedAt(l: seq<Ranked>, x: Ranked, i: nat)
    requires i <= |l|
    ensures var p := Position(l, x.score, 0); Insert(l, x)[i] == if i < p then l[i] else if i == p then x else l[i - 1]
  {
    SplicedAt(l, Position(l, x.score, 0), x, i);
  }

  lemma InsertOrdered(l: seq<Ranked>, x: Ranked)
    requires Ordered(l) && forall y <- l :: y.index < x.index
    ensures Ordered(Insert(l, x))
  {
    var p := Position(l, x.score, 0);
    var r := Insert(l, x);
    forall i: nat, j: nat | i < j < |r| ensures Before(r[i], r[j]) {
      InsertedAt(l, x, i);
      InsertedAt(l, x, j);
      if i == p < j - 1 { assert Before(l[p], l[j - 1]); }
    }
  }

  lemma InsertMultiset(l: seq<Ranked>, x: Ranked)
    ensures multiset(Insert(l, x)) == multiset(l) + multiset{x}
  {
    var p := Position(l, x.score, 0);
    assert l == l[..p] + l[p..];
  }

  /** The list is a permutation of the candidates in the given order. */
  lemma {:induction false} SortedIsStableSort(c: seq<Ranked>)
    requires forall i: nat, j: nat | i < j < |c| :: c[i].index < c[j].index
    ensures Ordered(Sorted(c)) && multiset(Sorted(c)) == multiset(c)
  {
    if c != [] {
      var front, last := c[..|c| - 1], c[|c| - 1];
      SortedIsStableSort(front);
      assert c == front + [last];
      forall y | y in Sorted(front) ensures y.index < last.index {
        assert y in multiset(Sorted(front));
        assert y in front;
      }
      InsertOrdered(Sorted(front), last);
      InsertMultiset(Sorted(front), last);
    }
  }

  lemma HeadIsFirst(l: seq<Ranked>, x: Ranked)
    requires Ordered(l) && x in l
    ensures x == l[0] || Before(l[0], x)
  {
    var i: nat :| i < |l| && l[i] == x;
    assert i == 0 || Before(l[0], l[i]);
  }

  lemma SameHead(a: seq<Ranked>, b: seq<Ranked>)
    requires Ordered(a) && Ordered(b) && a != [] && b != [] && multiset(a) == multiset(b)
    ensures a[0] == b[0]
  {
    assert a[0] in multiset(b) && b[0] in multiset(a);
    HeadIsFirst(a, b[0]);
    HeadIsFirst(b, a[0]);
  }

  lemma TailMultiset(a: seq<Ranked>)
    requires a != []
    ensures multiset(a[1..]) == multiset(a) - multiset{a[0]}
  {
    assert a == [a[0]] + a[1..];
  }

  /** ... and no other permutation is in that order. */
  lemma {:induction false} OrderIsUnique(a: seq<Ranked>, b: seq<Ranked>)
    requires Ordered(a) && Ordered(b) && multiset(a) == multiset(b)
    ensures a == b
  {
    assert |a| == |multiset(a)| == |multiset(b)| == |b|;
    if a != [] {
      SameHead(a, b);
      TailMultiset(a);
      TailMultiset(b);
      OrderIsUnique(a[1..], b[1..]);
      assert a == [a[0]] + a[1..] && b == [b[0]] + b[1..];
    }
  }

  function Take(l: seq<Ranked>, n: nat): (r: seq<Ranked>)
    ensures |r| == if |l| < n then |l| else n
  {
    if |l| < n then l else l[..n]
  }

  /** A server's place in the beginning of a list is its place in the list, or the end. */
  lemma PlaceInPrefix(l: seq<Ranked>, score: int, n: nat)
    requires n <= |l|
    ensures var p := Position(l, score, 0); Position(l[..n], score, 0) == if p < n then p else n
  {
  }

  /** What was cut off before does not come back. */
  lemma TakeInsert(l: seq<Ranked>, x: Ranked, n: nat)
    ensures Take(Insert(Take(l, n), x), n) == Take(Insert(l, x), n)
  {
    if n <= |l| {
      var t := l[..n];
      PlaceInPrefix(l, x.score, n);
      forall k: nat | k < n ensures Insert(t, x)[k] == Insert(l, x)[k] {
        InsertedAt(t, x, k);
        InsertedAt(l, x, k);
      }
      assert Insert(t, x)[..n] == Insert(l, x)[..n];
    }
  }

  /** The array holds this list. */
  ghost predicate Holds(output: array<Entry>, scores: array<int>, servers: seq<AltServer>, l: seq<Ranked>)
    reads output, scores
  {
    && |l| <= output.Length && |l| <= scores.Length
    && forall k: nat | k < |l| ::
         l[k].index < |servers| && output[k] == Entry(servers[l[k].index].host, 0) && scores[k] == l[k].score
  }

  /** The list after a server was put at position j. */
  ghost predicate Placed(l: seq<Ranked>, r: seq<Ranked>, x: Ranked, j: nat, size: nat) {
    && |l| <= size && j <= |l| && |r| == (if |l| < size then |l| + 1 else size)
    && (forall k: nat | k < j && k < |r| :: r[k] == l[k]) && (j < |r| ==> r[j] == x)
    && (forall k: nat | j < k < |r| :: r[k] == l[k - 1])
  }

  lemma InsertPlaces(l: seq<Ranked>, x: Ranked, size: nat)
    requires |l| <= size
    ensures Placed(l, Take(Insert(l, x), size), x, Position(l, x.score, 0), size)
  {
    var j, r := Position(l, x.score, 0), Take(Insert(l, x), size);
    forall k: nat | k < |r| ensures r[k] == Insert(l, x)[k] {
    }
    forall k: nat | k < j && k < |r| ensures r[k] == l[k] { InsertedAt(l, x, k); }
    forall k: nat | j < k < |r| ensures r[k] == l[k - 1] { InsertedAt(l, x, k); }
  }

  /** Where the next server belongs. */
  method FindPlace(scores: array<int>, servers: seq<AltServer>, ghost output: array<Entry>, ghost l: seq<Ranked>,
                   size: nat, count: nat, score: int)
    returns (j: nat)
    requires Holds(output, scores, servers, l) && |l| == count <= size
    ensures j == Position(l, score, 0)
  {
    j := 0;
    while j < size && j < count && score <= scores[j]
      invariant 0 <= j <= count && Position(l, score, 0) == Position(l, score, j)
    {
      j := j + 1;
    }
  }

  /** memmove of the entries from j on by one place, within the first `size`. */
  method ShiftUp<T>(a: array<T>, j: nat, size: nat)
    requires j < size <= a.Length
    modifies a
    ensures forall k: nat | k < a.Length :: a[k] == if j < k < size then old(a[k - 1]) else old(a[k])
  {
    forall k | j + 1 <= k < size { a[k] := a[k - 1]; }
  }

  /** Puts a server at position j, pushing the last entry out if the array is full. */
  method Place(output: array<Entry>, scores: array<int>, servers: seq<AltServer>, ghost l: seq<Ranked>,
               ghost r: seq<Ranked>, size: nat, count0: nat, j: nat, index: nat, score: int)
    returns (count: nat)
    requires output != scores as object && 0 < size <= output.Length && size <= scores.Length && index < |servers|
    requires Holds(output, scores, servers, l) && |l| == count0 <= size && Placed(l, r, Ranked(index, score), j, size)
    modifies output, scores
    ensures Holds(output, scores, servers, r) && count == |r|
    ensures forall k: nat | size <= k < output.Length :: output[k] == old(output[k])
  {
    count := count0;
    ghost var outs, scs := output[..], scores[..];
    assert forall k: nat | k < |l| ::
      l[k].index < |servers| && outs[k] == Entry(servers[l[k].index].host, 0) && scs[k] == l[k].score;
    if j < size {
      if j < count && j + 1 < size {
        ShiftUp(output, j, size);
        ShiftUp(scores, j, size);
      }
      if count < size { count := count + 1; }
      output[j] := Entry(servers[index].host, 0);
      scores[j] := score;
    }
    forall k: nat | k < |r|
      ensures r[k].index < |servers| && output[k] == Entry(servers[r[k].index].host, 0) && scores[k] == r[k].score
    {
      if k < j { assert r[k] == l[k] && output[k] == outs[k] && scores[k] == scs[k]; }
      if k > j { assert r[k] == l[k - 1] && output[k] == outs[k - 1] && scores[k] == scs[k - 1]; }
    }
  }

  /** The first n servers for a client. */
  function Best(host: Host, servers: seq<AltServer>, n: nat): (r: seq<Ranked>) {
    Take(Sorted(Candidates(host, servers)), n)
  }

  /** One server more. */
  lemma BestStep(host: Host, servers: seq<AltServer>, i: nat, n: nat)
    requires i < |servers|
    ensures var s, best := servers[i], Best(host, servers[..i], n);
            Best(host, servers[..i + 1], n) ==
              if Eligible(s) then Take(Insert(best, Ranked(i, Score(host, s))), n) else best
  {
    var c := Candidates(host, servers[..i]);
    assert servers[..i + 1][..i] == servers[..i];
    if Eligible(servers[i]) {
      var x := Ranked(i, Score(host, servers[i]));
      assert Candidates(host, servers[..i + 1]) == c + [x] && (c + [x])[..|c|] == c;
      TakeInsert(Sorted(c), x, n);
    }
  }

  /** The output shows these servers. */
  ghost predicate Shows(output: array<Entry>, servers: seq<AltServer>, l: seq<Ranked>)
    reads output
  {
    && |l| <= output.Length
    && forall k: nat | k < |l| :: l[k].index < |servers| && output[k] == Entry(servers[l[k].index].host, 0)
  }

  method ScoreOf(host: Host, s: AltServer) returns (score: int)
    ensures score == Score(host, s)
  {
    if host.kind == s.host.kind {
      score := NetCloseness(Some(host), Some(s.host));
      score := score - s.numFails;
    } else {
      score := -(s.numFails + 128); // wrong address family
    }
  }

  /** One turn of the loop. */
  method AddServer(host: Host, altServers: seq<AltServer>, output: array<Entry>, scores: array<int>,
                   ghost best: seq<Ranked>, size: nat, count0: nat, i: nat, score: int)
    returns (count: nat, ghost more: seq<Ranked>)
    requires output != scores as object && 0 < size <= output.Length && size <= scores.Length && i < |altServers|
    requires Holds(output, scores, altServers, best) && |best| == count0 <= size
    modifies output, scores
    ensures more == Take(Insert(best, Ranked(i, score)), size) && Holds(output, scores, altServers, more)
    ensures count == |more| <= size
    ensures forall k: nat | size <= k < output.Length :: output[k] == old(output[k])
  {
    var j := FindPlace(scores, altServers, output, best, size, count0, score);
    InsertPlaces(best, Ranked(i, score), size);
    more := Take(Insert(best, Ranked(i, score)), size);
    count := Place(output, scores, altServers, best, more, size, count0, j, i, score);
  }

  /** Its loop over all servers. */
  method FillList(host: Host, altServers: seq<AltServer>, output: array<Entry>, scores: array<int>, size: nat)
    returns (count: nat)
    requires 0 < size <= output.Length && size <= scores.Length && output != scores as object
    modifies output, scores
    ensures count == |Best(host, altServers, size)| && Shows(output, altServers, Best(host, altServers, size))
    ensures forall k: nat | size <= k < output.Length :: output[k] == old(output[k])
  {
    count := 0;
    ghost var best: seq<Ranked> := [];
    for i := 0 to |altServers|
      invariant best == Best(host, altServers[..i], size)
      invariant count == |best| <= size && Holds(output, scores, altServers, best)
      invariant forall k: nat | size <= k < output.Length :: output[k] == old(output[k])
    {
      BestStep(host, altServers, i, size);
      if altServers[i].host.kind == 0 || altServers[i].isPrivate { continue; }
      var score := ScoreOf(host, altServers[i]);
      count, best := AddServer(host, altServers, output, scores, best, size, count, i, score);
    }
    assert altServers[..|altServers|] == altServers;
  }

  /** altservers_getListForClient; `output` is null if absent. */
  method GetListForClient(host: Option<Host>, altServers: seq<AltServer>, output: array?<Entry>, size0: int)
    returns (count: nat)
    requires output != null ==> size0 <= output.Length
    modifies output
    ensures if host.None? || host.value.kind == 0 || output == null || size0 <= 0 then
              count == 0 && (output != null ==> output[..] == old(output[..]))
            else
              && count == |Best(host.value, altServers, size0)|
              && Shows(output, altServers, Best(host.value, altServers, size0))
              && forall k: nat | size0 <= k < output.Length :: output[k] == old(output[k])
  {
    if host.None? || host.value.kind == 0 || |altServers| == 0 || output == null || size0 <= 0 { return 0; }
    var size := if size0 > |altServers| then |altServers| else size0;
    var scores := new int[size0];
    count := FillList(host.value, altServers, output, scores, size);
  }

  /** The whole statement: the list shown is the beginning of the one ordering of all eligible servers, cut to the
      smaller of the requested size and their number. */
  lemma ListIsStableSortPrefix(host: Host, servers: seq<AltServer>, n: nat, all: seq<Ranked>)
    requires Ordered(all) && multiset(all) == multiset(Candidates(host, servers))
    ensures Best(host, servers, n) <= all && |Best(host, servers, n)| == if |all| < n then |all| else n
  {
    var c := Candidates(host, servers);
    SortedIsStableSort(c);
    OrderIsUnique(all, Sorted(c));
  }

  lemma SameMembers(a: seq<Ranked>, b: seq<Ranked>)
    requires multiset(a) == multiset(b)
    ensures forall x: Ranked :: x in a <==> x in b
  {
    assert forall x: Ranked :: x in a <==> x in multiset(a);
    assert forall x: Ranked :: x in b <==> x in multiset(b);
  }

  lemma BestPrefix(host: Host, servers: seq<AltServer>, n: nat)
    ensures var c, best := Candidates(host, servers), Best(host, servers, n);
            && Ordered(best) && (forall x <- best :: x in c) && (|best| < n ==> forall x <- c :: x in best)
  {
    var c := Candidates(host, servers);
    SortedIsStableSort(c);
    SameMembers(Sorted(c), c);
  }

  /** Whom a client is told about: no private server and no empty entry; all others if there is room. */
  lemma ListedServers(host: Host, servers: seq<AltServer>, n: nat)
    ensures forall x <- Best(host, servers, n) ::
              x.index < |servers| && servers[x.index].host.kind != 0 && !servers[x.index].isPrivate
    ensures |Best(host, servers, n)| < n ==>
              forall i: nat | i < |servers| && servers[i].host.kind != 0 && !servers[i].isPrivate ::
                exists x <- Best(host, servers, n) :: x.index == i
  {
    BestPrefix(host, servers, n);
    var c, best := Candidates(host, servers), Best(host, servers, n);
    if |best| < n {
      forall i: nat | i < |servers| && servers[i].host.kind != 0 && !servers[i].isPrivate
        ensures exists x <- best :: x.index == i
      {
        assert Ranked(i, Score(host, servers[i])) in c;
      }
    }
  }

  /** The order of the list, in terms of addresses and failures: b does not come behind a if it is closer at equal
      failures, or has fewer failures at equal closeness; other address families cost 128 failures. */
  lemma ListOrder(host: Host, servers: seq<AltServer>, n: nat, i: nat, j: nat)
    requires i < j < |Best(host, servers, n)|
    ensures var best := Best(host, servers, n);
            best[i].index < |servers| && best[j].index < |servers| &&
            var a, b := servers[best[i].index], servers[best[j].index];
            var max := if host.kind == 2 then 8 else 32;
            && (a.host.kind == b.host.kind == host.kind && a.numFails == b.numFails ==>
                  forall m: nat | m <= max && Agree(host.addr, b.host.addr, m) :: Agree(host.addr, a.host.addr, m))
            && (a.host.kind == b.host.kind == host.kind
                && (forall m: nat | m <= max :: Agree(host.addr, a.host.addr, m) <==> Agree(host.addr, b.host.addr, m))
                ==> a.numFails <= b.numFails)
            && (a.host.kind != host.kind && b.host.kind != host.kind ==> a.numFails <= b.numFails)
            && (a.host.kind != host.kind && b.host.kind == host.kind ==> b.numFails >= a.numFails + 128)
            && (a == b ==> best[i].index < best[j].index)
  {
    BestPrefix(host, servers, n);
    var best := Best(host, servers, n);
    assert best[i] in best && best[j] in best && Before(best[i], best[j]);
    var a, b := servers[best[i].index], servers[best[j].index];
    ClosenessMeans(host, a.host);
    ClosenessMeans(host, b.host);
    if a.host.kind == b.host.kind == host.kind {
      var x, y: nat := Closeness(host, a.host), Closeness(host, b.host);
      assert Agree(host.addr, a.host.addr, x) && Agree(host.addr, b.host.addr, y);
    }
  }
}
