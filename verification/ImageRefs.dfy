/** Reference counts of images (image.c 252-273, 343-371, 394-444, 465-485, 527-561, 701-722, 1509-1551). */
module ImageRefs {
  import opened Wrappers

  /** The array _images up to _num_images; None stands for a NULL entry. */
  type List = seq<Option<nat>>

  predicate Trimmed(l: List) { l != [] ==> l[|l| - 1].Some? }

  /** The first free entry, or the end of the list. */
  function FreeEntry(l: List, i: nat): (f: nat)
    requires i <= |l|
    ensures i <= f <= |l| && (f < |l| ==> l[f].None?)
    ensures forall j: nat | i <= j < f :: l[j].Some?
    decreases |l| - i
  {
    if i == |l| || l[i].None? then i else FreeEntry(l, i + 1)
  }

  /** image_addToList; None when the list is full. */
  function Added(l: List, id: nat, maxImages: nat): (r: Option<List>)
    ensures r.Some? ==> Some(id) in r.value && (forall x <- l :: x.Some? ==> x in r.value)
    ensures r.Some? ==> forall x <- r.value :: x == Some(id) || x in l
  {
    var f := FreeEntry(l, 0);
    if f < |l| then
      assert l[f := Some(id)][f] == Some(id);
      assert forall j: nat | j < |l| && l[j].Some? :: l[f := Some(id)][j] == l[j];
      Some(l[f := Some(id)])
    else if |l| >= maxImages then None else Some(l + [Some(id)])
  }

  /** It fails exactly if no entry is free and the array is full; the first free entry is taken, else the end. */
  lemma AddedMeans(l: List, id: nat, maxImages: nat)
    ensures Added(l, id, maxImages).Some? <==> None in l || |l| < maxImages
    ensures None in l ==>
              exists f: nat :: f < |l| && l[f].None? && (forall j: nat | j < f :: l[j].Some?)
                && Added(l, id, maxImages) == Some(l[f := Some(id)])
    ensures None !in l && |l| < maxImages ==> Added(l, id, maxImages) == Some(l + [Some(id)])
  {
    var f := FreeEntry(l, 0);
    assert f < |l| ==> l[f] in l;
    if None in l {
      var i: nat :| i < |l| && l[i] == None;
      assert f <= i;
    }
  }

  /** The list without trailing NULL entries. */
  function Shortened(l: List): (r: List)
    ensures r <= l && Trimmed(r) && forall j: nat | |r| <= j < |l| :: l[j].None?
  {
    if l == [] || l[|l| - 1].Some? then l else Shortened(l[..|l| - 1])
  }

  function Cleared(l: List, id: nat): (r: List)
    ensures |r| == |l| && forall j: nat | j < |l| :: r[j] == if l[j] == Some(id) then None else l[j]
  {
    seq(|l|, j requires 0 <= j < |l| => if l[j] == Some(id) then None else l[j])
  }

  /** image_remove */
  function Without(l: List, id: nat): List { Shortened(Cleared(l, id)) }

  /** What image_loadAll does to entry i. */
  function Dropped(l: List, i: nat): (r: List)
    requires i < |l|
  {
    if i + 1 == |l| then l[..i] else l[i := None]
  }

  /** The image's entries are cleared, and trailing free entries, old and new, are cut off. */
  lemma WithoutMeans(l: List, id: nat)
    ensures var r := Without(l, id);
            && |r| <= |l| && (r != [] ==> r[|r| - 1].Some?)
            && (forall j: nat | j < |r| :: r[j] == if l[j] == Some(id) then None else l[j])
            && (forall j: nat | |r| <= j < |l| :: l[j].None? || l[j] == Some(id))
  {
    var c := Cleared(l, id);
    var r := Shortened(c);
    assert forall j: nat | j < |r| :: r[j] == c[j];
  }

  lemma {:induction false} ShortenedIs(l: List, r: List)
    requires r <= l && Trimmed(r) && forall j: nat | |r| <= j < |l| :: l[j].None?
    ensures r == Shortened(l)
  {
    var t := Shortened(l);
    assert t == l[..|t|] && r == l[..|r|];
    assert |t| > 0 ==> l[|t| - 1] == t[|t| - 1];
    assert |r| > 0 ==> l[|r| - 1] == r[|r| - 1];
  }

  class Images {
    const images: array<Option<nat>>
    var numImages: nat

    constructor (maxImages: nat)
      ensures Valid() && fresh(images) && images.Length == maxImages && Entries() == []
    {
      images := new Option<nat>[maxImages](_ => None);
      numImages := 0;
    }

    ghost predicate Valid()
      reads this
    {
      numImages <= images.Length
    }

    function Entries(): List
      requires Valid()
      reads this, images
    {
      images[..numImages]
    }

    method AddToList(id: nat) returns (ok: bool)
      requires Valid()
      modifies this, images
      ensures Valid()
      ensures var r := Added(old(Entries()), id, images.Length);
              ok == r.Some? && Entries() == if ok then r.value else old(Entries())
      ensures var l := old(Entries());
              && (ok <==> None in l || |l| < images.Length)
              && (ok && None in l ==>
                    exists f: nat :: f < |l| && l[f].None? && (forall j: nat | j < f :: l[j].Some?)
                      && Entries() == l[f := Some(id)])
              && (ok && None !in l ==> Entries() == l + [Some(id)])
              && (!ok ==> Entries() == l)
    {
      AddedMeans(Entries(), id, images.Length);
      var i := 0;
      while i < numImages
        invariant i <= numImages && FreeEntry(Entries(), 0) == FreeEntry(Entries(), i)
      {
        if images[i].None? {
          images[i] := Some(id);
          break;
        }
        i := i + 1;
      }
      if i >= numImages {
        if numImages >= images.Length { return false; }
        images[numImages] := Some(id);
        numImages := numImages + 1;
      }
      return true;
    }

    /** The search of image_lock and image_release. */
    method Contains(id: nat) returns (found: bool)
      requires Valid()
      ensures found <==> Some(id) in Entries()
    {
      for i := 0 to numImages
        invariant Some(id) !in images[..i]
      {
        if images[i] == Some(id) {
          assert Entries()[i] == Some(id);
          return true;
        }
      }
      return false;
    }

    method Remove(id: nat, users: nat) returns (mustFree: bool)
      requires Valid()
      modifies this, images
      ensures Valid() && Entries() == Without(old(Entries()), id)
      ensures mustFree <==> Some(id) in old(Entries()) && users == 0
    {
      mustFree := false;
      ghost var was := Entries();
      var i := numImages;
      while i > 0
        invariant Valid() && 0 <= i <= numImages <= |was|
        invariant i < numImages ==> images[numImages - 1].Some?
        invariant forall j: nat | j < numImages :: images[j] == if i <= j && was[j] == Some(id) then None else was[j]
        invariant forall j: nat | numImages <= j < |was| :: was[j].None? || was[j] == Some(id)
        invariant mustFree <==> Some(id) in was[i..] && users == 0
      {
        i := i - 1;
        if images[i] == Some(id) {
          images[i] := None;
          mustFree := users == 0;
        }
        if images[i].None? && i + 1 == numImages { numImages := numImages - 1; }
      }
      ShortenedIs(Cleared(was, id), Entries());
    }
  }

  // ---------------------------------------------------------------- runs

  /** `pending` is a thread that found the image in the list and holds its lock, about to count itself as a user;
      `freeing` counts the threads about to call image_free, `freed` the calls so far. */
  datatype Image = Image(users: nat, pending: bool, freeing: nat, freed: nat)

  /** Every counted use is a token: it is taken by image_get, image_lock and the listing, and given back once. */
  datatype State = State(maxImages: nat, list: List, images: map<nat, Image>, tokens: map<nat, nat>)

  datatype Step =
    | Load(id: nat)             // image_load: a fresh image, not used yet
    | Reload(id: nat, tok: nat) // image_get: a fresh copy, used by the caller
    | Find(id: nat)             // the locked search of image_get, image_lock and the listing
    | Count(id: nat, tok: nat)  // users++ and unlocking the image
    | Release(tok: nat)         // image_release
    | Remove(id: nat)           // image_remove by a user
    | Rescan(i: nat)            // image_loadAll drops a vanished image
    | Free(id: nat)             // image_free

  function Leaving(g: Image): Image { if g.users == 0 then g.(freeing := g.freeing + 1) else g }

  ghost predicate Next(s: State, step: Step, t: State) {
    match step
    case Load(id) =>
      && id !in s.images
      && var r := Added(s.list, id, s.maxImages);
         t == s.(list := if r.Some? then r.value else s.list,
                 images := s.images[id := Image(0, false, if r.Some? then 0 else 1, 0)])
    case Reload(id, tok) =>
      && id !in s.images && tok !in s.tokens
      && var r := Added(s.list, id, s.maxImages);
         t == s.(list := if r.Some? then r.value else s.list,
                 images := s.images[id := if r.Some? then Image(1, false, 0, 0) else Image(0, false, 1, 0)],
                 tokens := if r.Some? then s.tokens[tok := id] else s.tokens)
    case Find(id) =>
      && Some(id) in s.list && id in s.images && !s.images[id].pending
      && t == s.(images := s.images[id := s.images[id].(pending := true)])
    case Count(id, tok) =>
      && id in s.images && s.images[id].pending && tok !in s.tokens
      && t == s.(images := s.images[id := s.images[id].(pending := false, users := s.images[id].users + 1)],
                 tokens := s.tokens[tok := id])
    case Release(tok) =>
      && tok in s.tokens && s.tokens[tok] in s.images
      && var id := s.tokens[tok]; var g := s.images[id];
         !g.pending && g.users > 0
         && var h := g.(users := g.users - 1);
            t == s.(images := s.images[id := if Some(id) in s.list then h else Leaving(h)], tokens := s.tokens - {tok})
    case Remove(id) =>
      && id in s.images && !s.images[id].pending && id in s.tokens.Values
      && t == s.(list := Without(s.list, id),
                 images := s.images[id := if Some(id) in s.list then Leaving(s.images[id]) else s.images[id]])
    case Rescan(i) =>
      && i < |s.list| && s.list[i].Some? && s.list[i].value in s.images && !s.images[s.list[i].value].pending
      && var id := s.list[i].value;
         t == s.(list := Dropped(s.list, i), images := s.images[id := Leaving(s.images[id])])
    case Free(id) =>
      && id in s.images && s.images[id].freeing > 0
      && t == s.(images := s.images[id := s.images[id].(freeing := s.images[id].freeing - 1,
                                                        freed := s.images[id].freed + 1)])
  }

  /** The outstanding users of an image. */
  ghost function Holders(s: State, id: nat): set<nat> { set tok: nat | tok in s.tokens && s.tokens[tok] == id }

  ghost predicate Once(l: List) {
    forall i: nat, j: nat | i < j < |l| && l[i].Some? :: l[i] != l[j]
  }

  ghost predicate ImageOk(s: State, id: nat)
    requires id in s.images
  {
    var g := s.images[id];
    && g.users == |Holders(s, id)|
    && (g.pending ==> Some(id) in s.list)
    && (if g.freeing + g.freed == 0 then Some(id) in s.list || g.users > 0
        else g.freeing + g.freed == 1 && g.users == 0 && Some(id) !in s.list)
  }

  ghost predicate Inv(s: State) {
    && Once(s.list)
    && (forall x <- s.list :: x.Some? ==> x.value in s.images)
    && (forall tok <- s.tokens :: s.tokens[tok] in s.images)
    && forall id <- s.images :: ImageOk(s, id)
  }

  ghost predicate Init(s: State) { s.list == [] && s.images == map[] && s.tokens == map[] }

  lemma AddedOnce(l: List, id: nat, maxImages: nat)
    requires Once(l) && Some(id) !in l
    ensures Added(l, id, maxImages).Some? ==> Once(Added(l, id, maxImages).value)
  {
  }

  lemma WithoutOnce(l: List, id: nat)
    requires Once(l)
    ensures Once(Without(l, id)) && Some(id) !in Without(l, id)
    ensures forall x <- l :: x.Some? && x != Some(id) ==> x in Without(l, id)
    ensures forall x <- Without(l, id) :: x.None? || x in l
  {
    var c := Cleared(l, id);
    var r := Shortened(c);
    forall j: nat | j < |r| ensures r[j] == c[j] { assert r == c[..|r|]; }
    forall x | x in l && x.Some? && x != Some(id) ensures x in r {
      var j: nat :| j < |l| && l[j] == x;
      assert c[j] == x && j < |r|;
      assert r[j] == x;
    }
  }

  lemma DroppedOnce(l: List, i: nat)
    requires Once(l) && i < |l| && l[i].Some?
    ensures Once(Dropped(l, i)) && l[i] !in Dropped(l, i)
    ensures forall x <- l :: x.Some? && x != l[i] ==> x in Dropped(l, i)
    ensures forall x <- Dropped(l, i) :: x.None? || x in l
  {
    var r := Dropped(l, i);
    forall x | x in l && x.Some? && x != l[i] ensures x in r {
      var j: nat :| j < |l| && l[j] == x;
      assert j != i && r[j] == x;
    }
  }

  lemma LoadInv(s: State, id: nat, t: State)
    requires Inv(s) && Next(s, Load(id), t)
    ensures Inv(t)
  {
    AddedOnce(s.list, id, s.maxImages);
    assert Holders(t, id) == {};
    forall x <- t.images ensures ImageOk(t, x) {
      if x != id { assert ImageOk(s, x) && Holders(t, x) == Holders(s, x); }
    }
  }

  lemma ReloadInv(s: State, id: nat, tok: nat, t: State)
    requires Inv(s) && Next(s, Reload(id, tok), t)
    ensures Inv(t)
  {
    AddedOnce(s.list, id, s.maxImages);
    assert Holders(s, id) == {};
    assert Holders(t, id) == if t.tokens == s.tokens then {} else {tok};
    forall x <- t.images ensures ImageOk(t, x) {
      if x != id { assert ImageOk(s, x) && Holders(t, x) == Holders(s, x); }
    }
  }

  lemma CountInv(s: State, id: nat, tok: nat, t: State)
    requires Inv(s) && Next(s, Count(id, tok), t)
    ensures Inv(t)
  {
    assert ImageOk(s, id) && Holders(t, id) == Holders(s, id) + {tok};
    forall x <- t.images ensures ImageOk(t, x) {
      if x != id { assert ImageOk(s, x) && Holders(t, x) == Holders(s, x); }
    }
  }

  lemma ReleaseInv(s: State, tok: nat, t: State)
    requires Inv(s) && Next(s, Release(tok), t)
    ensures Inv(t)
  {
    var id := s.tokens[tok];
    assert ImageOk(s, id) && Holders(t, id) == Holders(s, id) - {tok} && tok in Holders(s, id);
    forall x <- t.images ensures ImageOk(t, x) {
      if x != id { assert ImageOk(s, x) && Holders(t, x) == Holders(s, x); }
    }
  }

  lemma RemoveInv(s: State, id: nat, t: State)
    requires Inv(s) && Next(s, Remove(id), t)
    ensures Inv(t)
  {
    WithoutOnce(s.list, id);
    forall x <- t.images ensures ImageOk(t, x) {
      assert ImageOk(s, x) && Holders(t, x) == Holders(s, x);
    }
  }

  lemma RescanInv(s: State, i: nat, t: State)
    requires Inv(s) && Next(s, Rescan(i), t)
    ensures Inv(t)
  {
    DroppedOnce(s.list, i);
    forall x <- t.images ensures ImageOk(t, x) {
      assert ImageOk(s, x) && Holders(t, x) == Holders(s, x);
    }
  }

  lemma StepInv(s: State, step: Step, t: State)
    requires Inv(s) && Next(s, step, t)
    ensures Inv(t)
  {
    match step
    case Load(id) => LoadInv(s, id, t);
    case Reload(id, tok) => ReloadInv(s, id, tok, t);
    case Count(id, tok) => CountInv(s, id, tok, t);
    case Release(tok) => ReleaseInv(s, tok, t);
    case Remove(id) => RemoveInv(s, id, t);
    case Rescan(i) => RescanInv(s, i, t);
    case _ =>
      forall x <- t.images ensures ImageOk(t, x) {
        assert ImageOk(s, x) && Holders(t, x) == Holders(s, x);
      }
  }

  ghost predicate Steps(s: State, t: State) { exists step :: Next(s, step, t) }

  ghost predicate Run(run: seq<State>) {
    |run| > 0 && Init(run[0]) && forall n: nat | n + 1 < |run| :: Steps(run[n], run[n + 1])
  }

  lemma {:induction false} RunInv(run: seq<State>, n: nat)
    requires Run(run) && n < |run|
    ensures Inv(run[n])
  {
    if n > 0 {
      RunInv(run, n - 1);
      assert Steps(run[n - 1], run[n - 1 + 1]);
      var step :| Next(run[n - 1], step, run[n]);
      StepInv(run[n - 1], step, run[n]);
    }
  }

  /** In every interleaving the counter equals the outstanding users, whoever gives a use back finds it positive,
      image_free is due or done at most once, only for an image out of the list that nobody uses or is about to use,
      and no such image is forgotten. */
  lemma FreedExactlyOnce(run: seq<State>, n: nat, id: nat)
    requires Run(run) && n < |run| && id in run[n].images
    ensures var s := run[n]; var g := s.images[id];
            && g.users == |Holders(s, id)|
            && (Holders(s, id) != {} ==> g.users > 0 && g.freeing + g.freed == 0)
            && (g.freeing + g.freed == if Some(id) !in s.list && Holders(s, id) == {} then 1 else 0)
            && (g.pending ==> g.freeing + g.freed == 0)
  {
    RunInv(run, n);
    assert ImageOk(run[n], id);
  }

  /** A user can always give its use back unless another thread is counting itself in. */
  lemma ReleaseIsPossible(run: seq<State>, n: nat, tok: nat)
    requires Run(run) && n < |run| && tok in run[n].tokens && run[n].tokens[tok] in run[n].images
    requires !run[n].images[run[n].tokens[tok]].pending
    ensures exists t :: Next(run[n], Release(tok), t)
  {
    RunInv(run, n);
    var s := run[n];
    var id := s.tokens[tok];
    assert ImageOk(s, id) && tok in Holders(s, id);
    var h := s.images[id].(users := s.images[id].users - 1);
    var t := s.(images := s.images[id := if Some(id) in s.list then h else Leaving(h)], tokens := s.tokens - {tok});
    assert Next(s, Release(tok), t);
  }

  /** Image 7 is fetched by user 1, locked by user 2, removed, given back by both, and freed. */
  function LifeState(n: nat): State {
    match n
    case 0 => State(10, [], map[], map[])
    case 1 => State(10, [Some(7)], map[7 := Image(1, false, 0, 0)], map[1 := 7])
    case 2 => State(10, [Some(7)], map[7 := Image(1, true, 0, 0)], map[1 := 7])
    case 3 => State(10, [Some(7)], map[7 := Image(2, false, 0, 0)], map[1 := 7, 2 := 7])
    case 4 => State(10, [], map[7 := Image(2, false, 0, 0)], map[1 := 7, 2 := 7])
    case 5 => State(10, [], map[7 := Image(1, false, 0, 0)], map[2 := 7])
    case 6 => State(10, [], map[7 := Image(0, false, 1, 0)], map[])
    case _ => State(10, [], map[7 := Image(0, false, 0, 1)], map[])
  }

  lemma UsedStep(n: nat)
    requires n < 3
    ensures Steps(LifeState(n), LifeState(n + 1))
  {
    AddedMeans([], 7, 10);
    assert n == 0 ==> Next(LifeState(0), Reload(7, 1), LifeState(n + 1));
    assert n == 1 ==> Next(LifeState(1), Find(7), LifeState(n + 1));
    assert n == 2 ==> Next(LifeState(2), Count(7, 2), LifeState(n + 1));
  }

  lemma GoneStep(n: nat)
    requires 3 <= n < 7
    ensures Steps(LifeState(n), LifeState(n + 1))
  {
    ShortenedIs(Cleared([Some(7)], 7), []);
    assert n == 3 ==> 7 in LifeState(3).tokens.Values by { assert LifeState(3).tokens[1] == 7; }
    assert n == 3 ==> Next(LifeState(3), Remove(7), LifeState(n + 1));
    assert n == 4 ==> Next(LifeState(4), Release(1), LifeState(n + 1));
    assert n == 5 ==> Next(LifeState(5), Release(2), LifeState(n + 1));
    assert n == 6 ==> Next(LifeState(6), Free(7), LifeState(n + 1));
  }

  lemma LifeRun()
    ensures var run := seq(8, n requires 0 <= n < 8 => LifeState(n));
            Run(run) && run[3].images[7].users == 2 && run[7].images[7].freed == 1
  {
    var run := seq(8, n requires 0 <= n < 8 => LifeState(n));
    forall n: nat | n + 1 < |run| ensures Steps(run[n], run[n + 1]) {
      if n < 3 { UsedStep(n); } else { GoneStep(n); }
    }
  }
}
