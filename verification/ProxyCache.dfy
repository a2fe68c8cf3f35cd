/** Every run of a caching proxy on one image: replies are written to the cache file in pieces, bits are
    set and cleared, completion drops the map, the integrity checker recreates it, the map is saved,
    the machine crashes and the image is loaded again, and clients are answered from the local file.
    The origin image never changes. */
module ProxyCache {
  import opened Blocks
  import opened CacheMap
  import opened MapSave
  import opened Wrappers

  type Content = s: seq<bv8> | |s| % BLOCK_SIZE == 0 && |s| > 0 witness seq(BLOCK_SIZE, _ => 0)

  /** The uplink thread between two of its atomic steps. */
  datatype Uplink =
    | Idle
    | Writing(start: nat, len: nat, done: nat) // reply [start, start + len), `done` bytes already in the cache file
    | Saving                                   // uplink_saveCacheMap behind the fsync of the cache file
    | MapCopied(copy: seq<bv8>)                // ... after copying the map
    | Unlinking                                // image_isComplete after dropping the map

  /** A local answer in progress: the range check has passed, `got` was read from the file so far. */
  datatype Read = Read(offset: nat, size: nat, got: seq<bv8>)

  /** `file` is the cache file as read calls see it, `disk` its content at the last fsync: a crash leaves each byte
      with one of the two. `mapFile[y]` holds the values byte y of the saved map may have after a crash, and
      `mapMayMiss` says that the saved map may be gone. */
  datatype State = State(
    file: seq<bv8>,
    disk: seq<bv8>,
    cache: Cache,
    mapFile: seq<set<bv8>>,
    mapMayMiss: bool,
    uplink: Uplink,
    active: map<nat, Read>,
    replies: seq<Read>)

  datatype Step =
    | Receive(start: nat, len: nat)
    | Pwrite(n: nat)
    | MarkCached
    | Clear(start: nat, end: nat)
    | DropMap
    | Unlink
    | FsyncData
    | SkipFsync
    | CopyMap
    | WriteMap(writes: seq<Write>, fsynced: bool)
    | Crash(content: seq<bv8>, saved: seq<bv8>)
    | CrashWithoutMap(content: seq<bv8>)
    | StartRead(id: nat, offset: nat, size: nat)
    | ReadSome(id: nat, n: nat)
    | FinishRead(id: nat)

  function Overwrite<T>(s: seq<T>, at: nat, data: seq<T>): (r: seq<T>)
    requires at + |data| <= |s|
    ensures |r| == |s|
    ensures forall i: nat | i < |s| :: r[i] == if at <= i < at + |data| then data[i - at] else s[i]
  {
    s[..at] + data + s[at + |data|..]
  }

  /** A crash leaves each byte with its content at the last fsync or with what was written since. */
  ghost predicate MayRemain(content: seq<bv8>, s: State) {
    && |content| == |s.file| == |s.disk|
    && forall i: nat | i < |content| :: content[i] == s.disk[i] || content[i] == s.file[i]
  }

  /** image_loadCacheMap: a short file leaves the rest of the map empty. */
  function LoadedMap(saved: seq<bv8>, mapBytes: nat): (m: seq<bv8>)
    requires |saved| <= mapBytes
    ensures |m| == mapBytes
    ensures forall y: nat | y < mapBytes :: m[y] == if y < |saved| then saved[y] else 0
  {
    saved + seq(mapBytes - |saved|, _ => 0)
  }

  function Loaded(content: seq<bv8>, cache: Cache, mapFile: seq<set<bv8>>, mapMayMiss: bool,
                  replies: seq<Read>): State {
    State(content, content, cache, mapFile, mapMayMiss, Idle, map[], replies)
  }

  /** What byte y of the saved map may be after the write loop. Without fsync the old value may remain, and a byte new
      to the file may read as 0. */
  function WrittenByteOf(mapFile: seq<set<bv8>>, copy: seq<bv8>, writes: seq<Write>, fsynced: bool, y: nat): set<bv8>
    requires y < |copy| == |mapFile|
  {
    var q := Landed(|copy|, 0, writes, y);
    if q.None? then mapFile[y] else if fsynced then {copy[q.value]} else mapFile[y] + {copy[q.value], 0}
  }

  function WrittenMap(mapFile: seq<set<bv8>>, copy: seq<bv8>, writes: seq<Write>, fsynced: bool): (r: seq<set<bv8>>)
    requires |copy| == |mapFile|
    ensures |r| == |copy| && forall y: nat | y < |r| :: r[y] == WrittenByteOf(mapFile, copy, writes, fsynced, y)
  {
    seq(|copy|, y requires 0 <= y < |copy| => WrittenByteOf(mapFile, copy, writes, fsynced, y))
  }

  /** Lengths and ranges, without which the steps make no sense. */
  ghost predicate Sizes(origin: Content, s: State) {
    && |s.file| == |s.disk| == |origin|
    && Fits(s.cache, |origin|)
    && |s.mapFile| == MapBytes(|origin|)
    && (s.uplink.Writing? ==> s.uplink.done <= s.uplink.len && s.uplink.start + s.uplink.len <= |origin|)
    && (s.uplink.MapCopied? ==> |s.uplink.copy| == MapBytes(|origin|))
    && (forall id <- s.active ::
          |s.active[id].got| <= s.active[id].size && s.active[id].offset + s.active[id].size <= |origin|)
  }

  ghost predicate Next(origin: Content, s: State, step: Step, t: State)
    requires Sizes(origin, s)
  {
    match step
    case Receive(start, len) => s.uplink.Idle? && start + len <= |origin| && t == s.(uplink := Writing(start, len, 0))
    case Pwrite(n) =>
      s.uplink.Writing? && 0 < n <= s.uplink.len - s.uplink.done &&
      var at := s.uplink.start + s.uplink.done;
      var data := origin[at..at + n];
      t == s.(file := Overwrite(s.file, at, data),
              uplink := s.uplink.(done := s.uplink.done + n))
    case MarkCached =>
      s.uplink.Writing? && t == s.(uplink := Idle, cache := t.cache) &&
      if s.uplink.done == 0 then t.cache == s.cache
      else Updated(s.cache, t.cache, |origin|, s.uplink.start, s.uplink.start + s.uplink.done, true)
    case Clear(start, end) =>
      start <= end <= |origin| && t == s.(cache := t.cache) && Updated(s.cache, t.cache, |origin|, start, end, false)
    case DropMap =>
      s.uplink.Idle? && s.cache.Partial? && AllCached(s.cache, |origin|)
        && t == s.(cache := Complete, uplink := Unlinking)
    case Unlink => s.uplink.Unlinking? && t == s.(mapMayMiss := true, uplink := Idle)
    case FsyncData =>
      s.uplink.Idle? && t == s.(disk := s.file, uplink := Saving)
    case SkipFsync => // cacheFd == -1
      s.uplink.Idle? && t == s.(uplink := Saving)
    case CopyMap =>
      s.uplink.Saving? && t == s.(uplink := if s.cache.Complete? then Idle else MapCopied(s.cache.bytes))
    case WriteMap(writes, fsynced) =>
      s.uplink.MapCopied? && t == s.(uplink := Idle, mapFile := WrittenMap(s.mapFile, s.uplink.copy, writes, fsynced))
    case Crash(content, saved) =>
      MayRemain(content, s) && |saved| <= |s.mapFile| && (forall y: nat | y < |saved| :: saved[y] in s.mapFile[y]) &&
      var m := LoadedMap(saved, |s.mapFile|);
      t == Loaded(content, Partial(m), seq(|m|, y requires 0 <= y < |m| => {m[y]}), false, s.replies)
    case CrashWithoutMap(content) =>
      s.mapMayMiss && MayRemain(content, s) && t == Loaded(content, Complete, s.mapFile, true, s.replies)
    case StartRead(id, offset, size) =>
      id !in s.active && size > 0 && offset + size <= |origin| && TouchedCached(s.cache, offset, offset + size) &&
      t == s.(active := s.active[id := Read(offset, size, [])])
    case ReadSome(id, n) =>
      id in s.active &&
      var r := s.active[id];
      0 < n <= r.size - |r.got| &&
      t == s.(active := s.active[id := r.(got := r.got + s.file[r.offset + |r.got|..r.offset + |r.got| + n])])
    case FinishRead(id) =>
      id in s.active && |s.active[id].got| == s.active[id].size &&
      t == s.(active := s.active - {id}, replies := s.replies + [s.active[id]])
  }

  /** Byte i of the local file is the origin's. */
  ghost predicate Right(origin: Content, s: State, i: nat) { i < |origin| && i < |s.file| && s.file[i] == origin[i] }

  /** Byte i was written through to disk: no crash can take the origin's value from it. */
  ghost predicate Settled(origin: Content, s: State, i: nat) {
    i < |origin| && i < |s.file| && i < |s.disk| && s.disk[i] == origin[i] && s.file[i] == origin[i]
  }

  ghost predicate BlockRight(origin: Content, s: State, k: nat) {
    forall i: nat | k * BLOCK_SIZE <= i < (k + 1) * BLOCK_SIZE :: Right(origin, s, i)
  }

  ghost predicate BlockSettled(origin: Content, s: State, k: nat) {
    forall i: nat | k * BLOCK_SIZE <= i < (k + 1) * BLOCK_SIZE :: Settled(origin, s, i)
  }

  /** Every block that map m calls cached has been written through to disk. */
  ghost predicate MapSettled(origin: Content, s: State, m: seq<bv8>) {
    forall k: nat | k < BlockUp(|origin|) && k < 8 * |m| && BlockSet(m, k) :: BlockSettled(origin, s, k)
  }

  ghost predicate CacheRight(origin: Content, s: State)
    requires Sizes(origin, s)
  {
    forall k: nat | k < BlockUp(|origin|) && Cached(s.cache, k) :: BlockRight(origin, s, k)
  }

  ghost predicate CacheSettled(origin: Content, s: State)
    requires Sizes(origin, s)
  {
    forall k: nat | k < BlockUp(|origin|) && Cached(s.cache, k) :: BlockSettled(origin, s, k)
  }

  /** Whatever a crash leaves of the saved map only names blocks that are on disk. */
  ghost predicate MapFileSettled(origin: Content, s: State) {
    forall y: nat, v: bv8, x: nat | y < |s.mapFile| && v in s.mapFile[y] && x < 8 && Bit(v, x)
      && 8 * y + x < BlockUp(|origin|) ::
      BlockSettled(origin, s, 8 * y + x)
  }

  ghost predicate ReadRight(origin: Content, s: State, r: Read) {
    && r.offset + r.size <= |origin| && |r.got| <= r.size
    && r.got == origin[r.offset..r.offset + |r.got|]
    && forall i: nat | r.offset <= i < r.offset + r.size :: Right(origin, s, i)
  }

  ghost predicate ReadsRight(origin: Content, s: State, active: map<nat, Read>) {
    forall id <- active :: ReadRight(origin, s, active[id])
  }

  /** The bytes sent to a client are the origin's. */
  predicate AnswerRight(origin: Content, r: Read) {
    r.offset + r.size <= |origin| && r.got == origin[r.offset..r.offset + r.size]
  }

  ghost predicate Inv(origin: Content, s: State) {
    && Sizes(origin, s)
    && CacheRight(origin, s)
    && MapFileSettled(origin, s)
    && (s.uplink.Writing? ==> forall i: nat | s.uplink.start <= i < s.uplink.start + s.uplink.done ::
          Right(origin, s, i))
    && (s.uplink.Saving? ==> CacheSettled(origin, s))
    && (s.uplink.MapCopied? ==> MapSettled(origin, s, s.uplink.copy))
    && ReadsRight(origin, s, s.active)
    && (forall r <- s.replies :: AnswerRight(origin, r))
  }

  /** A fresh image: an empty map on disk and in memory, a file of any content. */
  ghost predicate Init(origin: Content, s: State) {
    && |s.file| == |s.disk| == |origin|
    && s.cache == Partial(seq(MapBytes(|origin|), _ => 0)) && s.mapFile == seq(MapBytes(|origin|), _ => {0})
    && !s.mapMayMiss && s.uplink.Idle? && s.active == map[] && s.replies == []
  }

  lemma InitEstablishes(origin: Content, s: State)
    requires Init(origin, s)
    ensures Inv(origin, s)
  {
    forall k: nat | k < BlockUp(|origin|) ensures !Cached(s.cache, k) { BlocksFit(|origin|); ZeroByte(k % 8); }
    forall x: nat | x < 8 ensures !Bit(0, x) { ZeroByte(x); }
    assert forall y: nat | y < |s.mapFile| :: s.mapFile[y] == {0};
  }

  /** Steps that keep the content: what is right stays right, what is on disk stays on disk. */
  ghost predicate Grows(origin: Content, s: State, t: State) {
    && (forall i: nat | Right(origin, s, i) :: Right(origin, t, i))
    && (forall i: nat | Settled(origin, s, i) :: Settled(origin, t, i))
  }

  lemma PwriteGrows(origin: Content, s: State, n: nat, t: State)
    requires Sizes(origin, s) && Next(origin, s, Pwrite(n), t)
    ensures Grows(origin, s, t) && Sizes(origin, t)
    ensures s.uplink.Writing? && t.uplink.Writing?
    ensures forall i: nat | s.uplink.start + s.uplink.done <= i < t.uplink.start + t.uplink.done :: Right(origin, t, i)
  {
    var at := s.uplink.start + s.uplink.done;
    forall i: nat | i < |origin| ensures t.file[i] == if at <= i < at + n then origin[i] else s.file[i] { }
  }

  lemma StepSizes(origin: Content, s: State, step: Step, t: State)
    requires Inv(origin, s) && Next(origin, s, step, t) && !step.Crash? && !step.CrashWithoutMap?
    ensures Sizes(origin, t)
  {
    if step.Pwrite? { PwriteGrows(origin, s, step.n, t); }
  }

  lemma StepGrows(origin: Content, s: State, step: Step, t: State)
    requires Inv(origin, s) && Next(origin, s, step, t) && !step.Crash? && !step.CrashWithoutMap?
    ensures Grows(origin, s, t)
  {
    if step.Pwrite? { PwriteGrows(origin, s, step.n, t); } else {
      assert t.file == s.file && (t.disk == s.disk || t.disk == s.file);
    }
  }

  lemma GrowsBlocks(origin: Content, s: State, t: State)
    requires Grows(origin, s, t)
    ensures forall k: nat | BlockRight(origin, s, k) :: BlockRight(origin, t, k)
    ensures forall k: nat | BlockSettled(origin, s, k) :: BlockSettled(origin, t, k)
  {
  }

  /** All bytes of the cache file are on disk. */
  ghost predicate AllSettled(origin: Content, s: State) { forall i: nat | i < |origin| :: Settled(origin, s, i) }

  /** The steps after which a crash may do harm are left aside: finding the map gone although some data never reached
      the disk; saving the map without fsync although something was written; restarting the write of a map whose bytes
      do not only gain bits. */
  ghost predicate Benign(origin: Content, s: State, step: Step) {
    && (step.CrashWithoutMap? ==> AllSettled(origin, s))
    && (step.SkipFsync? ==> s.disk == s.file)
    && (step.WriteMap? && s.uplink.MapCopied? ==>
          InPlace(|s.uplink.copy|, step.writes) || Growing(s.uplink.copy, BlockUp(|origin|)))
  }

  lemma CacheStaysRight(origin: Content, s: State, step: Step, t: State)
    requires Inv(origin, s) && Next(origin, s, step, t) && Sizes(origin, t) && Grows(origin, s, t)
    requires !step.Crash? && !step.CrashWithoutMap? && Benign(origin, s, step)
    ensures CacheRight(origin, t)
    ensures t.uplink.Saving? ==> CacheSettled(origin, t)
  {
    GrowsBlocks(origin, s, t);
    forall k: nat | k < BlockUp(|origin|) && Cached(t.cache, k)
      ensures BlockRight(origin, t, k) && (t.uplink.Saving? ==> BlockSettled(origin, t, k))
    {
      if step.MarkCached? && s.uplink.done > 0 {
        UpdatedCached(s.cache, t.cache, |origin|, s.uplink.start, s.uplink.start + s.uplink.done, true, k);
      } else if step.Clear? {
        UpdatedCached(s.cache, t.cache, |origin|, step.start, step.end, false, k);
      } else if step.FsyncData? || step.SkipFsync? {
        assert forall i: nat | Right(origin, s, i) :: Settled(origin, t, i);
      }
    }
  }

  /** A bit found after a harmless save was there before, or the copied map has it. */
  lemma WrittenSettled(origin: Content, s: State, step: Step, y: nat, v: bv8, x: nat)
    requires Sizes(origin, s) && MapFileSettled(origin, s) && s.uplink.MapCopied?
    requires MapSettled(origin, s, s.uplink.copy)
    requires step.WriteMap? && Benign(origin, s, step)
    requires y < |s.mapFile| && v in WrittenByteOf(s.mapFile, s.uplink.copy, step.writes, step.fsynced, y)
    requires x < 8 && Bit(v, x) && 8 * y + x < BlockUp(|origin|)
    ensures BlockSettled(origin, s, 8 * y + x)
  {
    var copy := s.uplink.copy;
    ZeroByte(x);
    if v !in s.mapFile[y] {
      assert Bit(copy[y], x);
      assert (8 * y + x) / 8 == y && (8 * y + x) % 8 == x;
      assert BlockSet(copy, 8 * y + x);
    }
  }

  lemma MapFileStaysSettled(origin: Content, s: State, step: Step, t: State)
    requires Inv(origin, s) && Next(origin, s, step, t) && Sizes(origin, t) && Grows(origin, s, t)
    requires !step.Crash? && !step.CrashWithoutMap? && Benign(origin, s, step)
    ensures MapFileSettled(origin, t)
    ensures t.uplink.MapCopied? ==> MapSettled(origin, t, t.uplink.copy)
  {
    GrowsBlocks(origin, s, t);
    if step.WriteMap? {
      forall y: nat, v: bv8, x: nat | y < |t.mapFile| && v in t.mapFile[y] && x < 8 && Bit(v, x)
        && 8 * y + x < BlockUp(|origin|)
        ensures BlockSettled(origin, t, 8 * y + x)
      {
        WrittenSettled(origin, s, step, y, v, x);
      }
    }
    if step.CopyMap? && t.uplink.MapCopied? {
      forall k: nat | k < BlockUp(|origin|) && BlockSet(t.uplink.copy, k) ensures BlockSettled(origin, t, k) {
        assert Cached(s.cache, k);
      }
    }
  }

  /** A read that passed the check only meets right bytes. */
  lemma CheckedRangeRight(origin: Content, s: State, offset: nat, size: nat)
    requires Sizes(origin, s) && CacheRight(origin, s)
    requires offset + size <= |origin| && TouchedCached(s.cache, offset, offset + size)
    ensures forall i: nat | offset <= i < offset + size :: Right(origin, s, i)
  {
    forall i: nat | offset <= i < offset + size ensures Right(origin, s, i) {
      assert Touches(i / BLOCK_SIZE, offset, offset + size);
      assert BlockRight(origin, s, i / BLOCK_SIZE);
    }
  }

  lemma ReadMore(origin: Content, s: State, r: Read, n: nat)
    requires Sizes(origin, s) && ReadRight(origin, s, r) && n <= r.size - |r.got|
    ensures ReadRight(origin, s, r.(got := r.got + s.file[r.offset + |r.got|..r.offset + |r.got| + n]))
  {
    var at := r.offset + |r.got|;
    forall i: nat | at <= i < at + n ensures s.file[i] == origin[i] { assert Right(origin, s, i); }
    assert s.file[at..at + n] == origin[at..at + n];
    assert origin[r.offset..at] + origin[at..at + n] == origin[r.offset..at + n];
  }

  lemma ReadKept(origin: Content, s: State, t: State, r: Read)
    requires ReadRight(origin, s, r) && Grows(origin, s, t)
    ensures ReadRight(origin, t, r)
  {
  }

  lemma ReadSomeRight(origin: Content, s: State, id: nat, n: nat, t: State)
    requires Sizes(origin, s) && ReadsRight(origin, s, s.active) && Next(origin, s, ReadSome(id, n), t)
    ensures ReadsRight(origin, s, t.active) && t.replies == s.replies
  {
    ReadMore(origin, s, s.active[id], n);
  }

  lemma ReadStepRight(origin: Content, s: State, step: Step, t: State)
    requires Sizes(origin, s) && CacheRight(origin, s) && ReadsRight(origin, s, s.active)
    requires Next(origin, s, step, t) && (step.StartRead? || step.FinishRead?)
    requires forall r <- s.replies :: AnswerRight(origin, r)
    ensures ReadsRight(origin, s, t.active) && forall r <- t.replies :: AnswerRight(origin, r)
  {
    if step.StartRead? {
      CheckedRangeRight(origin, s, step.offset, step.size);
    } else {
      assert ReadRight(origin, s, s.active[step.id]);
    }
  }

  lemma ReadsStayRight(origin: Content, s: State, step: Step, t: State)
    requires Inv(origin, s) && Next(origin, s, step, t) && Grows(origin, s, t)
    requires !step.Crash? && !step.CrashWithoutMap?
    ensures ReadsRight(origin, t, t.active) && forall r <- t.replies :: AnswerRight(origin, r)
  {
    if step.StartRead? || step.FinishRead? {
      ReadStepRight(origin, s, step, t);
    } else if step.ReadSome? {
      ReadSomeRight(origin, s, step.id, step.n, t);
    }
    assert ReadsRight(origin, s, t.active);
    forall id <- t.active ensures ReadRight(origin, t, t.active[id]) { ReadKept(origin, s, t, t.active[id]); }
  }

  lemma WrittenStaysRight(origin: Content, s: State, step: Step, t: State)
    requires Inv(origin, s) && Next(origin, s, step, t) && Grows(origin, s, t)
    requires !step.Crash? && !step.CrashWithoutMap?
    ensures t.uplink.Writing? ==> forall i: nat | t.uplink.start <= i < t.uplink.start + t.uplink.done ::
              Right(origin, t, i)
  {
    if step.Pwrite? { PwriteGrows(origin, s, step.n, t); }
  }

  lemma LoadedBitSettled(origin: Content, s: State, saved: seq<bv8>, k: nat)
    requires Sizes(origin, s) && MapFileSettled(origin, s)
    requires |saved| <= |s.mapFile| && forall y: nat | y < |saved| :: saved[y] in s.mapFile[y]
    requires k < BlockUp(|origin|) && k < 8 * |s.mapFile| && BlockSet(LoadedMap(saved, |s.mapFile|), k)
    ensures BlockSettled(origin, s, k)
  {
    assert 8 * (k / 8) + k % 8 == k;
    ZeroByte(k % 8);
    assert saved[k / 8] in s.mapFile[k / 8];
  }

  lemma SettledSurvives(origin: Content, s: State, content: seq<bv8>, t: State, k: nat)
    requires Sizes(origin, s) && MayRemain(content, s) && t.file == t.disk == content && BlockSettled(origin, s, k)
    ensures BlockRight(origin, t, k) && BlockSettled(origin, t, k)
  {
    forall i: nat | k * BLOCK_SIZE <= i < (k + 1) * BLOCK_SIZE ensures Right(origin, t, i) && Settled(origin, t, i) {
      assert Settled(origin, s, i);
    }
  }

  /** The blocks of the map loaded after a crash were on disk and still are. */
  lemma LoadedBlocks(origin: Content, s: State, content: seq<bv8>, saved: seq<bv8>, t: State)
    requires Inv(origin, s) && Next(origin, s, Crash(content, saved), t)
    ensures |t.cache.bytes| == |s.mapFile| && MapSettled(origin, s, t.cache.bytes)
    ensures MapSettled(origin, t, t.cache.bytes)
    ensures CacheRight(origin, t)
  {
    var m := t.cache.bytes;
    forall k: nat | k < BlockUp(|origin|) && k < 8 * |m| && BlockSet(m, k)
      ensures BlockSettled(origin, s, k) && BlockRight(origin, t, k) && BlockSettled(origin, t, k)
    {
      LoadedBitSettled(origin, s, saved, k);
      SettledSurvives(origin, s, content, t, k);
    }
  }

  /** A crash with the saved map, mixed from old and new bytes or cut short, leads back into the invariant. */
  lemma CrashRecovers(origin: Content, s: State, content: seq<bv8>, saved: seq<bv8>, t: State)
    requires Inv(origin, s) && Next(origin, s, Crash(content, saved), t)
    ensures Inv(origin, t) && MapSettled(origin, s, t.cache.bytes)
  {
    var m := t.cache.bytes;
    LoadedBlocks(origin, s, content, saved, t);
    forall y: nat, v: bv8, x: nat | y < |t.mapFile| && v in t.mapFile[y] && x < 8 && Bit(v, x)
      && 8 * y + x < BlockUp(|origin|)
      ensures BlockSettled(origin, t, 8 * y + x)
    {
      assert (8 * y + x) / 8 == y && (8 * y + x) % 8 == x && v == m[y];
      assert BlockSet(m, 8 * y + x);
    }
  }

  lemma SyncedCrash(origin: Content, s: State, content: seq<bv8>, t: State)
    requires Inv(origin, s) && Next(origin, s, CrashWithoutMap(content), t) && AllSettled(origin, s)
    ensures Inv(origin, t)
  {
    forall i: nat | i < |origin| ensures Right(origin, t, i) && Settled(origin, t, i) {
      assert Settled(origin, s, i);
    }
    assert forall k: nat | k < BlockUp(|origin|) :: BlockRight(origin, t, k) && BlockSettled(origin, t, k);
  }

  lemma StepPreserves(origin: Content, s: State, step: Step, t: State)
    requires Inv(origin, s) && Next(origin, s, step, t) && Benign(origin, s, step)
    ensures Inv(origin, t)
  {
    if step.Crash? {
      CrashRecovers(origin, s, step.content, step.saved, t);
    } else if step.CrashWithoutMap? {
      SyncedCrash(origin, s, step.content, t);
    } else {
      StepSizes(origin, s, step, t);
      StepGrows(origin, s, step, t);
      CacheStaysRight(origin, s, step, t);
      MapFileStaysSettled(origin, s, step, t);
      ReadsStayRight(origin, s, step, t);
      WrittenStaysRight(origin, s, step, t);
    }
  }

  /** The invariant in terms of contents. */
  lemma InvMeaning(origin: Content, s: State)
    requires Inv(origin, s)
    ensures forall k: nat | k < BlockUp(|origin|) && Cached(s.cache, k) ::
              s.file[k * BLOCK_SIZE..(k + 1) * BLOCK_SIZE] == origin[k * BLOCK_SIZE..(k + 1) * BLOCK_SIZE]
    ensures s.cache.Complete? ==> s.file == origin
  {
    forall k: nat | k < BlockUp(|origin|) && Cached(s.cache, k)
      ensures s.file[k * BLOCK_SIZE..(k + 1) * BLOCK_SIZE] == origin[k * BLOCK_SIZE..(k + 1) * BLOCK_SIZE]
    {
      assert BlockRight(origin, s, k);
      var lo, hi := k * BLOCK_SIZE, (k + 1) * BLOCK_SIZE;
      forall i: nat | lo <= i < hi ensures s.file[i] == origin[i] { assert Right(origin, s, i); }
      assert s.file[lo..hi] == origin[lo..hi];
    }
    if s.cache.Complete? {
      forall i: nat | i < |origin| ensures s.file[i] == origin[i] {
        assert BlockRight(origin, s, i / BLOCK_SIZE);
        assert Right(origin, s, i);
      }
    }
  }

  ghost predicate IsRun(origin: Content, states: seq<State>, steps: seq<Step>) {
    && |states| == |steps| + 1 && Init(origin, states[0])
    && forall j: nat | j < |steps| ::
         Sizes(origin, states[j]) && Next(origin, states[j], steps[j], states[j + 1])
           && Benign(origin, states[j], steps[j])
  }

  lemma {:induction false} RunInv(origin: Content, states: seq<State>, steps: seq<Step>, n: nat)
    requires IsRun(origin, states, steps) && n <= |steps|
    ensures Inv(origin, states[n])
  {
    if n == 0 {
      InitEstablishes(origin, states[0]);
    } else {
      RunInv(origin, states, steps, n - 1);
      StepPreserves(origin, states[n - 1], steps[n - 1], states[n - 1 + 1]);
    }
  }

  /** In every run, every local answer carries the origin's bytes; a cached block is the origin's; a NULL map
      means that the whole file is the origin's. */
  lemma ProxyReadsRefineOrigin(origin: Content, states: seq<State>, steps: seq<Step>)
    requires IsRun(origin, states, steps)
    ensures var s := states[|steps|];
            && Inv(origin, s)
            && (forall r <- s.replies :: AnswerRight(origin, r))
            && (forall k: nat | k < BlockUp(|origin|) && Cached(s.cache, k) ::
                  s.file[k * BLOCK_SIZE..(k + 1) * BLOCK_SIZE] == origin[k * BLOCK_SIZE..(k + 1) * BLOCK_SIZE])
            && (s.cache.Complete? ==> s.file == origin)
  {
    RunInv(origin, states, steps, |steps|);
    InvMeaning(origin, states[|steps|]);
  }

  /** Wherever a run stops, each bit an image load then finds in the saved map names a block that was on disk. */
  lemma SavedMapIsCrashSafe(origin: Content, states: seq<State>, steps: seq<Step>, content: seq<bv8>, saved: seq<bv8>,
                            t: State)
    requires IsRun(origin, states, steps)
    requires Sizes(origin, states[|steps|]) && Next(origin, states[|steps|], Crash(content, saved), t)
    ensures MapSettled(origin, states[|steps|], t.cache.bytes)
    ensures forall k: nat | k < BlockUp(|origin|) && BlockSet(t.cache.bytes, k) ::
              content[k * BLOCK_SIZE..(k + 1) * BLOCK_SIZE] == origin[k * BLOCK_SIZE..(k + 1) * BLOCK_SIZE]
  {
    ProxyReadsRefineOrigin(origin, states, steps);
    var s := states[|steps|];
    CrashRecovers(origin, s, content, saved, t);
    InvMeaning(origin, t);
    assert forall k: nat | k < BlockUp(|origin|) && BlockSet(t.cache.bytes, k) :: Cached(t.cache, k);
  }

  /** Once the map is unlinked, every crash is harmless if and only if all data is on disk already. */
  lemma UnlinkedMapSafeIffSynced(origin: Content, s: State)
    requires Inv(origin, s) && s.mapMayMiss
    ensures AllSettled(origin, s) <==>
            forall content: seq<bv8>, t: State | Next(origin, s, CrashWithoutMap(content), t) :: CacheRight(origin, t)
  {
    if AllSettled(origin, s) {
      forall content: seq<bv8>, t: State | Next(origin, s, CrashWithoutMap(content), t) ensures CacheRight(origin, t) {
        StepPreserves(origin, s, CrashWithoutMap(content), t);
      }
    } else {
      var i: nat :| i < |origin| && !Settled(origin, s, i);
      var v := if s.file[i] != origin[i] then s.file[i] else s.disk[i];
      var content := s.file[i := v];
      var t := Loaded(content, Complete, s.mapFile, true, s.replies);
      assert MayRemain(content, s);
      assert Next(origin, s, CrashWithoutMap(content), t);
      assert i / BLOCK_SIZE < BlockUp(|origin|);
      assert Cached(t.cache, i / BLOCK_SIZE) && !Right(origin, t, i);
      assert !BlockRight(origin, t, i / BLOCK_SIZE);
      assert !CacheRight(origin, t);
    }
  }

  /** For a complete image that means: if and only if everything written has been synced. */
  lemma CompleteSafeIffSynced(origin: Content, s: State)
    requires Inv(origin, s) && s.mapMayMiss && s.cache.Complete?
    ensures s.disk == s.file <==>
            forall content: seq<bv8>, t: State | Next(origin, s, CrashWithoutMap(content), t) :: CacheRight(origin, t)
  {
    InvMeaning(origin, s);
    UnlinkedMapSafeIffSynced(origin, s);
    if AllSettled(origin, s) {
      forall i: nat | i < |origin| ensures s.disk[i] == s.file[i] { assert Settled(origin, s, i); }
      assert s.disk == s.file;
    }
  }

  /** Bit x of map byte p, if it names a block, names one on disk. */
  ghost predicate BitSettled(origin: Content, s: State, p: nat, x: nat) {
    8 * p + x < BlockUp(|origin|) ==> BlockSettled(origin, s, 8 * p + x)
  }

  /** The blocks any short write of this map could claim are on disk. */
  ghost predicate SettledAhead(origin: Content, s: State, m: seq<bv8>) {
    forall q: nat, p: nat, x: nat | q <= p < |m| && x < 8 && Bit(m[q], x) :: BitSettled(origin, s, p, x)
  }

  lemma SameContent(origin: Content, s: State, t: State)
    requires s.file == t.file && s.disk == t.disk
    ensures forall k: nat :: BlockSettled(origin, s, k) <==> BlockSettled(origin, t, k)
  {
    GrowsBlocks(origin, s, t);
    GrowsBlocks(origin, t, s);
  }

  lemma UnsettledSave(origin: Content, s: State, q: nat, p: nat, x: nat)
    requires Sizes(origin, s) && s.uplink.MapCopied? && q <= p < |s.uplink.copy| && x < 8
    requires Bit(s.uplink.copy[q], x) && !BitSettled(origin, s, p, x)
    ensures exists writes: seq<Write>, t: State ::
              Next(origin, s, WriteMap(writes, true), t) && !MapFileSettled(origin, t)
  {
    var m := s.uplink.copy;
    var writes := Shifted(q, p);
    ShiftedLands(|m|, q, p);
    var t := s.(uplink := Idle, mapFile := WrittenMap(s.mapFile, m, writes, true));
    assert Next(origin, s, WriteMap(writes, true), t);
    assert m[q] in t.mapFile[p];
    SameContent(origin, s, t);
    assert !BlockSettled(origin, t, 8 * p + x) && Bit(m[q], x) && 8 * p + x < BlockUp(|origin|);
    assert !MapFileSettled(origin, t);
  }

  lemma AnyByteSettled(origin: Content, s: State, writes: seq<Write>, fsynced: bool, y: nat, v: bv8, x: nat)
    requires Sizes(origin, s) && MapFileSettled(origin, s) && s.uplink.MapCopied?
    requires SettledAhead(origin, s, s.uplink.copy)
    requires y < |s.mapFile| && v in WrittenByteOf(s.mapFile, s.uplink.copy, writes, fsynced, y)
    requires x < 8 && Bit(v, x) && 8 * y + x < BlockUp(|origin|)
    ensures BlockSettled(origin, s, 8 * y + x)
  {
    ZeroByte(x);
    if v !in s.mapFile[y] {
      var q := Landed(|s.uplink.copy|, 0, writes, y).value;
      assert Bit(s.uplink.copy[q], x);
      assert BitSettled(origin, s, y, x);
    }
  }

  lemma AnySaveSettled(origin: Content, s: State, writes: seq<Write>, fsynced: bool, t: State)
    requires Inv(origin, s) && s.uplink.MapCopied? && SettledAhead(origin, s, s.uplink.copy)
    requires Next(origin, s, WriteMap(writes, fsynced), t)
    ensures MapFileSettled(origin, t)
  {
    SameContent(origin, s, t);
    forall y: nat, v: bv8, x: nat | y < |t.mapFile| && v in t.mapFile[y] && x < 8 && Bit(v, x)
      && 8 * y + x < BlockUp(|origin|)
      ensures BlockSettled(origin, t, 8 * y + x)
    {
      AnyByteSettled(origin, s, writes, fsynced, y, v, x);
    }
  }

  /** Whatever the write calls do, the saved map only names blocks on disk, if and only if each block is on disk that
      lies at or behind a cached one by a multiple of eight. */
  lemma ShortSavesSafeIff(origin: Content, s: State)
    requires Inv(origin, s) && s.uplink.MapCopied?
    ensures (forall writes: seq<Write>, fsynced: bool, t: State | Next(origin, s, WriteMap(writes, fsynced), t) ::
               MapFileSettled(origin, t))
            <==> SettledAhead(origin, s, s.uplink.copy)
  {
    var m := s.uplink.copy;
    if SettledAhead(origin, s, m) {
      forall writes: seq<Write>, fsynced: bool, t: State | Next(origin, s, WriteMap(writes, fsynced), t)
        ensures MapFileSettled(origin, t)
      {
        AnySaveSettled(origin, s, writes, fsynced, t);
      }
    } else {
      var q: nat, p: nat, x: nat :| q <= p < |m| && x < 8 && Bit(m[q], x) && !BitSettled(origin, s, p, x);
      UnsettledSave(origin, s, q, p, x);
    }
  }

  /** If the disk holds no block besides those of the map, that is a property of the map alone. */
  lemma ShortSavesSafeIffGrowing(origin: Content, s: State)
    requires Inv(origin, s) && s.uplink.MapCopied?
    requires forall k: nat | k < BlockUp(|origin|) && BlockSettled(origin, s, k) ::
               k < 8 * |s.uplink.copy| && BlockSet(s.uplink.copy, k)
    ensures (forall writes: seq<Write>, fsynced: bool, t: State | Next(origin, s, WriteMap(writes, fsynced), t) ::
               MapFileSettled(origin, t))
            <==> Growing(s.uplink.copy, BlockUp(|origin|))
  {
    ShortSavesSafeIff(origin, s);
    var m := s.uplink.copy;
    forall p: nat, x: nat | p < |m| && x < 8
      ensures BitSettled(origin, s, p, x) <==> 8 * p + x >= BlockUp(|origin|) || Bit(m[p], x)
    {
      assert (8 * p + x) / 8 == p && (8 * p + x) % 8 == x;
      if 8 * p + x < BlockUp(|origin|) { assert BlockSet(m, 8 * p + x) == Bit(m[p], x); }
    }
  }

  /** Saving map m in one call, without a sync in front, is safe if and only if its blocks are on disk. */
  lemma SavedOnceSafeIff(origin: Content, s: State, m: seq<bv8>)
    requires |s.mapFile| == |m| && forall y: nat | y < |m| :: s.mapFile[y] == {m[y]}
    ensures MapFileSettled(origin, s) <==> MapSettled(origin, s, m)
  {
    if MapFileSettled(origin, s) {
      forall k: nat | k < BlockUp(|origin|) && k < 8 * |m| && BlockSet(m, k) ensures BlockSettled(origin, s, k) {
        assert 8 * (k / 8) + k % 8 == k && m[k / 8] in s.mapFile[k / 8];
      }
    }
    if MapSettled(origin, s, m) {
      forall y: nat, b: bv8, x: nat | y < |m| && b in s.mapFile[y] && x < 8 && Bit(b, x)
        && 8 * y + x < BlockUp(|origin|)
        ensures BlockSettled(origin, s, 8 * y + x)
      {
        assert (8 * y + x) / 8 == y && (8 * y + x) % 8 == x;
        assert BlockSet(m, 8 * y + x);
      }
    }
  }

  /** Disk and cache file agree on every cached block. */
  ghost predicate CachedSynced(size: nat, s: State)
    requires |s.file| == |s.disk| == size && Fits(s.cache, size)
  {
    forall k: nat, i: nat | k < BlockUp(size) && Cached(s.cache, k) && k * BLOCK_SIZE <= i < (k + 1) * BLOCK_SIZE
      && i < size ::
      s.disk[i] == s.file[i]
  }

  /** With the right content in the file, a cached block is on disk exactly if disk and file agree on it. */
  lemma SettledIffSynced(origin: Content, s: State)
    requires Inv(origin, s)
    ensures CacheSettled(origin, s) <==> CachedSynced(|origin|, s)
  {
    if CachedSynced(|origin|, s) {
      forall k: nat, i: nat | k < BlockUp(|origin|) && Cached(s.cache, k) && k * BLOCK_SIZE <= i < (k + 1) * BLOCK_SIZE
        ensures Settled(origin, s, i)
      {
        assert BlockRight(origin, s, k);
        assert Right(origin, s, i);
      }
    }
    if CacheSettled(origin, s) {
      forall k: nat, i: nat | k < BlockUp(|origin|) && Cached(s.cache, k) && k * BLOCK_SIZE <= i < (k + 1) * BLOCK_SIZE
        && i < |origin|
        ensures s.disk[i] == s.file[i]
      {
        assert BlockSettled(origin, s, k);
        assert Settled(origin, s, i);
      }
    }
  }

  /** A map saved in one call without syncing the file names only blocks on disk if and only if disk and cache file
      agree on every cached block. */
  lemma UnsyncedSaveSafeIff(origin: Content, s: State, t: State, u: State, v: State)
    requires Inv(origin, s) && s.cache.Partial?
    requires Next(origin, s, SkipFsync, t) && Sizes(origin, t) && Next(origin, t, CopyMap, u)
    requires Sizes(origin, u) && Next(origin, u, WriteMap([], true), v)
    ensures MapFileSettled(origin, v) <==> CachedSynced(|origin|, s)
  {
    var m := s.cache.bytes;
    SettledIffSynced(origin, s);
    assert forall y: nat | y < |m| :: v.mapFile[y] == {m[y]};
    SavedOnceSafeIff(origin, v, m);
    SameContent(origin, s, v);
    BlocksFit(|origin|);
    assert forall k: nat | k < BlockUp(|origin|) :: Cached(s.cache, k) == BlockSet(m, k);
  }

  /** One step more. */
  lemma RunLonger(origin: Content, states: seq<State>, steps: seq<Step>, step: Step, t: State)
    requires IsRun(origin, states, steps) && Sizes(origin, states[|steps|])
    requires Next(origin, states[|steps|], step, t) && Benign(origin, states[|steps|], step)
    ensures IsRun(origin, states + [t], steps + [step])
  {
    var longer, more := states + [t], steps + [step];
    forall j: nat | j < |more|
      ensures Sizes(origin, longer[j]) && Next(origin, longer[j], more[j], longer[j + 1])
      ensures Benign(origin, longer[j], more[j])
    {
      if j < |steps| {
        assert Sizes(origin, states[j]) && Next(origin, states[j], steps[j], states[j + 1])
          && Benign(origin, states[j], steps[j]);
      }
    }
  }

  function EmptyMap(origin: Content): seq<bv8> { seq(MapBytes(|origin|), _ => 0) }

  /** The first block of a fresh image after it was received, written and marked in the map. */
  function FirstBlock(origin: Content, before: seq<bv8>, map_: seq<bv8>): State
    requires |origin| == |before|
  {
    State(Overwrite(before, 0, origin[0..BLOCK_SIZE]), before, Partial(map_), seq(MapBytes(|origin|), _ => {0}), false,
          Idle, map[], [])
  }

  lemma FirstBlockRun(origin: Content, before: seq<bv8>, map_: seq<bv8>) returns (states: seq<State>, steps: seq<Step>)
    requires |origin| == |before| && SetRange(EmptyMap(origin), map_, 0, BLOCK_SIZE)
    ensures IsRun(origin, states, steps) && states[|steps|] == FirstBlock(origin, before, map_)
  {
    var onDisk: seq<set<bv8>> := seq(MapBytes(|origin|), _ => {0});
    var s0 := State(before, before, Partial(EmptyMap(origin)), onDisk, false, Idle, map[], []);
    var s1 := s0.(uplink := Writing(0, BLOCK_SIZE, 0));
    var s2 := s1.(file := Overwrite(before, 0, origin[0..BLOCK_SIZE]), uplink := Writing(0, BLOCK_SIZE, BLOCK_SIZE));
    assert IsRun(origin, [s0], []);
    RunLonger(origin, [s0], [], Receive(0, BLOCK_SIZE), s1);
    RunLonger(origin, [s0] + [s1], [] + [Receive(0, BLOCK_SIZE)], Pwrite(BLOCK_SIZE), s2);
    states, steps := [s0] + [s1] + [s2], [] + [Receive(0, BLOCK_SIZE)] + [Pwrite(BLOCK_SIZE)];
    RunLonger(origin, states, steps, MarkCached, FirstBlock(origin, before, map_));
    states, steps := states + [FirstBlock(origin, before, map_)], steps + [MarkCached];
  }

  lemma FirstBlockMap()
    ensures SetRange(seq(MapBytes(BLOCK_SIZE), _ => 0), [1], 0, BLOCK_SIZE)
    ensures AllCached(Partial([1]), BLOCK_SIZE)
  {
    var m: seq<bv8> := seq(MapBytes(BLOCK_SIZE), _ => 0);
    forall k: nat | k < 8 ensures BlockSet([1], k) <==> BlockSet(m, k) || Inside(k, 0, BLOCK_SIZE) {
      ZeroByte(k);
      assert 1 & Mask(k) != 0 <==> k == 0;
    }
    assert BlockSet([1], 0);
  }

  /** The gap behind the unlink is reachable, for any one-block image: a crash before the next fsync can bring back the
      old content of a file that is then taken for complete. */
  lemma UnlinkBeforeFsyncExample(origin: Content, before: seq<bv8>)
    returns (states: seq<State>, steps: seq<Step>, t: State)
    requires |origin| == |before| == BLOCK_SIZE
    ensures IsRun(origin, states, steps) && Sizes(origin, states[|steps|])
    ensures Next(origin, states[|steps|], CrashWithoutMap(before), t) && t.cache.Complete? && t.file == before
  {
    FirstBlockMap();
    states, steps := FirstBlockRun(origin, before, [1]);
    var s := states[|steps|];
    var u := s.(cache := Complete, uplink := Unlinking);
    RunLonger(origin, states, steps, DropMap, u);
    states, steps := states + [u], steps + [DropMap];
    var v := u.(mapMayMiss := true, uplink := Idle);
    RunLonger(origin, states, steps, Unlink, v);
    states, steps := states + [v], steps + [Unlink];
    t := Loaded(before, Complete, v.mapFile, true, []);
    assert MayRemain(before, v);
  }

  lemma TwoByteMap()
    ensures MapBytes(16 * BLOCK_SIZE) == 2 && BlockUp(16 * BLOCK_SIZE) == 16
    ensures SetRange([0, 0], [1, 0], 0, BLOCK_SIZE)
  {
    forall k: nat | k < 16 ensures BlockSet([1, 0], k) <==> BlockSet([0, 0], k) || Inside(k, 0, BLOCK_SIZE) {
      ZeroByte(k % 8);
      assert k < 8 ==> k % 8 == k && k / 8 == 0;
      assert 1 & Mask(k % 8) != 0 <==> k % 8 == 0;
    }
  }

  /** A crash after the map with block 0 was saved but nothing of the file synced. */
  lemma UnsyncedCrash(origin: Content, before: seq<bv8>, v: State) returns (w: State)
    requires |origin| == |before| == 16 * BLOCK_SIZE && before[0] != origin[0]
    requires Sizes(origin, v) && v.mapFile == [{1}, {0}] && v.disk == before
    ensures Next(origin, v, Crash(before, [1, 0]), w) && Sizes(origin, w)
    ensures w.cache.Partial? && BlockSet(w.cache.bytes, 0) && !BlockRight(origin, w, 0)
  {
    var saved: seq<bv8> := [1, 0];
    assert MayRemain(before, v);
    assert LoadedMap(saved, 2) == saved;
    w := Loaded(before, Partial(saved), seq(2, y requires 0 <= y < 2 => {saved[y]}), false, v.replies);
    assert saved[0] & Mask(0) != 0;
    assert !Right(origin, w, 0);
  }

  /** The map is saved while the cache file is closed and its data not synced: after a crash block 0 is taken for cached
      although its content is the old one. */
  lemma UnsyncedSaveExample(origin: Content, before: seq<bv8>)
    returns (states: seq<State>, steps: seq<Step>, t: State, u: State, v: State, w: State)
    requires |origin| == |before| == 16 * BLOCK_SIZE && before[0] != origin[0]
    ensures IsRun(origin, states, steps) && Sizes(origin, states[|steps|])
    ensures Next(origin, states[|steps|], SkipFsync, t)
    ensures Sizes(origin, t) && Next(origin, t, CopyMap, u) && Sizes(origin, u)
    ensures Next(origin, u, WriteMap([], true), v)
    ensures Sizes(origin, v) && Next(origin, v, Crash(before, [1, 0]), w) && Sizes(origin, w)
    ensures w.cache.Partial? && BlockSet(w.cache.bytes, 0) && !BlockRight(origin, w, 0)
  {
    TwoByteMap();
    assert EmptyMap(origin) == [0, 0];
    states, steps := FirstBlockRun(origin, before, [1, 0]);
    var s := states[|steps|];
    t := s.(uplink := Saving);
    u := t.(uplink := MapCopied([1, 0]));
    v := u.(uplink := Idle, mapFile := WrittenMap(s.mapFile, [1, 0], [], true));
    assert v.mapFile == [{1}, {0}];
    w := UnsyncedCrash(origin, before, v);
  }

  /** The first of sixteen blocks is received and synced, and the map is about to be saved. */
  lemma SaveRun(origin: Content, before: seq<bv8>) returns (states: seq<State>, steps: seq<Step>)
    requires |origin| == |before| == 16 * BLOCK_SIZE
    ensures IsRun(origin, states, steps)
    ensures var s := FirstBlock(origin, before, [1, 0]);
            states[|steps|] == s.(disk := s.file, uplink := MapCopied([1, 0]))
  {
    TwoByteMap();
    assert EmptyMap(origin) == [0, 0];
    states, steps := FirstBlockRun(origin, before, [1, 0]);
    var s := states[|steps|];
    var u := s.(disk := s.file, uplink := Saving);
    RunLonger(origin, states, steps, FsyncData, u);
    states, steps := states + [u], steps + [FsyncData];
    var v := u.(uplink := MapCopied([1, 0]));
    RunLonger(origin, states, steps, CopyMap, v);
    states, steps := states + [v], steps + [CopyMap];
  }

  /** A short write of the map, then a crash: block 8 is taken for cached although its content is still the old one. */
  lemma ShortSaveExample(origin: Content, before: seq<bv8>)
    returns (states: seq<State>, steps: seq<Step>, t: State, u: State)
    requires |origin| == |before| == 16 * BLOCK_SIZE && before[8 * BLOCK_SIZE] != origin[8 * BLOCK_SIZE]
    ensures IsRun(origin, states, steps) && Sizes(origin, states[|steps|])
    ensures Next(origin, states[|steps|], WriteMap([Wrote(1)], true), t) && Sizes(origin, t)
    ensures Next(origin, t, Crash(t.file, [1, 1]), u) && Sizes(origin, u)
    ensures u.cache.Partial? && BlockSet(u.cache.bytes, 8) && !BlockRight(origin, u, 8)
  {
    states, steps := SaveRun(origin, before);
    TwoByteMap();
    var s := states[|steps|];
    t := s.(uplink := Idle, mapFile := WrittenMap(s.mapFile, [1, 0], [Wrote(1)], true));
    ShiftedLands(2, 0, 1);
    assert t.mapFile == [{1}, {1}];
    var saved: seq<bv8> := [1, 1];
    assert LoadedMap(saved, 2) == saved;
    u := Loaded(t.file, Partial(saved), seq(2, y requires 0 <= y < 2 => {saved[y]}), false, t.replies);
    assert saved[1] & Mask(0) != 0;
    assert !Right(origin, u, 8 * BLOCK_SIZE);
  }

  /** A client asks for the first block, which is cached. */
  lemma CachedRead(origin: Content, before: seq<bv8>, s: State) returns (t: State, u: State, v: State)
    requires |origin| == |before| == 16 * BLOCK_SIZE && s == FirstBlock(origin, before, [1, 0]) && Sizes(origin, s)
    ensures Next(origin, s, StartRead(0, 0, BLOCK_SIZE), t) && Sizes(origin, t)
    ensures Next(origin, t, ReadSome(0, BLOCK_SIZE), u) && Sizes(origin, u)
    ensures Next(origin, u, FinishRead(0), v) && v.replies == [Read(0, BLOCK_SIZE, origin[0..BLOCK_SIZE])]
  {
    TwoByteMap();
    assert TouchedCached(s.cache, 0, BLOCK_SIZE) by {
      forall k: nat | Touches(k, 0, BLOCK_SIZE) ensures Cached(s.cache, k) { assert Inside(0, 0, BLOCK_SIZE); }
    }
    t := s.(active := map[0 := Read(0, BLOCK_SIZE, [])]);
    u := t.(active := map[0 := Read(0, BLOCK_SIZE, origin[0..BLOCK_SIZE])]);
    assert s.file[0..BLOCK_SIZE] == origin[0..BLOCK_SIZE] && [] + s.file[0..BLOCK_SIZE] == s.file[0..BLOCK_SIZE];
    v := u.(active := map[], replies := [Read(0, BLOCK_SIZE, origin[0..BLOCK_SIZE])]);
  }

  /** The first block is received, and then a client is answered from the local file. */
  lemma LocalAnswerExample(origin: Content, before: seq<bv8>) returns (states: seq<State>, steps: seq<Step>)
    requires |origin| == |before| == 16 * BLOCK_SIZE
    ensures IsRun(origin, states, steps)
    ensures states[|steps|].replies == [Read(0, BLOCK_SIZE, origin[0..BLOCK_SIZE])]
  {
    TwoByteMap();
    assert EmptyMap(origin) == [0, 0];
    states, steps := FirstBlockRun(origin, before, [1, 0]);
    var t, u, v := CachedRead(origin, before, states[|steps|]);
    RunLonger(origin, states, steps, StartRead(0, 0, BLOCK_SIZE), t);
    states, steps := states + [t], steps + [StartRead(0, 0, BLOCK_SIZE)];
    RunLonger(origin, states, steps, ReadSome(0, BLOCK_SIZE), u);
    states, steps := states + [u], steps + [ReadSome(0, BLOCK_SIZE)];
    RunLonger(origin, states, steps, FinishRead(0), v);
    states, steps := states + [v], steps + [FinishRead(0)];
  }
}
