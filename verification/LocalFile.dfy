/** The byte loops around the cache file: storing a reply (src/server/uplink.c) and answering a client from it
    (src/server/net.c). Results of system calls are parameters; when they are used up, the next call transfers
    everything that is left. */
module LocalFile {
  import opened Blocks
  import opened CacheMap
  import opened Wrappers

  /** One pwrite or write call: some bytes went out, EINTR, an error that freeing space or reopening the file
      did or did not cure, any other error. */
  datatype Outcome = Wrote(n: nat) | Interrupted | Curable(cured: bool) | Failed

  /** t is s with the bytes from `at` on replaced by data. */
  ghost predicate Stored(s: seq<bv8>, t: seq<bv8>, at: nat, data: seq<bv8>) {
    |t| == |s| && at + |data| <= |s| &&
    forall i: nat | i < |s| :: t[i] == if at <= i < at + |data| then data[i - at] else s[i]
  }

  lemma StoreMore(s: seq<bv8>, t: seq<bv8>, u: seq<bv8>, at: nat, payload: seq<bv8>, done: nat, n: nat)
    requires done + n <= |payload| && Stored(s, t, at, payload[..done]) && at + done + n <= |s|
    requires Stored(t, u, at + done, payload[done..done + n])
    ensures Stored(s, u, at, payload[..done + n])
  {
  }

  /** One successful pwrite. */
  method Pwrite(file: array<bv8>, at: nat, data: seq<bv8>)
    requires at + |data| <= file.Length
    modifies file
    ensures Stored(old(file[..]), file[..], at, data)
  {
    forall i | at <= i < at + |data| { file[i] := data[i - at]; }
  }

  /** How much the first k calls wrote. */
  ghost function Total(outcomes: seq<Outcome>, k: nat): nat
    requires k <= |outcomes|
  {
    if k == 0 then 0 else Total(outcomes, k - 1) + if outcomes[k - 1].Wrote? then outcomes[k - 1].n else 0
  }

  /** An error that can be cured occurred in one of the first k calls. */
  ghost predicate Retried(outcomes: seq<Outcome>, k: nat)
    requires k <= |outcomes|
  {
    exists i: nat :: i < k && outcomes[i].Curable?
  }

  /** Call k ends the loop: it fails, writes nothing, or hits an error that is not cured or not the first one. */
  ghost predicate Ends(outcomes: seq<Outcome>, k: nat)
    requires k < |outcomes|
  {
    match outcomes[k]
    case Failed => true
    case Interrupted => false
    case Wrote(n) => n == 0
    case Curable(cured) => !cured || Retried(outcomes, k)
  }

  /** The first k calls did not end the loop, with `len` bytes to write. */
  ghost predicate Used(outcomes: seq<Outcome>, len: nat, k: nat) {
    k <= |outcomes| && forall j: nat | j < k :: !Ends(outcomes, j) && Total(outcomes, j) < len
  }

  lemma OneMore(outcomes: seq<Outcome>, len: nat, k: nat)
    requires k < |outcomes| && Used(outcomes, len, k) && Total(outcomes, k) < len
    ensures !Ends(outcomes, k) ==> Used(outcomes, len, k + 1)
    ensures Retried(outcomes, k + 1) <==> Retried(outcomes, k) || outcomes[k].Curable?
    ensures Total(outcomes, k + 1) == Total(outcomes, k) + if outcomes[k].Wrote? then outcomes[k].n else 0
  {
    if Retried(outcomes, k) {
      var i: nat :| i < k && outcomes[i].Curable?;
      assert outcomes[i].Curable?;
    }
  }

  /** The same without names. */
  lemma EndsMeans(outcomes: seq<Outcome>, k: nat)
    requires k < |outcomes|
    ensures Ends(outcomes, k) <==>
              || outcomes[k].Failed? || outcomes[k] == Wrote(0) || outcomes[k] == Curable(false)
              || (outcomes[k].Curable? && exists i: nat :: i < k && outcomes[i].Curable?)
  {
  }

  /** The write loop; `calls` counts the results of pwrite it used. It stops early exactly at the first call that ends
      it. */
  method WriteLoop(file: array<bv8>, start: nat, payload: seq<bv8>, outcomes: seq<Outcome>)
    returns (done: nat, ghost calls: nat)
    requires start + |payload| <= file.Length
    modifies file
    ensures done <= |payload| && Stored(old(file[..]), file[..], start, payload[..done])
    ensures calls <= |outcomes| && Used(outcomes, |payload|, if done < |payload| && calls > 0 then calls - 1 else calls)
    ensures done < |payload| ==> calls > 0 && done == Total(outcomes, calls - 1) && Ends(outcomes, calls - 1)
  {
    done, calls := 0, 0;
    var call, tryAgain := 0, true;
    ghost var before := file[..];
    while done < |payload|
      invariant call <= |outcomes| && done <= |payload| && calls == call
      invariant Stored(before, file[..], start, payload[..done])
      invariant done < |payload| ==> done == Total(outcomes, call)
      invariant Used(outcomes, |payload|, call) && (tryAgain <==> !Retried(outcomes, call))
      decreases |outcomes| - call, |payload| - done
    {
      var n := |payload| - done;
      if call < |outcomes| {
        var o := outcomes[call];
        OneMore(outcomes, |payload|, call);
        call, calls := call + 1, calls + 1;
        match o {
          case Interrupted => continue;
          case Curable(cured) =>
            if !tryAgain || !cured { break; }
            tryAgain := false;
            continue;
          case Failed => break;
          case Wrote(m) =>
            if m == 0 { break; }
            if m < n { n := m; }
        }
      }
      ghost var now := file[..];
      Pwrite(file, start + done, payload[done..done + n]);
      StoreMore(before, now, file[..], start, payload, done, n);
      done := done + n;
    }
  }

  /** The write loop of uplink_handleReceive: everything is written unless a call fails, writes nothing, hits an error
      that freeing space or reopening does not cure, or a second one that it would. Each such error but the first
      curable one ends the loop at once. */
  method WriteAll(file: array<bv8>, start: nat, payload: seq<bv8>, outcomes: seq<Outcome>)
    returns (done: nat, ghost calls: nat)
    requires start + |payload| <= file.Length
    modifies file
    ensures done <= |payload| && Stored(old(file[..]), file[..], start, payload[..done])
    ensures done < |payload| ==> exists o <- outcomes :: o.Failed? || o.Curable? || o == Wrote(0)
    ensures calls <= |outcomes| && forall k: nat | k < calls :: Total(outcomes, k) < |payload|
    ensures done < |payload| ==> calls > 0 && done == Total(outcomes, calls - 1)
    ensures done < |payload| ==>
              var o := outcomes[calls - 1];
              || o.Failed? || o == Wrote(0) || o == Curable(false)
              || (o.Curable? && exists i: nat :: i < calls - 1 && outcomes[i].Curable?)
    ensures forall k: nat | k < (if done < |payload| then calls - 1 else calls) ::
              && !outcomes[k].Failed? && outcomes[k] != Wrote(0) && outcomes[k] != Curable(false)
              && !(outcomes[k].Curable? && exists i: nat :: i < k && outcomes[i].Curable?)
    ensures (forall o <- outcomes :: !o.Failed? && o != Wrote(0) && o != Curable(false))
            && (forall i: nat, k: nat | i < k < |outcomes| :: !(outcomes[i].Curable? && outcomes[k].Curable?))
            ==> done == |payload|
  {
    done, calls := WriteLoop(file, start, payload, outcomes);
    ghost var used: nat := if done < |payload| then calls - 1 else calls;
    forall k: nat | k < used
      ensures && !outcomes[k].Failed? && outcomes[k] != Wrote(0) && outcomes[k] != Curable(false)
              && !(outcomes[k].Curable? && exists i: nat :: i < k && outcomes[i].Curable?)
    {
      EndsMeans(outcomes, k);
    }
    if done < |payload| {
      assert outcomes[calls - 1] in outcomes;
      EndsMeans(outcomes, calls - 1);
    }
  }

  /** The write loop of uplink_handleReceive and the map update after it: a prefix of the payload lands in the
      file, and exactly the blocks lying inside that prefix become cached. */
  method StoreReply(image: Image, file: array<bv8>, start: nat, payload: seq<bv8>, outcomes: seq<Outcome>,
                    others: seq<Cache>)
    returns (done: nat, handed: seq<nat>)
    requires image.Valid() && file.Length == image.virtualFilesize && start + |payload| <= file.Length
    requires image.cacheMap != file && AllFit(Complete, others, image.realFilesize)
    modifies image, image.cacheMap, file
    ensures image.Valid() && done <= |payload|
    ensures Stored(old(file[..]), file[..], start, payload[..done])
    ensures done > 0 ==> Updated(old(image.Value()), image.Value(), image.virtualFilesize, start, start + done, true)
    ensures done == 0 ==> image.Value() == old(image.Value()) && handed == []
    ensures done < |payload| ==> exists o <- outcomes :: o.Failed? || o.Curable? || o == Wrote(0)
    ensures (forall o <- outcomes :: !o.Failed? && o != Wrote(0) && o != Curable(false))
            && (forall i: nat, k: nat | i < k < |outcomes| :: !(outcomes[i].Curable? && outcomes[k].Curable?))
            ==> done == |payload|
  {
    ghost var before := file[..];
    ghost var calls: nat;
    done, calls := WriteAll(file, start, payload, outcomes);
    handed := [];
    if done > 0 {
      handed := image.UpdateCachemap(start, start + done, true, others);
    }
  }

  /** The image as clients see it: the file followed by zeros up to the virtual size. */
  function Padded(file: seq<bv8>, virtualSize: nat): (r: seq<bv8>)
    requires |file| <= virtualSize
    ensures |r| == virtualSize
  {
    file + seq(virtualSize - |file|, _ => 0)
  }

  /** The payload loop of a local answer to CMD_GET_BLOCK. `caps` bounds what each sendfile call transfers
      (at least one byte while the file has any left; none at its end). The count of real bytes is a 64-bit
      unsigned difference. The answer goes out, and then as the zero-padded image, exactly when the request
      does not start behind the end of the file. */
  method SendPayload(file: seq<bv8>, virtualSize: nat, offset: nat, size: nat, caps: seq<nat>)
    returns (out: Option<seq<bv8>>)
    requires |file| <= virtualSize < 0x1_0000_0000_0000_0000
    requires size < 0x1_0000_0000 && offset + size <= virtualSize
    ensures out.Some? <==> size == 0 || offset <= |file|
    ensures out.Some? ==> out.value == Padded(file, virtualSize)[offset..offset + size]
  {
    if size == 0 { return Some([]); }
    var realBytes := if offset + size <= |file| then size else (|file| - offset) % 0x1_0000_0000_0000_0000;
    var sent: seq<bv8> := [];
    var call := 0;
    while |sent| < realBytes
      invariant |sent| <= realBytes
      invariant offset <= |file| ==> offset + realBytes <= |file| && realBytes <= size
      invariant |sent| > 0 ==> offset <= |file|
      invariant offset <= |file| ==> sent == file[offset..offset + |sent|]
      decreases realBytes - |sent|
    {
      var pos := offset + |sent|;
      if pos >= |file| { return None; } // sendfile returns 0
      var n := realBytes - |sent|;
      if n > |file| - pos { n := |file| - pos; }
      if call < |caps| {
        if 0 < caps[call] < n { n := caps[call]; }
        call := call + 1;
      }
      sent := sent + file[pos..pos + n];
    }
    assert offset <= |file|;
    if size > realBytes {
      sent := sent + seq(size - realBytes, _ => 0); // sendPadding
    }
    assert sent == Padded(file, virtualSize)[offset..offset + size];
    return Some(sent);
  }

  /** A read of one byte behind the end of a file of one byte, inside an image of one block: no answer. */
  method ReadBehindEndExample(b: bv8, caps: seq<nat>) returns (out: Option<seq<bv8>>)
    ensures out == None && Padded([b], BLOCK_SIZE)[2..3] == [0]
  {
    out := SendPayload([b], BLOCK_SIZE, 2, 1, caps);
    assert Padded([b], BLOCK_SIZE)[2] == 0;
  }
}
