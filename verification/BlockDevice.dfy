/**
 The installer's device: a file read and written through a cache of one block, with an undo log.

 The meaning of a device is `Contents()`, a flat byte array: the disk with the cached block laid
 over it. Device failure is a read past the end.
 */
module BlockDevice {
  import opened ByteSeq
  import opened UndoLog

  const NO_BLOCK := 0xffff_ffff_ffff_ffff
  const LOG_MAX := 256
  const ADDRESS_LIMIT := 0x1_0000_0000_0000_0000

  function BlockOf(x: nat, b: nat): nat
    requires b > 0
  {
    x / b
  }

  function OffsetOf(x: nat, b: nat): (r: nat)
    requires b > 0
    ensures r < b
  {
    x % b
  }

  // Block number `block` of size b lies wholly on a disk of n bytes.
  predicate BlockExists(n: nat, b: nat, block: nat) {
    block * b + b <= n
  }

  // Every block that holds a byte of [loc, loc + count) lies wholly on the disk.
  predicate Reachable(n: nat, b: nat, loc: nat, count: nat)
    requires b > 0
  {
    count == 0 || BlockExists(n, b, BlockOf(loc + count - 1, b))
  }

  ghost function Overlay(disk: seq<bv8>, block: nat, cache: seq<bv8>): (r: seq<bv8>)
    ensures |r| == |disk|
  {
    if block != NO_BLOCK && BlockExists(|disk|, |cache|, block) then Splice(disk, block * |cache|, cache) else disk
  }

  // ---------- Blocks and bytes ----------

  lemma BlockMonotone(n: nat, b: nat, block: nat, later: nat)
    requires block <= later && BlockExists(n, b, later)
    ensures BlockExists(n, b, block)
  {
  }

  lemma DivMonotone(x: nat, y: nat, b: nat)
    requires b > 0 && x <= y
    ensures BlockOf(x, b) <= BlockOf(y, b)
  {
    var d: int := x / b - y / b;
    assert d * b == x - x % b - (y - y % b);
    assert d >= 1 ==> d * b >= b;
  }

  lemma QuotientIs(x: nat, b: nat, q: nat, r: nat)
    requires b > 0 && x == q * b + r && r < b
    ensures x / b == q && x % b == r
  {
    var d: int := q - x / b;
    assert d * b == x % b - r;
    assert d >= 1 ==> d * b >= b;
    assert d <= -1 ==> d * b <= 0 - b;
  }

  lemma SameBlock(x: nat, b: nat, k: nat)
    requires b > 0 && OffsetOf(x, b) + k < b
    ensures BlockOf(x + k, b) == BlockOf(x, b)
  {
    QuotientIs(x + k, b, x / b, x % b + k);
  }

  // Reading inside the cached block reads the contents.
  lemma CachedBytes(disk: seq<bv8>, cache: seq<bv8>, x: nat, chunk: nat)
    requires |cache| > 0 && BlockExists(|disk|, |cache|, BlockOf(x, |cache|)) && BlockOf(x, |cache|) != NO_BLOCK
    requires OffsetOf(x, |cache|) + chunk <= |cache|
    ensures x + chunk <= |disk|
    ensures cache[OffsetOf(x, |cache|)..OffsetOf(x, |cache|) + chunk] == Overlay(disk, BlockOf(x, |cache|), cache)[x..x + chunk]
  {
    assert x == BlockOf(x, |cache|) * |cache| + OffsetOf(x, |cache|);
  }

  // Writing inside the cached block splices the contents.
  lemma CachedWrite(disk: seq<bv8>, cache: seq<bv8>, x: nat, data: seq<bv8>)
    requires |cache| > 0 && BlockExists(|disk|, |cache|, BlockOf(x, |cache|)) && BlockOf(x, |cache|) != NO_BLOCK
    requires OffsetOf(x, |cache|) + |data| <= |cache|
    ensures x + |data| <= |disk|
    ensures Overlay(disk, BlockOf(x, |cache|), Splice(cache, OffsetOf(x, |cache|), data))
            == Splice(Overlay(disk, BlockOf(x, |cache|), cache), x, data)
  {
    assert x == BlockOf(x, |cache|) * |cache| + OffsetOf(x, |cache|);
  }

  class Device {
    const blockSize: nat
    const cache: array<bv8>
    const log: array<Undo>
    const reversed: array<Undo>
    var disk: seq<bv8>
    var cachedBlock: nat
    var dirty: bool
    var logged: nat
    var uninstalling: bool

    ghost predicate Shape()
      reads this, cache
    {
      && blockSize > 0 && cache.Length == blockSize && |disk| <= ADDRESS_LIMIT
      && log.Length == LOG_MAX && reversed.Length == LOG_MAX && logged <= LOG_MAX
      && log != reversed && (cache as object) != log && (cache as object) != reversed
      && (cachedBlock != NO_BLOCK ==> BlockExists(|disk|, blockSize, cachedBlock))
      && (dirty ==> cachedBlock != NO_BLOCK)
      && (!dirty ==> Contents() == disk)
    }

    ghost function Contents(): (s: seq<bv8>)
      reads this, cache
      ensures |s| == |disk|
    {
      Overlay(disk, cachedBlock, cache[..])
    }

    method FlushCache()
      requires Shape()
      modifies this`disk, this`dirty
      ensures Shape() && Contents() == old(Contents()) == disk && !dirty
      ensures old(Valid()) ==> Valid()
    {
      if !dirty { return; }
      disk := disk[..cachedBlock * blockSize] + cache[..] + disk[cachedBlock * blockSize + blockSize..];
      dirty := false;
    }

    method CacheBlock(block: nat) returns (ok: bool)
      requires Shape() && block < NO_BLOCK
      modifies this`disk, this`dirty, this`cachedBlock, cache
      ensures Shape() && Contents() == old(Contents())
      ensures ok == BlockExists(|disk|, blockSize, block)
      ensures ok ==> cachedBlock == block
      ensures disk == old(disk) || disk == old(Contents())
    {
      if cachedBlock == block { return true; }
      if dirty { FlushCache(); }
      cachedBlock := NO_BLOCK;
      if !BlockExists(|disk|, blockSize, block) {
        // A short read still fills the front of the cache.
        forall i | 0 <= i < blockSize && block * blockSize + i < |disk| { cache[i] := disk[block * blockSize + i]; }
        return false;
      }
      forall i | 0 <= i < blockSize { cache[i] := disk[block * blockSize + i]; }
      cachedBlock := block;
      assert cache[..] == disk[block * blockSize..block * blockSize + blockSize];
      return true;
    }

    // All or nothing only in its answer: a read past the end fails, and never changes the contents.
    method ReadRaw(loc: nat, count: nat) returns (ok: bool, data: seq<bv8>)
      requires Shape() && loc + count <= ADDRESS_LIMIT && blockSize > 1
      modifies this`disk, this`dirty, this`cachedBlock, cache
      ensures Shape() && Contents() == old(Contents())
      ensures ok == Reachable(|disk|, blockSize, loc, count)
      ensures ok ==> loc + count <= |disk| || count == 0
      ensures ok ==> data == if count == 0 then [] else Contents()[loc..loc + count]
      ensures disk == old(disk) || disk == old(Contents())
      ensures old(Valid()) ==> Valid()
    {
      hide BlockExists, BlockOf, OffsetOf, Overlay, Undoable, AllReachable;
      data := [];
      var progress := 0;
      while progress < count
        invariant progress <= count && Shape() && Contents() == old(Contents())
        invariant progress > 0 ==> BlockExists(|disk|, blockSize, BlockOf(loc + progress - 1, blockSize)) && loc + progress <= |disk|
        invariant data == if progress == 0 then [] else Contents()[loc..loc + progress]
        invariant disk == old(disk) || disk == old(Contents())
      {
        var x := loc + progress;
        var block := BlockOf(x, blockSize);
        BlockNumberSmall(x, blockSize);
        DivMonotone(x, loc + count - 1, blockSize);
        var cached := CacheBlock(block);
        if !cached {
          NotReachable(|disk|, blockSize, loc, count, block);
          return false, data;
        }
        var chunk := count - progress;
        var offset := OffsetOf(x, blockSize);
        if chunk > blockSize - offset { chunk := blockSize - offset; }
        CachedBytes(disk, cache[..], x, chunk);
        SameBlock(x, blockSize, chunk - 1);
        assert cache[offset..offset + chunk] == Contents()[x..x + chunk];
        assert Contents()[loc..x + chunk] == Contents()[loc..x] + Contents()[x..x + chunk];
        data := data + cache[offset..offset + chunk];
        progress := progress + chunk;
      }
      return true, data;
    }

    // ---------- Writing ----------

    // The write loop: how much of the buffer reached the contents is exact, also when a block is missing.
    method StoreBytes(buffer: seq<bv8>, loc: nat) returns (ok: bool)
      requires Shape() && loc + |buffer| <= ADDRESS_LIMIT && blockSize > 1
      modifies this`disk, this`dirty, this`cachedBlock, cache
      ensures Shape() && |disk| == old(|disk|)
      ensures ok == Reachable(|disk|, blockSize, loc, |buffer|)
      ensures ok && |buffer| > 0 ==> loc + |buffer| <= |disk| && Contents() == Splice(old(Contents()), loc, buffer)
      ensures |buffer| == 0 ==> Contents() == old(Contents())
      ensures exists k :: StoredPrefix(old(Contents()), Contents(), loc, buffer, k)
      ensures Mixed(disk, old(disk), old(Contents()), loc, |buffer|)
    {
      hide BlockExists, BlockOf, OffsetOf, Overlay, Splice, StoredPrefix, Mixed;
      var progress := 0;
      StoredNothing(disk, Contents(), loc, buffer);
      assert StoredPrefix(old(Contents()), Contents(), loc, buffer, 0);
      while progress < |buffer|
        invariant progress <= |buffer| && Shape() && |disk| == old(|disk|)
        invariant progress > 0 ==> BlockExists(|disk|, blockSize, BlockOf(loc + progress - 1, blockSize))
        invariant StoredPrefix(old(Contents()), Contents(), loc, buffer, progress)
        invariant Mixed(disk, old(disk), old(Contents()), loc, |buffer|)
      {
        var x := loc + progress;
        var block := BlockOf(x, blockSize);
        BlockNumberSmall(x, blockSize);
        DivMonotone(x, loc + |buffer| - 1, blockSize);
        ghost var disk0 := disk;
        var cached := CacheBlock(block);
        MixedAfterFlush(old(disk), old(Contents()), disk0, disk, Contents(), loc, buffer, progress);
        if !cached {
          NotReachable(|disk|, blockSize, loc, |buffer|, block);
          return false;
        }
        var chunk := |buffer| - progress;
        var offset := OffsetOf(x, blockSize);
        if chunk > blockSize - offset { chunk := blockSize - offset; }
        SameBlock(x, blockSize, chunk - 1);
        ghost var mid := Contents();
        WriteChunk(offset, buffer[progress..progress + chunk], x);
        MorePrefix(old(Contents()), mid, loc, buffer, progress, chunk);
        progress := progress + chunk;
      }
      StoredAll(old(Contents()), Contents(), loc, buffer);
      return true;
    }

    // One memcpy into the cached block.
    method WriteChunk(offset: nat, data: seq<bv8>, ghost x: nat)
      requires Shape() && cachedBlock != NO_BLOCK && cachedBlock == BlockOf(x, blockSize) && offset == OffsetOf(x, blockSize)
      requires offset + |data| <= blockSize
      modifies this`dirty, cache
      ensures Shape() && dirty && x + |data| <= |disk|
      ensures Contents() == Splice(old(Contents()), x, data)
    {
      hide BlockOf, OffsetOf, Overlay;
      ghost var before := cache[..];
      forall i | 0 <= i < |data| { cache[offset + i] := data[i]; }
      dirty := true;
      assert cache[..] == Splice(before, offset, data);
      CachedWrite(disk, before, x, data);
    }

    // ---------- The undo log ----------

    ghost var original: seq<bv8>

    ghost function Log(): (entries: seq<Undo>)
      requires logged <= log.Length
      reads this, log
    {
      log[..logged]
    }

    // Every write so far can be undone, from the contents and from whatever the disk holds.
    ghost predicate Valid()
      reads this, cache, log
    {
      && Shape() && !uninstalling && blockSize > 1
      && Undoable(original, Contents(), Log()) && Undoable(original, disk, Log())
      && AllReachable(|disk|, blockSize, Log())
    }

    // device_init reads block 0 to find the block size.
    constructor (contents: seq<bv8>, size: nat)
      requires 1 < size <= |contents| <= ADDRESS_LIMIT
      ensures Valid() && Contents() == disk == original == contents && Log() == [] && blockSize == size
      ensures fresh(cache) && fresh(log) && fresh(reversed)
    {
      hide Overlay, BlockExists, Undoable;
      blockSize := size;
      var block := new bv8[size](i requires 0 <= i < size <= |contents| => contents[i]);
      cache := block;
      log := new Undo[LOG_MAX](_ => Undo([], 0));
      reversed := new Undo[LOG_MAX](_ => Undo([], 0));
      disk := contents;
      cachedBlock, dirty, logged, uninstalling := 0, false, 0, false;
      original := contents;
      new;
      StartsClean(contents, cache[..]);
    }

    // A write: outside uninstalling, the replaced bytes are saved first.
    method WriteRaw(buffer: seq<bv8>, loc: nat) returns (ok: bool)
      requires Shape() && blockSize > 1 && 0 < |buffer| && loc + |buffer| <= ADDRESS_LIMIT
      modifies this`disk, this`dirty, this`cachedBlock, this`logged, cache, log
      ensures Shape() && |disk| == old(|disk|)
      ensures ok == ((uninstalling || old(logged) < LOG_MAX) && Reachable(|disk|, blockSize, loc, |buffer|))
      ensures ok ==> loc + |buffer| <= |disk| && Contents() == Splice(old(Contents()), loc, buffer)
      ensures !ok && !uninstalling ==> Contents() == old(Contents())
      ensures Log() == if ok && !uninstalling then old(Log()) + [Undo(old(Contents()[loc..loc + |buffer|]), loc)] else old(Log())
      ensures ok || uninstalling ==> Mixed(disk, old(disk), old(Contents()), loc, |buffer|)
      ensures uninstalling ==> unchanged(log)
      ensures old(Valid()) ==> Valid()
    {
      hide BlockExists, BlockOf, Overlay, Splice, Undoable, Mixed;
      if !uninstalling {
        if logged >= LOG_MAX { return false; }
        var read, saved := ReadRaw(loc, |buffer|);
        if !read { return false; }
        log[logged] := Undo(saved, loc);
      }
      ghost var disk0, contents0 := disk, Contents();
      ok := StoreBytes(buffer, loc);
      MixedTwice(old(disk), disk0, disk, contents0, loc, |buffer|);
      if !uninstalling {
        logged := logged + 1;
        if old(Valid()) {
          WriteUndoable(original, contents0, disk0, disk, old(Log()), loc, buffer);
        }
      }
    }

    // In-place reversal through the second array.
    method ReverseLog()
      requires Shape()
      modifies log, reversed
      ensures Shape() && Log() == Reversed(old(Log()))
    {
      var i := 0;
      while i < logged
        invariant i <= logged
        invariant log[..] == old(log[..])
        invariant forall k :: 0 <= k < i ==> reversed[logged - 1 - k] == log[k]
      {
        reversed[logged - 1 - i] := log[i];
        i := i + 1;
      }
      ghost var entries := Log();
      forall k | 0 <= k < logged { log[k] := reversed[k]; }
      forall k | 0 <= k < logged
        ensures log[k] == Reversed(entries)[k]
      {
        assert reversed[logged - 1 - (logged - 1 - k)] == entries[logged - 1 - k];
      }
      assert Log() == Reversed(entries);
    }

    // Drops the cached block, dirty or not, and replays the log onto the disk. An entry that does
    // not reach is tried twice.
    method Uninstall() returns (ok: bool)
      requires Shape() && blockSize > 1
      requires Bounded(Log())
      modifies this`disk, this`dirty, this`cachedBlock, this`logged, this`uninstalling, cache, log
      ensures Shape() && Contents() == disk && |disk| == old(|disk|)
      ensures ok == AllReachable(|disk|, blockSize, old(Log()))
      ensures ok ==> Fits(old(Log()), |disk|) && disk == Replay(old(disk), old(Log()))
    {
      hide BlockExists, BlockOf, Overlay, Reachable, Replay, Splice, Mixed;
      ghost var entries := Log();
      uninstalling := true;
      DropCache();
      ok := true;
      var i := 0;
      assert Replay(disk, entries[..0]) == disk by { ReplayNothing(disk); }
      while i < logged
        invariant i <= logged == |entries| && Shape() && uninstalling && Log() == entries && |disk| == old(|disk|)
        invariant ok == AllReachable(|disk|, blockSize, entries[..i])
        invariant ok ==> Fits(entries[..i], |disk|) && Contents() == Replay(old(disk), entries[..i])
      {
        var written := WriteRaw(log[i].data, log[i].loc);
        if !written {
          FlushCache();
          DropCache();
          written := WriteRaw(log[i].data, log[i].loc);
          if !written { ok := false; }
        }
        ReplayStep(old(disk), entries, i);
        i := i + 1;
      }
      FlushCache();
      assert entries[..i] == entries;
    }

    method DropCache()
      requires Shape()
      modifies this`dirty, this`cachedBlock
      ensures Shape() && Contents() == disk && cachedBlock == NO_BLOCK
    {
      dirty := false;
      cachedBlock := NO_BLOCK;
    }

    // The failure path of an install: whatever was written, cached or flushed, the disk is the
    // original again, byte for byte.
    method Rollback() returns (ok: bool)
      requires Valid()
      modifies this`disk, this`dirty, this`cachedBlock, this`logged, this`uninstalling, cache, log, reversed
      ensures ok && disk == original == old(original) && Contents() == disk
    {
      hide Undoable, Overlay, BlockExists, AllReachable, Bounded, Replay, Fits;
      UndoRestores(original, disk, Log());
      ReachableReversed(|disk|, blockSize, Log());
      ReverseLog();
      ok := Uninstall();
    }
  }

  lemma ReachableReversed(n: nat, b: nat, log: seq<Undo>)
    requires b > 0 && AllReachable(n, b, log)
    ensures AllReachable(n, b, Reversed(log)) && Bounded(Reversed(log))
  {
  }

  lemma ReplayNothing(s: seq<bv8>)
    ensures Replay(s, []) == s
  {
  }

  lemma ReplayStep(s: seq<bv8>, entries: seq<Undo>, i: nat)
    requires i < |entries|
    ensures entries[..i + 1] == entries[..i] + [entries[i]]
    ensures Fits(entries[..i], |s|) && entries[i].loc + |entries[i].data| <= |s| ==>
              Fits(entries[..i + 1], |s|) &&
              Replay(s, entries[..i + 1]) == Splice(Replay(s, entries[..i]), entries[i].loc, entries[i].data)
  {
    if Fits(entries[..i], |s|) && entries[i].loc + |entries[i].data| <= |s| {
      ReplayAppend(s, entries[..i], entries[i]);
      assert entries[..i + 1] == entries[..i] + [entries[i]];
    }
  }

  lemma MixedTwice(disk0: seq<bv8>, disk1: seq<bv8>, disk2: seq<bv8>, contents: seq<bv8>, loc: nat, n: nat)
    requires |disk0| == |contents| && (disk1 == disk0 || disk1 == contents) && Mixed(disk2, disk1, contents, loc, n)
    ensures Mixed(disk2, disk0, contents, loc, n)
  {
  }

  // After a logged write both the new contents and the new disk can be undone.
  lemma WriteUndoable(original: seq<bv8>, contents: seq<bv8>, disk: seq<bv8>, disk': seq<bv8>, log: seq<Undo>,
                      loc: nat, data: seq<bv8>)
    requires Undoable(original, contents, log) && Undoable(original, disk, log) && loc + |data| <= |contents|
    requires Mixed(disk', disk, contents, loc, |data|)
    ensures var log' := log + [Undo(contents[loc..loc + |data|], loc)];
            Undoable(original, Splice(contents, loc, data), log') && Undoable(original, disk', log')
  {
    var e := Undo(contents[loc..loc + |data|], loc);
    LogBeforeWrite(original, contents, disk, log, loc, data);
    forall x | 0 <= x < |original|
      ensures Oldest(log + [e], x, disk'[x]) == original[x]
    {
      OldestAppend(log, e, x, disk'[x]);
      assert Covers(e, x) ==> e.data[x - loc] == contents[x];
    }
  }

  lemma StartsClean(contents: seq<bv8>, block: seq<bv8>)
    requires 1 < |block| <= |contents| && block == contents[..|block|]
    ensures Overlay(contents, 0, block) == contents && BlockExists(|contents|, |block|, 0)
    ensures Undoable(contents, contents, [])
  {
  }

  // Non-empty entries within the address space.
  ghost predicate Bounded(entries: seq<Undo>) {
    forall i :: 0 <= i < |entries| ==> 0 < |entries[i].data| && entries[i].loc + |entries[i].data| <= ADDRESS_LIMIT
  }

  ghost predicate AllReachable(n: nat, b: nat, entries: seq<Undo>)
    requires b > 0
  {
    forall i :: 0 <= i < |entries| ==>
                  && 0 < |entries[i].data| && entries[i].loc + |entries[i].data| <= ADDRESS_LIMIT
                  && Reachable(n, b, entries[i].loc, |entries[i].data|)
  }

  // The first k bytes of the buffer are in place and nothing else has changed.
  ghost predicate StoredPrefix(before: seq<bv8>, after: seq<bv8>, loc: nat, buffer: seq<bv8>, k: nat) {
    && k <= |buffer|
    && (if k == 0 then after == before
        else loc + k <= |before| && after == Splice(before, loc, buffer[..k]))
  }

  // Outside [loc, loc + n) every byte of the disk is one of two old bytes.
  ghost predicate Mixed(disk': seq<bv8>, disk: seq<bv8>, contents: seq<bv8>, loc: nat, n: nat) {
    && |disk'| == |disk| == |contents|
    && forall x :: 0 <= x < |disk| && !(loc <= x < loc + n) ==> disk'[x] == disk[x] || disk'[x] == contents[x]
  }

  lemma StoredNothing(disk: seq<bv8>, contents: seq<bv8>, loc: nat, buffer: seq<bv8>)
    requires |disk| == |contents|
    ensures StoredPrefix(contents, contents, loc, buffer, 0) && Mixed(disk, disk, contents, loc, |buffer|)
  {
  }

  lemma StoredAll(before: seq<bv8>, after: seq<bv8>, loc: nat, buffer: seq<bv8>)
    requires StoredPrefix(before, after, loc, buffer, |buffer|)
    ensures if |buffer| == 0 then after == before else loc + |buffer| <= |before| && after == Splice(before, loc, buffer)
  {
  }

  lemma MixedAfterFlush(disk: seq<bv8>, contents: seq<bv8>, disk1: seq<bv8>, disk2: seq<bv8>, now: seq<bv8>,
                        loc: nat, buffer: seq<bv8>, k: nat)
    requires Mixed(disk1, disk, contents, loc, |buffer|) && StoredPrefix(contents, now, loc, buffer, k)
    requires disk2 == disk1 || disk2 == now
    ensures Mixed(disk2, disk, contents, loc, |buffer|)
  {
  }

  lemma MorePrefix(before: seq<bv8>, mid: seq<bv8>, loc: nat, buffer: seq<bv8>, k: nat, n: nat)
    requires StoredPrefix(before, mid, loc, buffer, k) && n > 0
    requires k + n <= |buffer| && loc + k + n <= |mid|
    ensures StoredPrefix(before, Splice(mid, loc + k, buffer[k..k + n]), loc, buffer, k + n)
  {
  }

  lemma BlockNumberSmall(x: nat, b: nat)
    requires b > 1 && x < ADDRESS_LIMIT
    ensures BlockOf(x, b) < NO_BLOCK
  {
  }

  lemma NotReachable(n: nat, b: nat, loc: nat, count: nat, block: nat)
    requires b > 0 && count > 0 && block <= BlockOf(loc + count - 1, b) && !BlockExists(n, b, block)
    ensures !Reachable(n, b, loc, count)
  {
  }
}
