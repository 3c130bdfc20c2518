/**
 The conversion of a GUID partition table to an MBR, carried out on a device: which alternate tables
 are erased, in what order things happen, and what is where afterwards.
 */
module GptConversion {
  import opened Options
  import opened UndoLog
  import opened BlockDevice
  import opened GptToMbr
  import opened BootRecords
  import opened GptTables

  const HEADER_BYTES := 96
  const SIGNATURE: seq<bv8> := [0x45, 0x46, 0x49, 0x20, 0x50, 0x41, 0x52, 0x54]

  // ---------- The end of the device ----------

  method BlockPresent(dev: Device, lb: nat, block: nat) returns (there: bool)
    requires dev.Valid() && BlockSize(lb)
    modifies dev`disk, dev`dirty, dev`cachedBlock, dev.cache
    ensures dev.Valid() && dev.Contents() == old(dev.Contents()) && |dev.disk| == old(|dev.disk|)
    ensures there == Present(|dev.disk|, dev.blockSize, lb, block)
  {
    hide BlockExists, BlockOf, Overlay, Undoable;
    if block * lb + lb - 1 >= WORD {
      return false;
    }
    ghost var c := dev.Contents();
    var data;
    there, data := dev.ReadRaw(block * lb + lb - 1, 1);
    assert |dev.Contents()| == |c|;
  }

  ghost predicate LastIs(n: nat, b: nat, lb: nat, r: Option<nat>)
    requires b > 0 && lb > 0
  {
    && (r.None? <==> !Present(n, b, lb, 0))
    && (r.Some? ==> forall block: nat :: Present(n, b, lb, block) <==> block <= r.value)
  }

  // Doubling, then bisection: the one block that is present while its successor is not.
  method LastBlock(dev: Device, lb: nat) returns (r: Option<nat>)
    requires dev.Valid() && BlockSize(lb)
    modifies dev`disk, dev`dirty, dev`cachedBlock, dev.cache
    ensures dev.Valid() && dev.Contents() == old(dev.Contents()) && |dev.disk| == old(|dev.disk|)
    ensures LastIs(|dev.disk|, dev.blockSize, lb, r)
  {
    hide Present, Device.Valid;
    ghost var n, b := |dev.disk|, dev.blockSize;
    ghost var c := dev.Contents();
    assert b > 0 by { SomeBlocks(dev); }
    var there := BlockPresent(dev, lb, 0);
    if !there { return None; }
    var lo: nat, hi: nat := 0, 1;
    there := BlockPresent(dev, lb, hi);
    while there
      invariant dev.Valid() && |dev.disk| == n && dev.Contents() == c && there == Present(n, b, lb, hi)
      invariant lo < hi < WORD && Present(n, b, lb, lo) && (hi == 1 || hi == 2 * lo)
      decreases if there then 1 else 0, WORD - hi
    {
      PresentBounded(n, b, lb, hi);
      lo := hi;
      hi := hi * 2;
      there := BlockPresent(dev, lb, hi);
    }
    while lo + 1 < hi
      invariant dev.Valid() && |dev.disk| == n && dev.Contents() == c
      invariant lo < hi && Present(n, b, lb, lo) && !Present(n, b, lb, hi)
    {
      var mid := lo + (hi - lo) / 2;
      there := BlockPresent(dev, lb, mid);
      if there { lo := mid; } else { hi := mid; }
    }
    LastFound(n, b, lb, lo);
    return Some(lo);
  }

  lemma LastFound(n: nat, b: nat, lb: nat, lo: nat)
    requires b > 0 && lb > 0 && Present(n, b, lb, lo) && !Present(n, b, lb, lo + 1)
    ensures LastIs(n, b, lb, Some(lo))
  {
    hide Present;
    forall block: nat
      ensures Present(n, b, lb, block) <==> block <= lo
    {
      if block <= lo { PresentMonotone(n, b, lb, block, lo); }
      else if Present(n, b, lb, block) { PresentMonotone(n, b, lb, lo + 1, block); }
    }
    PresentMonotone(n, b, lb, 0, lo);
  }

  // ---------- The alternates ----------

  // The alternate the header names, or the header itself when it was read from there, and the last
  // block of the device.
  function Chosen(fromAlternate: bool, headerLba: nat, alternate: nat, last: Option<nat>, lb: nat): (r: seq<nat>)
    requires lb > 0
    ensures |r| <= 2
  {
    var a := if fromAlternate then [headerLba] else if alternate >= AltReserve(lb) then [alternate] else [];
    if last.Some? && last.value >= AltReserve(lb) && (a == [] || a[0] != last.value) then a + [last.value] else a
  }

  // A header is there: the block can be read and starts with the signature.
  predicate Signed(c: seq<bv8>, b: nat, lb: nat, alt: nat)
    requires b > 0
  {
    && alt * lb < WORD && Reachable(|c|, b, alt * lb, HEADER_BYTES)
    && alt * lb + HEADER_BYTES <= |c| && c[alt * lb..alt * lb + 8] == SIGNATURE
  }

  method Probe(dev: Device, lb: nat, alt: nat) returns (signed: bool)
    requires dev.Valid() && BlockSize(lb)
    modifies dev`disk, dev`dirty, dev`cachedBlock, dev.cache
    ensures dev.Valid() && dev.Contents() == old(dev.Contents()) && |dev.disk| == old(|dev.disk|)
    ensures signed == Signed(dev.Contents(), dev.blockSize, lb, alt)
  {
    hide BlockExists, BlockOf, Overlay, Undoable;
    if alt * lb >= WORD {
      return false;
    }
    BlockEnds(lb, alt);
    ghost var c := dev.Contents();
    var ok, data := dev.ReadRaw(alt * lb, HEADER_BYTES);
    assert |dev.Contents()| == |c|;
    if !ok {
      return false;
    }
    signed := data[..8] == SIGNATURE;
    assert dev.Contents()[alt * lb..alt * lb + HEADER_BYTES][..8] == dev.Contents()[alt * lb..alt * lb + 8];
  }

  // The chosen alternates, each with whether a header is there.
  ghost function Alternates(c: seq<bv8>, b: nat, lb: nat, chosen: seq<nat>): (r: seq<Alternate>)
    requires b > 0
    ensures |r| == |chosen| && forall i :: 0 <= i < |r| ==> r[i] == Alternate(chosen[i], Signed(c, b, lb, chosen[i]))
  {
    seq(|chosen|, i requires 0 <= i < |chosen| => Alternate(chosen[i], Signed(c, b, lb, chosen[i])))
  }

  lemma SignedWords(c: seq<bv8>, b: nat, lb: nat, chosen: seq<nat>)
    requires b > 0 && lb > 0
    ensures var all := Alternates(c, b, lb, chosen); forall i :: 0 <= i < |all| && all[i].signed ==> all[i].lba < WORD
  {
    forall i | 0 <= i < |chosen| && Signed(c, b, lb, chosen[i])
      ensures chosen[i] < WORD
    {
      Scaled(1, lb, chosen[i]);
    }
  }

  // No header that is there lies in the usable range.
  predicate Settled(alternates: seq<Alternate>, lastUsable: nat) {
    forall i :: 0 <= i < |alternates| && alternates[i].signed ==> lastUsable < alternates[i].lba
  }

  // Decides every erase before the first write.
  method Settle(dev: Device, lb: nat, chosen: seq<nat>, lastUsable: nat) returns (ok: bool, alternates: seq<Alternate>)
    requires dev.Valid() && BlockSize(lb)
    modifies dev`disk, dev`dirty, dev`cachedBlock, dev.cache
    ensures dev.Valid() && dev.Contents() == old(dev.Contents()) && |dev.disk| == old(|dev.disk|) && dev.blockSize > 0
    ensures ok == Settled(Alternates(dev.Contents(), dev.blockSize, lb, chosen), lastUsable)
    ensures ok ==> alternates == Alternates(dev.Contents(), dev.blockSize, lb, chosen)
  {
    hide Device.Valid, Signed;
    SomeBlocks(dev);
    ghost var all := Alternates(dev.Contents(), dev.blockSize, lb, chosen);
    alternates := [];
    var i := 0;
    while i < |chosen|
      invariant i <= |chosen| && dev.Valid() && dev.Contents() == old(dev.Contents()) && |dev.disk| == old(|dev.disk|)
      invariant alternates == all[..i] && forall j :: 0 <= j < i && all[j].signed ==> lastUsable < all[j].lba
    {
      var signed := Probe(dev, lb, chosen[i]);
      assert all[i] == Alternate(chosen[i], signed);
      if signed && lastUsable >= chosen[i] {
        return false, alternates;
      }
      alternates := alternates + [Alternate(chosen[i], signed)];
      i := i + 1;
    }
    ok := true;
  }

  // ---------- Erasing ----------

  ghost function Erasure(c: seq<bv8>, lb: nat, firstUsable: nat, lastUsable: nat, alternates: seq<Alternate>): (r: seq<bv8>)
    requires lb > 0
    ensures |r| == |c|
    ensures forall x :: 0 <= x < |c| ==> r[x] == if Erased(lb, firstUsable, lastUsable, alternates, x / lb) then 0 else c[x]
  {
    seq(|c|, x requires 0 <= x < |c| => if Erased(lb, firstUsable, lastUsable, alternates, x / lb) then 0 else c[x])
  }

  lemma Scaled(a: nat, b: nat, lb: nat)
    requires a <= b
    ensures a * lb <= b * lb
  {
  }

  lemma AtOrAfter(lb: nat, m: nat, x: nat)
    requires lb > 0
    ensures m * lb <= x <==> m <= x / lb
  {
    var q := x / lb;
    assert x == q * lb + x % lb;
    if m <= q { Scaled(m, q, lb); } else { Scaled(q + 1, m, lb); }
  }

  lemma InBlocks(lb: nat, lo: nat, hi: nat, x: nat)
    requires lb > 0
    ensures lo * lb <= x < hi * lb <==> lo <= x / lb < hi
  {
    AtOrAfter(lb, lo, x);
    AtOrAfter(lb, hi, x);
  }

  lemma WipedByBlock(c: seq<bv8>, lb: nat, lo: nat, hi: nat)
    requires lb > 0
    ensures |Wiped(c, lb, lo, hi)| == |c|
    ensures forall x :: 0 <= x < |c| ==> Wiped(c, lb, lo, hi)[x] == if lo <= x / lb < hi then 0 else c[x]
  {
    forall x | 0 <= x < |c|
      ensures Wiped(c, lb, lo, hi)[x] == if lo <= x / lb < hi then 0 else c[x]
    {
      InBlocks(lb, lo, hi, x);
    }
  }

  lemma ErasePrimary(c: seq<bv8>, lb: nat, firstUsable: nat, lastUsable: nat)
    requires BlockSize(lb)
    ensures Wiped(c, lb, 0, PrimaryReserve(lb, firstUsable)) == Erasure(c, lb, firstUsable, lastUsable, [])
  {
    hide PrimaryReserve, InPrimary, InAlternate, Wiped;
    WipedByBlock(c, lb, 0, PrimaryReserve(lb, firstUsable));
    forall x | 0 <= x < |c|
      ensures x / lb < PrimaryReserve(lb, firstUsable) <==> InPrimary(lb, firstUsable, x / lb)
    {
      PrimaryExact(lb, firstUsable, x / lb);
    }
  }

  lemma EraseAlternate(c: seq<bv8>, lb: nat, firstUsable: nat, lastUsable: nat, alternates: seq<Alternate>, i: nat)
    requires BlockSize(lb) && i < |alternates| && (alternates[i].signed ==> alternates[i].lba < WORD)
    ensures var r := Erasure(c, lb, firstUsable, lastUsable, alternates[..i]);
            Erasure(c, lb, firstUsable, lastUsable, alternates[..i + 1]) ==
            if alternates[i].signed then Wiped(r, lb, AltFirst(lb, alternates[i].lba, lastUsable), alternates[i].lba + 1) else r
  {
    hide AltFirst, InAlternate, Erased, Wiped;
    ErasedStep(lb, firstUsable, lastUsable, alternates, i);
    var r := Erasure(c, lb, firstUsable, lastUsable, alternates[..i]);
    var after := Erasure(c, lb, firstUsable, lastUsable, alternates[..i + 1]);
    if alternates[i].signed {
      var lo, hi := AltFirst(lb, alternates[i].lba, lastUsable), alternates[i].lba + 1;
      WipedByBlock(r, lb, lo, hi);
      forall x | 0 <= x < |c|
        ensures lo <= x / lb < hi <==> InAlternate(lb, lastUsable, alternates[i].lba, x / lb)
      {
        AlternateExact(lb, lastUsable, alternates[i].lba, x / lb);
      }
      assert after == Wiped(r, lb, lo, hi);
    } else {
      assert after == r;
    }
  }

  lemma PrimaryErased(lb: nat, firstUsable: nat, lastUsable: nat, alternates: seq<Alternate>)
    requires BlockSize(lb)
    ensures forall k: nat :: k < PrimaryReserve(lb, firstUsable) ==> Erased(lb, firstUsable, lastUsable, alternates, k)
  {
    hide PrimaryReserve, InPrimary, InAlternate;
    forall k: nat | k < PrimaryReserve(lb, firstUsable)
      ensures InPrimary(lb, firstUsable, k)
    {
      PrimaryExact(lb, firstUsable, k);
    }
  }

  lemma SignedErased(lb: nat, firstUsable: nat, lastUsable: nat, alternates: seq<Alternate>, i: nat)
    requires BlockSize(lb) && i < |alternates| && alternates[i].signed && alternates[i].lba < WORD
    ensures forall k: nat :: AltFirst(lb, alternates[i].lba, lastUsable) <= k <= alternates[i].lba ==>
                               Erased(lb, firstUsable, lastUsable, alternates, k)
  {
    hide AltFirst, InPrimary, InAlternate;
    forall k: nat | AltFirst(lb, alternates[i].lba, lastUsable) <= k <= alternates[i].lba
      ensures InAlternate(lb, lastUsable, alternates[i].lba, k)
    {
      AlternateExact(lb, lastUsable, alternates[i].lba, k);
    }
  }

  // Some block to erase is not on the device.
  ghost predicate Short(n: nat, b: nat, lb: nat, firstUsable: nat, lastUsable: nat, alternates: seq<Alternate>) {
    b > 0 && lb > 0 && exists k :: 0 <= k && Erased(lb, firstUsable, lastUsable, alternates, k) && !Present(n, b, lb, k)
  }

  lemma ShortBy(n: nat, b: nat, lb: nat, firstUsable: nat, lastUsable: nat, alternates: seq<Alternate>, lo: nat, hi: nat)
    requires b > 0 && lb > 0 && forall k: nat :: lo <= k < hi ==> Erased(lb, firstUsable, lastUsable, alternates, k)
    requires exists k :: lo <= k < hi && !Present(n, b, lb, k)
    ensures Short(n, b, lb, firstUsable, lastUsable, alternates)
  {
    hide Erased, Present;
  }

  // Zeroes the reserve of the primary table and those of the alternates that are there.
  method Erase(dev: Device, lb: nat, firstUsable: nat, lastUsable: nat, alternates: seq<Alternate>) returns (ok: bool)
    requires dev.Valid() && BlockSize(lb)
    requires forall i :: 0 <= i < |alternates| && alternates[i].signed ==> alternates[i].lba < WORD
    modifies dev`disk, dev`dirty, dev`cachedBlock, dev`logged, dev.cache, dev.log
    ensures dev.Valid() && |dev.disk| == old(|dev.disk|)
    ensures ok ==> dev.Contents() == Erasure(old(dev.Contents()), lb, firstUsable, lastUsable, alternates)
    ensures !ok ==> dev.logged >= LOG_MAX || Short(|dev.disk|, dev.blockSize, lb, firstUsable, lastUsable, alternates)
  {
    hide Device.Valid, Erased, Wiped, PrimaryReserve, AltFirst;
    ghost var c := dev.Contents();
    SomeBlocks(dev);
    ok := WipeBlocks(dev, lb, 0, PrimaryReserve(lb, firstUsable));
    if !ok {
      if dev.logged < LOG_MAX {
        PrimaryErased(lb, firstUsable, lastUsable, alternates);
        ShortBy(|dev.disk|, dev.blockSize, lb, firstUsable, lastUsable, alternates, 0, PrimaryReserve(lb, firstUsable));
      }
      return;
    }
    ErasePrimary(c, lb, firstUsable, lastUsable);
    var i := 0;
    while i < |alternates|
      invariant i <= |alternates| && dev.Valid() && |dev.disk| == old(|dev.disk|)
      invariant dev.Contents() == Erasure(c, lb, firstUsable, lastUsable, alternates[..i])
    {
      EraseAlternate(c, lb, firstUsable, lastUsable, alternates, i);
      if alternates[i].signed {
        ok := WipeBlocks(dev, lb, AltFirst(lb, alternates[i].lba, lastUsable), alternates[i].lba + 1);
        if !ok {
          if dev.logged < LOG_MAX {
            SignedErased(lb, firstUsable, lastUsable, alternates, i);
            ShortBy(|dev.disk|, dev.blockSize, lb, firstUsable, lastUsable, alternates,
                    AltFirst(lb, alternates[i].lba, lastUsable), alternates[i].lba + 1);
          }
          return;
        }
      }
      i := i + 1;
    }
    assert alternates[..i] == alternates;
    ok := true;
  }

  // ---------- The conversion ----------

  datatype Outcome = Converted | Kept | TooLow | Overlapping | Failed

  // The partitions of the table, in sectors, as the contents of the device say them.
  ghost predicate Reads(c: seq<bv8>, entries: seq<GptEntry>, lb: nat) {
    && |Used(entries)| <= 4 && MBR <= |c|
    && forall i :: 0 <= i < |Used(entries)| ==>
                     && Converts(ReadEntry(c, i), Used(entries)[i], lb)
                     && Describes(c[446 + 16 * i..462 + 16 * i], ReadEntry(c, i))
  }

  // Some partition starts inside the sectors the boot loader takes.
  ghost predicate Low(entries: seq<GptEntry>, lb: nat) {
    exists i :: 0 <= i < |Used(entries)| && Used(entries)[i].start * lb < 63 * SECTOR
  }

  predicate LowParts(parts: seq<Partition>) {
    exists i :: 0 <= i < |parts| && parts[i].start < 63
  }

  lemma LowIff(parts: seq<Partition>, entries: seq<GptEntry>, lb: nat)
    requires |parts| == |Used(entries)| && forall i :: 0 <= i < |parts| ==> Converts(parts[i], Used(entries)[i], lb)
    ensures LowParts(parts) <==> Low(entries, lb)
  {
    hide Used;
    if i :| 0 <= i < |parts| && parts[i].start < 63 {
      assert Used(entries)[i].start * lb < 63 * SECTOR;
    }
    if i :| 0 <= i < |Used(entries)| && Used(entries)[i].start * lb < 63 * SECTOR {
      assert parts[i].start < 63;
    }
  }

  lemma ConvertsWritable(parts: seq<Partition>, used: seq<GptEntry>, lb: nat)
    requires |parts| == |used| && forall i :: 0 <= i < |parts| ==> Converts(parts[i], used[i], lb)
    ensures forall p :: p in parts ==> Writable(p)
  {
  }

  ghost predicate Chose(alternates: seq<Alternate>, c: seq<bv8>, b: nat, lb: nat, h: Header)
    requires b > 0 && lb > 0
  {
    exists last :: LastIs(|c|, b, lb, last) && alternates == Alternates(c, b, lb, Chosen(h.fromAlternate, h.lba, h.alternate, last, lb))
  }

  lemma ChoseBy(last: Option<nat>, c: seq<bv8>, b: nat, lb: nat, h: Header)
    requires b > 0 && lb > 0 && LastIs(|c|, b, lb, last)
    ensures Chose(Alternates(c, b, lb, Chosen(h.fromAlternate, h.lba, h.alternate, last, lb)), c, b, lb, h)
  {
    hide LastIs, Chosen;
  }

  // After a conversion of `c`: the reserves are zero, the record names the partitions, and every
  // other byte is as it was; unless the usable blocks start at block 0, where the record goes, so is
  // every byte of the usable blocks.
  ghost predicate IsConverted(c': seq<bv8>, c: seq<bv8>, lb: nat, h: Header, entries: seq<GptEntry>, alternates: seq<Alternate>)
    requires lb > 0
  {
    && |c'| == |c| && Reads(c', entries, lb) && c'[510..MBR] == [0x55, 0xaa]
    && (forall x :: 0 <= x < |c| && !Owned(x, |Used(entries)|) ==>
          c'[x] == if Erased(lb, h.firstUsable, h.lastUsable, alternates, x / lb) then 0 else c[x])
    && (forall x :: 0 <= x < |c| && !Owned(x, |Used(entries)|) && h.firstUsable <= x / lb <= h.lastUsable ==> c'[x] == c[x])
    && (h.firstUsable > 0 && lb >= MBR ==> forall x :: 0 <= x < |c| && h.firstUsable <= x / lb <= h.lastUsable ==> c'[x] == c[x])
  }

  lemma UsableBehind(lb: nat, n: nat, x: nat, first: nat)
    requires lb >= MBR && n <= 4 && first > 0 && first <= x / lb
    ensures !Owned(x, n)
  {
    AtOrAfter(lb, first, x);
    Scaled(1, first, lb);
  }

  // A header that calls block 0 usable: the signature of the record lands in a usable block, and
  // changes it exactly when those bytes were others.
  lemma UsableFromZero(c: seq<bv8>, c': seq<bv8>, lb: nat, h: Header, entries: seq<GptEntry>, alternates: seq<Alternate>)
    requires BlockSize(lb) && h.firstUsable == 0 && IsConverted(c', c, lb, h, entries, alternates)
    ensures 510 / lb == 511 / lb == 0 && |c| >= MBR && (c'[510..MBR] == c[510..MBR] <==> c[510..MBR] == [0x55, 0xaa])
  {
    hide Reads, Erased, Used;
    RecordThere(c', entries, lb);
  }

  lemma RecordThere(c: seq<bv8>, entries: seq<GptEntry>, lb: nat)
    requires Reads(c, entries, lb)
    ensures MBR <= |c|
  {
  }

  lemma RecordConverts(c: seq<bv8>, id: seq<bv8>, parts: seq<Partition>, lb: nat, h: Header, entries: seq<GptEntry>, alternates: seq<Alternate>)
    requires lb > 0 && |id| == 4 && |parts| == |Used(entries)| <= 4 && MBR <= |c| && h.lastUsable < WORD
    requires forall i :: 0 <= i < |parts| ==> Converts(parts[i], Used(entries)[i], lb)
    requires forall p :: p in parts ==> Writable(p)
    ensures IsConverted(BootRecord(Erasure(c, lb, h.firstUsable, h.lastUsable, alternates), id, parts), c, lb, h, entries, alternates)
    ensures BootRecord(Erasure(c, lb, h.firstUsable, h.lastUsable, alternates), id, parts)[440..444] == id
  {
    hide Erased, BootRecord, Converts, Used, ReadEntry, Describes;
    BootRecordRead(Erasure(c, lb, h.firstUsable, h.lastUsable, alternates), id, parts);
    forall x | 0 <= x < |c| && h.firstUsable <= x / lb <= h.lastUsable
      ensures !Erased(lb, h.firstUsable, h.lastUsable, alternates, x / lb)
      ensures h.firstUsable > 0 && lb >= MBR ==> !Owned(x, |Used(entries)|)
    {
      UsableSpared(lb, h.firstUsable, h.lastUsable, alternates, x / lb);
      if h.firstUsable > 0 && lb >= MBR { UsableBehind(lb, |Used(entries)|, x, h.firstUsable); }
    }
  }

  // Reads and gathers the partitions, settles the erases, and only then writes. The outcomes that stop
  // before the first write leave the contents as they were; after a failure the log still undoes
  // everything.
  method Convert(dev: Device, lb: nat, h: Header, id: seq<bv8>) returns (r: Outcome, alternates: seq<Alternate>)
    requires dev.Valid() && BlockSize(lb) && |id| == 4 && h.lastUsable < WORD
    modifies dev`disk, dev`dirty, dev`cachedBlock, dev`logged, dev.cache, dev.log
    ensures dev.Valid() && |dev.disk| == old(|dev.disk|) && dev.blockSize > 0
    ensures r.Kept? <==> && Reachable(|dev.disk|, dev.blockSize, ISO_AT, 5)
                         && (!IsIso(old(dev.Contents())) || Unsuitable(old(dev.Contents()), dev.blockSize, lb, h))
    ensures r.TooLow? <==> && Reachable(|dev.disk|, dev.blockSize, ISO_AT, 5) && IsIso(old(dev.Contents()))
                           && Gathers(old(dev.Contents()), dev.blockSize, lb, h)
                           && Low(Table(old(dev.Contents()), h, lb, EntryCount(h)), lb)
    ensures r.Overlapping? ==> exists all :: Chose(all, old(dev.Contents()), dev.blockSize, lb, h) && !Settled(all, h.lastUsable)
    ensures !r.Converted? && !r.Failed? ==> dev.Contents() == old(dev.Contents())
    ensures r.Failed? ==> || !Reachable(|dev.disk|, dev.blockSize, ISO_AT, 5)
                          || Unreadable(old(dev.Contents()), dev.blockSize, lb, h)
                          || (&& Chose(alternates, old(dev.Contents()), dev.blockSize, lb, h)
                              && (|| Short(|dev.disk|, dev.blockSize, lb, h.firstUsable, h.lastUsable, alternates)
                                  || NoRecord(|dev.disk|, dev.blockSize, dev.logged)))
    ensures r.Converted? ==> && Chose(alternates, old(dev.Contents()), dev.blockSize, lb, h) && Settled(alternates, h.lastUsable)
                             && IsConverted(dev.Contents(), old(dev.Contents()), lb, h, Table(old(dev.Contents()), h, lb, EntryCount(h)), alternates)
                             && 512 <= |dev.Contents()| && dev.Contents()[440..444] == id
  {
    hide Device.Valid, BootRecord, Signed, Converts, LastIs, Expressible, Chosen, IsConverted, Settled, LowParts, Low, Short, Chose,
         Gathers, Unsuitable, Unreadable, Table, EntryCount, IsIso, Reachable;
    SomeBlocks(dev);
    ghost var c := dev.Contents();
    OneEnd(c, dev.blockSize, lb, h);
    alternates := [];
    var ok, iso := ReadIso(dev);
    if !ok {
      return Failed, alternates;
    }
    if !iso {
      return Kept, alternates;
    }
    var scan := Gather(dev, lb, h);
    if scan.NotRead? {
      return Failed, alternates;
    }
    if scan.NotSuitable? {
      return Kept, alternates;
    }
    ghost var entries := Table(c, h, lb, EntryCount(h));
    var parts := scan.parts;
    LowIff(parts, entries, lb);
    var low := AnyTooLow(parts);
    if low {
      return TooLow, alternates;
    }
    var last := LastBlock(dev, lb);
    ok, alternates := Settle(dev, lb, Chosen(h.fromAlternate, h.lba, h.alternate, last, lb), h.lastUsable);
    ghost var all := Alternates(c, dev.blockSize, lb, Chosen(h.fromAlternate, h.lba, h.alternate, last, lb));
    ChoseBy(last, c, dev.blockSize, lb, h);
    if !ok {
      return Overlapping, alternates;
    }
    SignedWords(c, dev.blockSize, lb, Chosen(h.fromAlternate, h.lba, h.alternate, last, lb));
    ok := Erase(dev, lb, h.firstUsable, h.lastUsable, alternates);
    if !ok {
      return Failed, alternates;
    }
    ConvertsWritable(parts, Used(entries), lb);
    ok := WriteRecord(dev, id, parts);
    if !ok {
      return Failed, alternates;
    }
    RecordConverts(c, id, parts, lb, h, entries, alternates);
    return Converted, alternates;
  }

  lemma UsableSpared(lb: nat, firstUsable: nat, lastUsable: nat, alternates: seq<Alternate>, block: nat)
    requires firstUsable <= block <= lastUsable
    ensures !Erased(lb, firstUsable, lastUsable, alternates, block)
  {
    hide Erased;
    if Erased(lb, firstUsable, lastUsable, alternates, block) { ErasedOutside(lb, firstUsable, lastUsable, alternates, block); }
  }

  method AnyTooLow(parts: seq<Partition>) returns (low: bool)
    ensures low == LowParts(parts)
  {
    var i := 0;
    while i < |parts|
      invariant i <= |parts| && forall j :: 0 <= j < i ==> parts[j].start >= 63
    {
      if parts[i].start < 63 {
        return true;
      }
      i := i + 1;
    }
    return false;
  }

  // The installer's way out: a conversion that fails is undone, byte for byte.
  method ConvertOrUndo(dev: Device, lb: nat, h: Header, id: seq<bv8>) returns (r: Outcome, alternates: seq<Alternate>)
    requires dev.Valid() && BlockSize(lb) && |id| == 4 && h.lastUsable < WORD
    modifies dev`disk, dev`dirty, dev`cachedBlock, dev`logged, dev`uninstalling, dev.cache, dev.log, dev.reversed
    ensures dev.blockSize > 0
    ensures r.Converted? ==> && Chose(alternates, old(dev.Contents()), dev.blockSize, lb, h) && Settled(alternates, h.lastUsable)
                             && IsConverted(dev.Contents(), old(dev.Contents()), lb, h, Table(old(dev.Contents()), h, lb, EntryCount(h)), alternates)
                             && 512 <= |dev.Contents()| && dev.Contents()[440..444] == id
    ensures !r.Converted? && !r.Failed? ==> dev.Contents() == old(dev.Contents())
    ensures r == Failed ==> dev.disk == dev.original == dev.Contents()
  {
    hide Device.Valid, IsConverted, Chose, Settled, Table, EntryCount, Gathers, Unsuitable, Unreadable, IsIso, Low, Short, Reachable;
    r, alternates := Convert(dev, lb, h, id);
    if r == Failed {
      var ok := dev.Rollback();
    }
  }

  // ---------- Alternates the conversion leaves behind ----------

  // The blocks looked at: the one the header was read from, if it is an alternate, or else the one it
  // names, and the last of the device; these two only if a header and 16384 bytes fit before them.
  lemma ChosenAre(h: Header, last: Option<nat>, lb: nat, block: nat)
    requires BlockSize(lb)
    ensures block in Chosen(h.fromAlternate, h.lba, h.alternate, last, lb) <==>
            || (h.fromAlternate && block == h.lba)
            || (!h.fromAlternate && block == h.alternate && block * lb >= lb + 16384)
            || (last == Some(block) && block * lb >= lb + 16384)
  {
  }

  // A block keeps its header exactly when it is not one of those erased.
  lemma HeadersLeft(c: seq<bv8>, c': seq<bv8>, b: nat, lb: nat, h: Header, entries: seq<GptEntry>, alternates: seq<Alternate>, block: nat)
    requires b > 0 && BlockSize(lb) && IsConverted(c', c, lb, h, entries, alternates)
    ensures Signed(c', b, lb, block) <==> Signed(c, b, lb, block) && !Erased(lb, h.firstUsable, h.lastUsable, alternates, block)
  {
    hide Erased, Reads, Used, Reachable, Owned;
    var at := block * lb;
    if at + HEADER_BYTES <= |c| {
      FewUsed(c', entries, lb);
      forall x | at <= x < at + 8
        ensures x / lb == block && !Owned(x, |Used(entries)|)
      {
        HeaderByte(lb, block, |Used(entries)|, x);
      }
      assert c'[at] != 0x45 || !Erased(lb, h.firstUsable, h.lastUsable, alternates, block);
      assert c'[at..at + 8][0] == c'[at];
      if !Erased(lb, h.firstUsable, h.lastUsable, alternates, block) {
        assert c'[at..at + 8] == c[at..at + 8];
      }
    }
  }

  lemma HeaderByte(lb: nat, block: nat, n: nat, x: nat)
    requires BlockSize(lb) && n <= 4 && block * lb <= x < block * lb + 8
    ensures x / lb == block && !Owned(x, n)
  {
    InBlocks(lb, block, block + 1, x);
    if block > 0 { Scaled(1, block, lb); }
  }

  lemma FewUsed(c: seq<bv8>, entries: seq<GptEntry>, lb: nat)
    requires Reads(c, entries, lb)
    ensures |Used(entries)| <= 4
  {
  }

  // After a conversion there is no header behind the boot record, unless the table calls that block
  // usable, and none in the alternates chosen, but for one the table was read from that has fewer than
  // 16384 bytes before it and lies outside the blocks of the other tables.
  lemma ChosenErasedIff(c: seq<bv8>, c': seq<bv8>, b: nat, lb: nat, h: Header, entries: seq<GptEntry>, alternates: seq<Alternate>,
                        last: Option<nat>, block: nat)
    requires b > 0 && BlockSize(lb) && IsConverted(c', c, lb, h, entries, alternates) && Settled(alternates, h.lastUsable)
    requires alternates == Alternates(c, b, lb, Chosen(h.fromAlternate, h.lba, h.alternate, last, lb))
    ensures h.firstUsable > 1 ==> !Signed(c', b, lb, 1)
    ensures block in Chosen(h.fromAlternate, h.lba, h.alternate, last, lb) ==>
              (Signed(c', b, lb, block) <==>
               Signed(c, b, lb, block) && h.fromAlternate && block == h.lba && block * lb < 16384
               && !Erased(lb, h.firstUsable, h.lastUsable, alternates, block))
  {
    hide IsConverted, Signed, Chosen;
    HeadersLeft(c, c', b, lb, h, entries, alternates, 1);
    HeadersLeft(c, c', b, lb, h, entries, alternates, block);
    ChosenAre(h, last, lb, block);
    var chosen := Chosen(h.fromAlternate, h.lba, h.alternate, last, lb);
    if block in chosen && Signed(c, b, lb, block) && block * lb >= 16384 {
      var i :| 0 <= i < |chosen| && chosen[i] == block;
      assert alternates[i] == Alternate(block, true);
      assert InAlternate(lb, h.lastUsable, block, block);
    }
  }

  // What is zero, in bytes: the first two blocks and the 16384 bytes behind them, as far as the usable
  // blocks; and each alternate that is there with the 16384 bytes before it, back to the usable blocks.
  lemma TablesGone(c: seq<bv8>, c': seq<bv8>, lb: nat, h: Header, entries: seq<GptEntry>, alternates: seq<Alternate>, i: nat)
    requires BlockSize(lb) && IsConverted(c', c, lb, h, entries, alternates) && i < |alternates|
    ensures forall x :: 0 <= x < |c| && x / lb < h.firstUsable && x < 2 * lb + 16384 && !Owned(x, |Used(entries)|) ==> c'[x] == 0
    ensures var at := alternates[i].lba * lb;
            alternates[i].signed && at >= 16384 ==>
              forall x :: at - 16384 <= x < at + lb && x < |c| && x / lb > h.lastUsable ==> c'[x] == 0
  {
    hide Reads, Used;
    FewUsed(c', entries, lb);
    forall x | 0 <= x < |c| && x / lb < h.firstUsable && x < 2 * lb + 16384 && !Owned(x, |Used(entries)|)
      ensures c'[x] == 0
    {
      assert InPrimary(lb, h.firstUsable, x / lb);
    }
    var at := alternates[i].lba * lb;
    if alternates[i].signed && at >= 16384 {
      forall x | at - 16384 <= x < at + lb && x < |c| && x / lb > h.lastUsable
        ensures c'[x] == 0
      {
        SpanInBlocks(lb, alternates[i].lba, x);
        assert InAlternate(lb, h.lastUsable, alternates[i].lba, x / lb);
        UsableBehind(lb, |Used(entries)|, x, h.lastUsable + 1);
      }
    }
  }

  lemma SpanInBlocks(lb: nat, alt: nat, x: nat)
    requires BlockSize(lb) && alt * lb - 16384 <= x < alt * lb + lb
    ensures x / lb <= alt && alt * lb <= x / lb * lb + 16384
  {
  }

  // A device of 100 blocks of 512 bytes, an ISO image whose table was read from a header at block 10;
  // the last block holds none.
  function LowDevice(): (c: seq<bv8>)
    ensures |c| == 51200 && c[5120..5128] == SIGNATURE && IsIso(c)
    ensures forall x :: 50688 <= x < 51200 ==> c[x] == 0
  {
    seq(5120, _ => 0) + SIGNATURE + seq(27641, _ => 0) + ISO + seq(18426, _ => 0)
  }

  lemma LowBlocks(k: nat)
    ensures Present(51200, 512, 512, k) <==> k <= 99
  {
    assert k * 512 + 511 == 512 * k + 511;
    assert BlockOf(k * 512 + 511, 512) == k;
  }

  lemma LowLast()
    ensures LastIs(51200, 512, 512, Some(99))
    ensures forall last :: LastIs(51200, 512, 512, last) ==> last == Some(99)
  {
    hide Present;
    forall k: nat
      ensures Present(51200, 512, 512, k) <==> k <= 99
    {
      LowBlocks(k);
    }
    forall last | LastIs(51200, 512, 512, last)
      ensures last == Some(99)
    {
      assert Present(51200, 512, 512, 0);
      assert Present(51200, 512, 512, 99) && !Present(51200, 512, 512, 100);
      assert Present(51200, 512, 512, last.value) && !Present(51200, 512, 512, last.value + 1);
    }
  }

  lemma LowSigned()
    ensures Signed(LowDevice(), 512, 512, 10) && !Signed(LowDevice(), 512, 512, 99)
  {
    hide LowDevice;
    var c := LowDevice();
    assert BlockExists(51200, 512, 10) && BlockOf(10 * 512 + 95, 512) == 10;
    assert c[50688] == 0 && c[50688..50696][0] == c[50688] && SIGNATURE[0] != 0;
  }

  // The header at block 10 is chosen, and is still there after every conversion of the device.
  lemma LowAlternateStays(entries: seq<GptEntry>, c': seq<bv8>, alternates: seq<Alternate>)
    ensures var h := Header(true, 10, 1, 3, 9, 2, 128, 4);
            && Chosen(true, 10, 1, Some(99), 512) == [10, 99]
            && Chose([Alternate(10, true), Alternate(99, false)], LowDevice(), 512, 512, h)
            && Settled([Alternate(10, true), Alternate(99, false)], 9)
            && (Chose(alternates, LowDevice(), 512, 512, h) && IsConverted(c', LowDevice(), 512, h, entries, alternates) ==>
                  Signed(c', 512, 512, 10))
  {
    hide LowDevice, Signed, LastIs, Erased, Reads, Used;
    var c, h := LowDevice(), Header(true, 10, 1, 3, 9, 2, 128, 4);
    var both := [Alternate(10, true), Alternate(99, false)];
    LowLast();
    LowSigned();
    assert Chosen(true, 10, 1, Some(99), 512) == [10, 99];
    assert Alternates(c, 512, 512, [10, 99]) == both;
    ChoseBy(Some(99), c, 512, 512, h);
    if Chose(alternates, c, 512, 512, h) && IsConverted(c', c, 512, h, entries, alternates) {
      assert alternates == both;
      LowNotErased();
      forall x | 5120 <= x < 5128
        ensures c'[x] == c[x]
      {
        assert x / 512 == 10;
        assert |Used(entries)| <= 4 && !Owned(x, |Used(entries)|) by { FewEntries(c', entries); }
      }
      SignedLike(c, c');
    }
  }

  lemma FewEntries(c: seq<bv8>, entries: seq<GptEntry>)
    requires Reads(c, entries, 512)
    ensures |Used(entries)| <= 4
  {
  }

  lemma LowNotErased()
    ensures !Erased(512, 3, 9, [Alternate(10, true), Alternate(99, false)], 10)
  {
  }

  lemma SignedLike(c: seq<bv8>, c': seq<bv8>)
    requires |c'| == |c| && Signed(c, 512, 512, 10) && forall x :: 5120 <= x < 5128 && x < |c| ==> c'[x] == c[x]
    ensures Signed(c', 512, 512, 10)
  {
    assert c'[5120..5128] == c[5120..5128];
  }
}
