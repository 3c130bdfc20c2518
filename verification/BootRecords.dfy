/**
 The boot record of an MBR (section 5.2 of UEFI Specification 2.11) as bytes on a device: its
 partition entries, encoded and decoded, and the writes that make it.
 */
module BootRecords {
  import opened ByteSeq
  import opened UndoLog
  import opened BlockDevice
  import opened GptToMbr

  const ENTRIES := 0x1be
  const DISK_ID := 0x1b8
  const MBR := 512

  // ---------- Bytes ----------

  function FromBits(b: seq<bool>): bv8
    requires |b| == 8
  {
    (if b[0] then 1 else 0) | (if b[1] then 2 else 0) | (if b[2] then 4 else 0) | (if b[3] then 8 else 0)
    | (if b[4] then 16 else 0) | (if b[5] then 32 else 0) | (if b[6] then 64 else 0) | (if b[7] then 128 else 0)
  }

  function ToBits(x: bv8): (b: seq<bool>)
    ensures |b| == 8
  {
    [x & 1 != 0, x & 2 != 0, x & 4 != 0, x & 8 != 0, x & 16 != 0, x & 32 != 0, x & 64 != 0, x & 128 != 0]
  }

  lemma BitsBack(b: seq<bool>)
    requires |b| == 8
    ensures ToBits(FromBits(b)) == b
  {
  }

  // Binary digits, lowest first.
  function Digits(x: nat, n: nat): (b: seq<bool>)
    ensures |b| == n
  {
    if n == 0 then [] else [x % 2 == 1] + Digits(x / 2, n - 1)
  }

  function Value(b: seq<bool>): nat {
    if b == [] then 0 else Bit(b[0]) + 2 * Value(b[1..])
  }

  function Power(n: nat): nat {
    if n == 0 then 1 else 2 * Power(n - 1)
  }

  lemma {:induction false} DigitsBack(x: nat, n: nat)
    requires x < Power(n)
    ensures Value(Digits(x, n)) == x
  {
    if n > 0 { DigitsBack(x / 2, n - 1); }
  }

  function Byte8(x: nat): bv8 {
    FromBits(Digits(x, 8))
  }

  function UnByte(b: bv8): (x: nat)
    ensures x < 256
  {
    b as nat
  }

  lemma {:induction false} ByteValue(b: bv8)
    ensures Value(ToBits(b)) == b as nat
  {
    var t := ToBits(b);
    EightDigits(t);
    ByteSum(b);
  }

  lemma EightDigits(t: seq<bool>)
    requires |t| == 8
    ensures Value(t) == Bit(t[0]) + 2 * Bit(t[1]) + 4 * Bit(t[2]) + 8 * Bit(t[3]) + 16 * Bit(t[4]) + 32 * Bit(t[5])
                        + 64 * Bit(t[6]) + 128 * Bit(t[7])
  {
    var u := t[4..];
    assert Value(u) == Bit(u[0]) + 2 * Value(u[1..]) && Value(u[1..]) == Bit(u[1]) + 2 * Value(u[2..]);
    assert Value(u[2..]) == Bit(u[2]) + 2 * Value(u[3..]) && Value(u[3..]) == Bit(u[3]) + 2 * Value(u[4..]) && u[4..] == [];
    assert Value(t) == Bit(t[0]) + 2 * Value(t[1..]) && Value(t[1..]) == Bit(t[1]) + 2 * Value(t[2..]);
    assert Value(t[2..]) == Bit(t[2]) + 2 * Value(t[3..]) && Value(t[3..]) == Bit(t[3]) + 2 * Value(u);
  }

  function Bit(b: bool): nat {
    if b then 1 else 0
  }

  lemma ByteSum(x: bv8)
    ensures x as nat == Bit(x & 1 != 0) + 2 * Bit(x & 2 != 0) + 4 * Bit(x & 4 != 0) + 8 * Bit(x & 8 != 0) + 16 * Bit(x & 16 != 0)
                        + 32 * Bit(x & 32 != 0) + 64 * Bit(x & 64 != 0) + 128 * Bit(x & 128 != 0)
  {
  }

  lemma ByteBack(x: nat)
    requires x < 256
    ensures UnByte(Byte8(x)) == x
  {
    hide FromBits, ToBits, Digits, Value;
    BitsBack(Digits(x, 8));
    assert Power(8) == 256;
    DigitsBack(x, 8);
    ByteValue(Byte8(x));
  }

  lemma SameByte(x: bv8, y: bv8)
    requires UnByte(x) == UnByte(y)
    ensures x == y
  {
    assert (x as nat) as bv8 == x && (y as nat) as bv8 == y;
  }

  function Word32(x: nat): (r: seq<bv8>)
    requires x <= UINT32_MAX
    ensures |r| == 4
  {
    [Byte8(x % 256), Byte8(x / 0x100 % 256), Byte8(x / 0x10000 % 256), Byte8(x / 0x1000000)]
  }

  function UnWord32(b: seq<bv8>): nat
    requires |b| == 4
  {
    UnByte(b[0]) + UnByte(b[1]) * 0x100 + UnByte(b[2]) * 0x10000 + UnByte(b[3]) * 0x1000000
  }

  lemma Word32RoundTrip(x: nat)
    requires x <= UINT32_MAX
    ensures UnWord32(Word32(x)) == x
    ensures UnByte(Word32(x)[0]) == x % 256 && UnByte(Word32(x)[3]) == x / 0x1000000
  {
    hide Byte8, UnByte;
    ByteBack(x % 256);
    ByteBack(x / 0x100 % 256);
    ByteBack(x / 0x10000 % 256);
    ByteBack(x / 0x1000000);
    assert x / 0x10000 == x / 0x100 / 0x100 && x / 0x1000000 == x / 0x10000 / 0x100;
  }

  // ---------- Entries ----------

  predicate Writable(p: Partition) {
    p.start <= p.end <= UINT32_MAX && p.end - p.start + 1 <= UINT32_MAX && p.kind < 256
  }

  function ChsBytes(lba: nat): (r: seq<bv8>)
    ensures |r| == 3
  {
    ChsRoundTrip(lba);
    var c := Lba2Chs(lba);
    [Byte8(c.b0), Byte8(c.b1), Byte8(c.b2)]
  }

  // The fifteen bytes behind the status byte of an entry.
  function EntryBytes(p: Partition): (r: seq<bv8>)
    requires Writable(p)
    ensures |r| == 15
  {
    ChsBytes(p.start) + [Byte8(p.kind)] + ChsBytes(p.end) + Word32(p.start) + Word32(p.end - p.start + 1)
  }

  function EntryAt(i: nat): nat {
    ENTRIES + 16 * i
  }

  function WithEntry(c: seq<bv8>, i: nat, p: Partition): (r: seq<bv8>)
    requires Writable(p) && EntryAt(i) + 16 <= |c|
    ensures |r| == |c|
  {
    Splice(c, EntryAt(i) + 1, EntryBytes(p))
  }

  // What a reader of the boot record finds: start and count in sectors, and the kind.
  function ReadEntry(c: seq<bv8>, i: nat): Partition
    requires EntryAt(i) + 16 <= |c|
  {
    var start := UnWord32(c[EntryAt(i) + 8..EntryAt(i) + 12]);
    var count := UnWord32(c[EntryAt(i) + 12..EntryAt(i) + 16]);
    Partition(start, if count == 0 then start else start + count - 1, UnByte(c[EntryAt(i) + 4]))
  }

  // Three bytes that are the CHS address of a sector, or the highest there is.
  predicate Points(b0: bv8, b1: bv8, b2: bv8, lba: nat) {
    if lba < 1024 * 255 * 63 then Chs2Lba(Chs(b0 as nat, b1 as nat, b2 as nat)) == lba
    else b0 == 0xfe && b1 == 0xff && b2 == 0xff
  }

  // The sixteen bytes of an entry, as the format has them: CHS of the first sector, kind, CHS of the
  // last, and little-endian the first sector and the number of sectors.
  predicate Describes(e: seq<bv8>, p: Partition)
    requires |e| == 16
  {
    && Points(e[1], e[2], e[3], p.start) && Points(e[5], e[6], e[7], p.end) && e[4] as nat == p.kind
    && e[8] as nat + 0x100 * e[9] as nat + 0x10000 * e[10] as nat + 0x1000000 * e[11] as nat == p.start
    && e[12] as nat + 0x100 * e[13] as nat + 0x10000 * e[14] as nat + 0x1000000 * e[15] as nat == p.end - p.start + 1
  }

  lemma ChsPoints(lba: nat)
    ensures var b := ChsBytes(lba); Points(b[0], b[1], b[2], lba)
  {
    hide Byte8, Lba2Chs, Chs2Lba;
    ChsRoundTrip(lba);
    var c := Lba2Chs(lba);
    ByteBack(c.b0);
    ByteBack(c.b1);
    ByteBack(c.b2);
    HighBytes();
  }

  lemma HighBytes()
    ensures Byte8(0xfe) == 0xfe && Byte8(0xff) == 0xff
  {
    hide Byte8;
    ByteBack(0xfe);
    ByteBack(0xff);
    SameByte(Byte8(0xfe), 0xfe);
    SameByte(Byte8(0xff), 0xff);
  }

  lemma EntryDescribes(status: bv8, p: Partition)
    requires Writable(p)
    ensures Describes([status] + EntryBytes(p), p)
  {
    hide Word32, ChsBytes, Byte8, Points;
    var e := [status] + EntryBytes(p);
    assert e[1..4] == ChsBytes(p.start) && e[5..8] == ChsBytes(p.end);
    assert e[8..12] == Word32(p.start) && e[12..16] == Word32(p.end - p.start + 1);
    ChsPoints(p.start);
    ChsPoints(p.end);
    Word32RoundTrip(p.start);
    Word32RoundTrip(p.end - p.start + 1);
    ByteBack(p.kind);
  }

  // The entry written describes the partition and leaves its status byte alone.
  lemma EntryRead(c: seq<bv8>, i: nat, p: Partition)
    requires Writable(p) && EntryAt(i) + 16 <= |c|
    ensures var r := WithEntry(c, i, p); r[EntryAt(i)] == c[EntryAt(i)] && Describes(r[EntryAt(i)..EntryAt(i) + 16], p)
  {
    hide EntryBytes, Describes;
    var r := WithEntry(c, i, p);
    assert r[EntryAt(i)..EntryAt(i) + 16] == [c[EntryAt(i)]] + EntryBytes(p);
    EntryDescribes(c[EntryAt(i)], p);
  }

  lemma OtherEntryRead(c: seq<bv8>, i: nat, p: Partition, j: nat)
    requires Writable(p) && EntryAt(i) + 16 <= |c| && EntryAt(j) + 16 <= |c| && i != j
    ensures WithEntry(c, i, p)[EntryAt(j)..EntryAt(j) + 16] == c[EntryAt(j)..EntryAt(j) + 16]
  {
    hide EntryBytes;
  }

  // A reader finds the partition an entry describes.
  lemma DescribedRead(c: seq<bv8>, i: nat, p: Partition)
    requires Writable(p) && EntryAt(i) + 16 <= |c| && Describes(c[EntryAt(i)..EntryAt(i) + 16], p)
    ensures ReadEntry(c, i) == p
  {
    hide Points;
    var e := c[EntryAt(i)..EntryAt(i) + 16];
    assert c[EntryAt(i) + 8..EntryAt(i) + 12] == e[8..12] && c[EntryAt(i) + 12..EntryAt(i) + 16] == e[12..16];
  }

  // Writing the five fields in the order of the code fills the entry.
  lemma FieldsFill(c: seq<bv8>, i: nat, p: Partition)
    requires Writable(p) && EntryAt(i) + 16 <= |c|
    ensures var c1 := Splice(c, EntryAt(i) + 4, [Byte8(p.kind)]);
            var c2 := Splice(c1, EntryAt(i) + 8, Word32(p.start));
            var c3 := Splice(c2, EntryAt(i) + 12, Word32(p.end - p.start + 1));
            var c4 := Splice(c3, EntryAt(i) + 1, ChsBytes(p.start));
            Splice(c4, EntryAt(i) + 5, ChsBytes(p.end)) == WithEntry(c, i, p)
  {
    hide Word32, ChsBytes, Byte8, Splice;
    SpliceIs(c, EntryAt(i) + 4, [Byte8(p.kind)]);
    var c1 := Splice(c, EntryAt(i) + 4, [Byte8(p.kind)]);
    SpliceIs(c1, EntryAt(i) + 8, Word32(p.start));
    var c2 := Splice(c1, EntryAt(i) + 8, Word32(p.start));
    SpliceIs(c2, EntryAt(i) + 12, Word32(p.end - p.start + 1));
    var c3 := Splice(c2, EntryAt(i) + 12, Word32(p.end - p.start + 1));
    SpliceIs(c3, EntryAt(i) + 1, ChsBytes(p.start));
    var c4 := Splice(c3, EntryAt(i) + 1, ChsBytes(p.start));
    SpliceIs(c4, EntryAt(i) + 5, ChsBytes(p.end));
    SpliceIs(c, EntryAt(i) + 1, EntryBytes(p));
    var c5 := Splice(c4, EntryAt(i) + 5, ChsBytes(p.end));
    assert c5 == WithEntry(c, i, p);
  }

  lemma SpliceIs(c: seq<bv8>, at: nat, data: seq<bv8>)
    requires at + |data| <= |c|
    ensures |Splice(c, at, data)| == |c|
    ensures forall x :: 0 <= x < |c| ==> Splice(c, at, data)[x] == if at <= x < at + |data| then data[x - at] else c[x]
  {
  }

  // ---------- Zeroed blocks ----------

  function Wiped(c: seq<bv8>, lb: nat, lo: nat, hi: nat): (r: seq<bv8>)
    ensures |r| == |c| && forall x :: 0 <= x < |c| ==> r[x] == if lo * lb <= x < hi * lb then 0 else c[x]
  {
    seq(|c|, x requires 0 <= x < |c| => if lo * lb <= x < hi * lb then 0 else c[x])
  }

  function ZeroBlock(lb: nat): (z: seq<bv8>)
    ensures |z| == lb && forall x :: 0 <= x < lb ==> z[x] == 0
  {
    seq(lb, _ => 0)
  }

  lemma WipeStep(c: seq<bv8>, lb: nat, lo: nat, i: nat)
    requires lo <= i && i * lb + lb <= |c|
    ensures Splice(Wiped(c, lb, lo, i), i * lb, ZeroBlock(lb)) == Wiped(c, lb, lo, i + 1)
  {
    assert lo * lb <= i * lb && (i + 1) * lb == i * lb + lb;
  }

  lemma WipeNothing(c: seq<bv8>, lb: nat, lo: nat)
    ensures Wiped(c, lb, lo, lo) == c
  {
  }

  // A block that starts below 2^64 ends there at the latest, block sizes being powers of two.
  lemma BlockEnds(lb: nat, i: nat)
    requires BlockSize(lb) && i * lb < WORD
    ensures i * lb + lb <= WORD
  {
    if lb == 512 {
      assert i < WORD / 512;
    } else if lb == 2048 {
      assert i < WORD / 2048;
    } else {
      assert i < WORD / 4096;
    }
  }

  // Zeroes blocks lo to hi - 1; stops at the first that cannot be written.
  method WipeBlocks(dev: Device, lb: nat, lo: nat, hi: nat) returns (ok: bool)
    requires dev.Valid() && BlockSize(lb)
    modifies dev`disk, dev`dirty, dev`cachedBlock, dev`logged, dev.cache, dev.log
    ensures dev.Valid() && |dev.disk| == old(|dev.disk|)
    ensures ok ==> dev.Contents() == Wiped(old(dev.Contents()), lb, lo, hi) && (lo < hi ==> hi * lb <= |dev.disk|)
    ensures !ok ==> dev.logged >= LOG_MAX || exists k :: lo <= k < hi && !Present(|dev.disk|, dev.blockSize, lb, k)
  {
    hide BlockExists, BlockOf, Overlay, Undoable, Splice, Wiped;
    var zero := ZeroBlock(lb);
    var i := lo;
    WipeNothing(dev.Contents(), lb, lo);
    if hi < lo {
      WipeBackwards(dev.Contents(), lb, lo, hi);
    }
    while i < hi
      invariant lo <= i && (i <= hi || i == lo) && dev.Valid() && |dev.disk| == old(|dev.disk|)
      invariant dev.Contents() == Wiped(old(dev.Contents()), lb, lo, i) && (lo < i ==> i * lb <= |dev.disk|)
    {
      if i * lb >= WORD {
        assert lo <= i < hi && !Present(|dev.disk|, dev.blockSize, lb, i);
        return false;
      }
      BlockEnds(lb, i);
      ghost var before := dev.Contents();
      ok := dev.WriteRaw(zero, i * lb);
      if !ok {
        assert lo <= i < hi && (dev.logged >= LOG_MAX || !Present(|dev.disk|, dev.blockSize, lb, i));
        return false;
      }
      WipeStep(old(dev.Contents()), lb, lo, i);
      assert (i + 1) * lb == i * lb + lb;
      i := i + 1;
    }
    ok := true;
  }

  lemma WipeBackwards(c: seq<bv8>, lb: nat, lo: nat, hi: nat)
    requires hi < lo
    ensures Wiped(c, lb, lo, hi) == c
  {
    assert hi * lb <= lo * lb;
  }

  // ---------- The boot record ----------

  // The first sector cannot be written, or the undo log is full.
  predicate NoRecord(n: nat, b: nat, logged: nat) {
    logged >= LOG_MAX || b == 0 || !Reachable(n, b, 0, MBR)
  }

  lemma FieldReachable(n: nat, b: nat, at: nat, count: nat)
    requires b > 0 && at + count <= MBR
    ensures Reachable(n, b, 0, MBR) ==> Reachable(n, b, at, count)
  {
    hide BlockExists, BlockOf;
    if Reachable(n, b, 0, MBR) && count > 0 {
      DivMonotone(at + count - 1, MBR - 1, b);
      BlockMonotone(n, b, BlockOf(at + count - 1, b), BlockOf(MBR - 1, b));
    }
  }

  method WriteField(dev: Device, at: nat, data: seq<bv8>) returns (ok: bool)
    requires dev.Valid() && 0 < |data| && at + |data| <= MBR
    modifies dev`disk, dev`dirty, dev`cachedBlock, dev`logged, dev.cache, dev.log
    ensures dev.Valid() && |dev.disk| == old(|dev.disk|)
    ensures ok ==> at + |data| <= |dev.disk| && dev.Contents() == Splice(old(dev.Contents()), at, data)
    ensures !ok ==> NoRecord(|dev.disk|, dev.blockSize, dev.logged)
  {
    hide BlockExists, BlockOf, Overlay, Undoable, Splice;
    ok := dev.WriteRaw(data, at);
    if !ok { FieldReachable(|dev.disk|, dev.blockSize, at, |data|); }
  }

  method WriteEntry(dev: Device, i: nat, p: Partition) returns (ok: bool)
    requires dev.Valid() && i < 4 && Writable(p)
    modifies dev`disk, dev`dirty, dev`cachedBlock, dev`logged, dev.cache, dev.log
    ensures dev.Valid() && |dev.disk| == old(|dev.disk|)
    ensures ok ==> EntryAt(i) + 16 <= |dev.disk| && dev.Contents() == WithEntry(old(dev.Contents()), i, p)
    ensures !ok ==> NoRecord(|dev.disk|, dev.blockSize, dev.logged)
  {
    hide BlockExists, BlockOf, Overlay, Undoable, Splice, Word32, ChsBytes, Byte8, Device.Valid;
    ok := WriteField(dev, EntryAt(i) + 4, [Byte8(p.kind)]);
    if !ok { return; }
    ok := WriteField(dev, EntryAt(i) + 8, Word32(p.start));
    if !ok { return; }
    ok := WriteField(dev, EntryAt(i) + 12, Word32(p.end - p.start + 1));
    if !ok { return; }
    ok := WriteField(dev, EntryAt(i) + 1, ChsBytes(p.start));
    if !ok { return; }
    ok := WriteField(dev, EntryAt(i) + 5, ChsBytes(p.end));
    if !ok { return; }
    FieldsFill(old(dev.Contents()), i, p);
  }

  // The record: the disk id, the entries in order, the signature.
  function WithEntries(c: seq<bv8>, parts: seq<Partition>, n: nat): (r: seq<bv8>)
    requires n <= |parts| <= 4 && (n > 0 ==> EntryAt(n) <= |c|) && forall p :: p in parts ==> Writable(p)
    ensures |r| == |c|
  {
    if n == 0 then c else WithEntry(WithEntries(c, parts, n - 1), n - 1, parts[n - 1])
  }

  function BootRecord(c: seq<bv8>, id: seq<bv8>, parts: seq<Partition>): (r: seq<bv8>)
    requires |id| == 4 && |parts| <= 4 && MBR <= |c| && forall p :: p in parts ==> Writable(p)
    ensures |r| == |c|
  {
    Splice(WithEntries(Splice(c, DISK_ID, id), parts, |parts|), 510, [0x55, 0xaa])
  }

  // The bytes of the first n entries, but for the status byte of each.
  predicate InEntry(x: int, n: nat) {
    446 <= x < 446 + 16 * n && (x - 446) % 16 != 0
  }

  lemma OutsideEntry(c: seq<bv8>, i: nat, p: Partition, x: nat)
    requires Writable(p) && EntryAt(i) + 16 <= |c| && x < |c| && !InEntry(x, i + 1)
    ensures !InEntry(x, i) && WithEntry(c, i, p)[x] == c[x]
  {
    hide EntryBytes, Writable;
  }

  lemma {:induction false} EntriesOnlyInside(c: seq<bv8>, parts: seq<Partition>, n: nat)
    requires n <= |parts| <= 4 && (n > 0 ==> EntryAt(n) <= |c|) && forall p :: p in parts ==> Writable(p)
    ensures forall x :: 0 <= x < |c| && !InEntry(x, n) ==> WithEntries(c, parts, n)[x] == c[x]
    ensures forall i :: 0 <= i < n ==>
                          EntryAt(i) + 16 <= |c| && Describes(WithEntries(c, parts, n)[EntryAt(i)..EntryAt(i) + 16], parts[i])
  {
    hide Describes, EntryBytes, InEntry, Writable, WithEntry;
    if n > 0 {
      var r := WithEntries(c, parts, n - 1);
      EntriesOnlyInside(c, parts, n - 1);
      forall x | 0 <= x < |c| && !InEntry(x, n)
        ensures WithEntries(c, parts, n)[x] == c[x]
      {
        OutsideEntry(r, n - 1, parts[n - 1], x);
      }
      EntryRead(r, n - 1, parts[n - 1]);
      forall i | 0 <= i < n - 1
        ensures Describes(WithEntries(c, parts, n)[EntryAt(i)..EntryAt(i) + 16], parts[i])
      {
        OtherEntryRead(r, n - 1, parts[n - 1], i);
      }
    }
  }

  // The bytes of the boot record that name the disk and the partitions, and its signature.
  predicate Owned(x: int, n: nat) {
    440 <= x < 444 || InEntry(x, n) || 510 <= x < 512
  }

  // The record reads back as the partitions, and no other byte changes.
  lemma BootRecordRead(c: seq<bv8>, id: seq<bv8>, parts: seq<Partition>)
    requires |id| == 4 && |parts| <= 4 && MBR <= |c| && forall p :: p in parts ==> Writable(p)
    ensures var r := BootRecord(c, id, parts);
            && (forall x :: 0 <= x < |c| && !Owned(x, |parts|) ==> r[x] == c[x])
            && (forall i :: 0 <= i < |parts| ==> ReadEntry(r, i) == parts[i] && Describes(r[446 + 16 * i..462 + 16 * i], parts[i]))
            && r[510..512] == [0x55, 0xaa] && r[440..444] == id
  {
    hide ReadEntry, WithEntries, Describes, Writable;
    var c1 := Splice(c, DISK_ID, id);
    EntriesOnlyInside(c1, parts, |parts|);
    var c2 := WithEntries(c1, parts, |parts|);
    var r := Splice(c2, 510, [0x55, 0xaa]);
    forall i | 0 <= i < |parts|
      ensures ReadEntry(r, i) == parts[i] && Describes(r[446 + 16 * i..462 + 16 * i], parts[i])
    {
      assert parts[i] in parts;
      SignatureSpares(c2, i);
      DescribedRead(r, i, parts[i]);
    }
    assert c2[440..444] == id;
    assert r[440..444] == c2[440..444];
  }

  lemma SignatureSpares(c: seq<bv8>, i: nat)
    requires MBR <= |c| && i < 4
    ensures Splice(c, 510, [0x55, 0xaa])[446 + 16 * i..462 + 16 * i] == c[EntryAt(i)..EntryAt(i) + 16]
  {
  }

  method WriteRecord(dev: Device, id: seq<bv8>, parts: seq<Partition>) returns (ok: bool)
    requires dev.Valid() && |id| == 4 && |parts| <= 4 && forall p :: p in parts ==> Writable(p)
    modifies dev`disk, dev`dirty, dev`cachedBlock, dev`logged, dev.cache, dev.log
    ensures dev.Valid() && |dev.disk| == old(|dev.disk|)
    ensures ok ==> MBR <= |dev.disk| && dev.Contents() == BootRecord(old(dev.Contents()), id, parts)
    ensures !ok ==> NoRecord(|dev.disk|, dev.blockSize, dev.logged)
  {
    hide BlockExists, BlockOf, Overlay, Undoable, Splice, Device.Valid, WithEntry;
    ghost var c := dev.Contents();
    var j := 0;
    IdBytes(c, id, 0);
    while j < 4
      invariant j <= 4 && dev.Valid() && |dev.disk| == old(|dev.disk|) && (j > 0 ==> DISK_ID + j <= |dev.disk|)
      invariant dev.Contents() == if DISK_ID + j <= |c| then Splice(c, DISK_ID, id[..j]) else c
    {
      ok := WriteField(dev, DISK_ID + j, [id[j]]);
      if !ok { return; }
      IdBytes(c, id, j);
      j := j + 1;
    }
    assert id[..4] == id;
    ghost var c1 := dev.Contents();
    var i := 0;
    while i < |parts|
      invariant i <= |parts| && dev.Valid() && |dev.disk| == old(|dev.disk|) && (i > 0 ==> EntryAt(i) <= |dev.disk|)
      invariant dev.Contents() == WithEntries(c1, parts, i)
    {
      ok := WriteEntry(dev, i, parts[i]);
      if !ok { return; }
      i := i + 1;
    }
    ok := WriteField(dev, 510, [0x55, 0xaa]);
  }

  // The id goes out one byte at a time.
  lemma IdBytes(c: seq<bv8>, id: seq<bv8>, j: nat)
    requires |id| == 4 && j < 4
    ensures DISK_ID <= |c| ==> Splice(c, DISK_ID, id[..0]) == c
    ensures DISK_ID + j + 1 <= |c| ==> Splice(Splice(c, DISK_ID, id[..j]), DISK_ID + j, [id[j]]) == Splice(c, DISK_ID, id[..j + 1])
  {
  }
}
