/**
 A GUID partition table (section 5.3 of UEFI Specification 2.11) as bytes on a device: its entries are
 read one after the other, and each is taken before the next is looked at.
 */
module GptTables {
  import opened Options
  import opened UndoLog
  import opened BlockDevice
  import opened GptToMbr
  import opened BootRecords

  datatype Header = Header(fromAlternate: bool, lba: nat, alternate: nat, firstUsable: nat, lastUsable: nat,
                           entryLba: nat, entrySize: nat, entryCount: nat)

  // Every partition can be named by the boot record, and there is room for them all.
  ghost predicate Convertible(entries: seq<GptEntry>, lb: nat) {
    |Used(entries)| <= 4 && forall e :: e in Used(entries) ==> Expressible(e, lb)
  }

  lemma SomeBlocks(dev: Device)
    requires dev.Valid()
    ensures dev.blockSize > 0
  {
  }

  // ---------- Reading the table ----------

  const ENTRY_BYTES := 128
  const MOST_ENTRIES := 256
  const ISO_AT := 32769
  const ISO: seq<bv8> := [0x43, 0x44, 0x30, 0x30, 0x31]

  // Bytes as digits to the base 256, lowest first.
  function Little(b: seq<bv8>): nat {
    if b == [] then 0 else UnByte(b[0]) + 256 * Little(b[1..])
  }

  function Base(n: nat): nat {
    if n == 0 then 1 else 256 * Base(n - 1)
  }

  lemma {:induction false} LittleBounded(b: seq<bv8>)
    ensures Little(b) < Base(|b|)
  {
    hide UnByte;
    if b != [] { LittleBounded(b[1..]); }
  }

  lemma {:induction false} LittleSame(b: seq<bv8>, d: seq<bv8>)
    requires |b| == |d| && Little(b) == Little(d)
    ensures b == d
  {
    hide UnByte;
    if b != [] {
      SameByte(b[0], d[0]);
      LittleSame(b[1..], d[1..]);
      assert b == [b[0]] + b[1..] && d == [d[0]] + d[1..];
    }
  }

  lemma Bases()
    ensures Base(8) == WORD
  {
    assert Base(4) == 0x1_0000_0000;
  }

  function UnWord64(b: seq<bv8>): (x: nat)
    requires |b| == 8
    ensures x < WORD
  {
    LittleBounded(b); Bases();
    Little(b)
  }

  function WordAt(c: seq<bv8>, at: nat): (x: nat)
    ensures x < WORD
  {
    if at + 8 <= |c| then UnWord64(c[at..at + 8]) else 0
  }

  // A partition entry of the table, as its bytes say it.
  function DecodeEntry(c: seq<bv8>, at: nat): (e: GptEntry)
    ensures Words(e)
  {
    GptEntry(WordAt(c, at), WordAt(c, at + 8), WordAt(c, at + 16), WordAt(c, at + 24), WordAt(c, at + 32), WordAt(c, at + 40))
  }

  // ---------- The bytes of an entry ----------

  // The three partition types with a kind of their own in a boot record, as their GUIDs are stored:
  // C12A7328-F81F-11D2-BA4B-00A0C93EC93B, EBD0A0A2-B9E5-4433-87C0-68B6B72699C7 and
  // 48465300-0000-11AA-AA11-00306543ECAC.
  const SYSTEM: seq<bv8> := [0x28, 0x73, 0x2a, 0xc1, 0x1f, 0xf8, 0xd2, 0x11, 0xba, 0x4b, 0x00, 0xa0, 0xc9, 0x3e, 0xc9, 0x3b]
  const BASIC: seq<bv8> := [0xa2, 0xa0, 0xd0, 0xeb, 0xe5, 0xb9, 0x33, 0x44, 0x87, 0xc0, 0x68, 0xb6, 0xb7, 0x26, 0x99, 0xc7]
  const HFS: seq<bv8> := [0x00, 0x53, 0x46, 0x48, 0x00, 0x00, 0xaa, 0x11, 0xaa, 0x11, 0x00, 0x30, 0x65, 0x43, 0xec, 0xac]

  lemma FourLittle(b: seq<bv8>)
    requires |b| >= 4
    ensures Little(b) == UnByte(b[0]) + 0x100 * UnByte(b[1]) + 0x1_0000 * UnByte(b[2]) + 0x100_0000 * UnByte(b[3])
                         + 0x1_0000_0000 * Little(b[4..])
  {
    hide UnByte;
    assert Little(b) == UnByte(b[0]) + 256 * Little(b[1..]) && Little(b[1..]) == UnByte(b[1]) + 256 * Little(b[2..]);
    assert Little(b[2..]) == UnByte(b[2]) + 256 * Little(b[3..]) && Little(b[3..]) == UnByte(b[3]) + 256 * Little(b[4..]);
  }

  lemma EightLittle(b: seq<bv8>)
    requires |b| == 8
    ensures Little(b) == UnByte(b[0]) + 0x100 * UnByte(b[1]) + 0x1_0000 * UnByte(b[2]) + 0x100_0000 * UnByte(b[3])
                         + 0x1_0000_0000 * (UnByte(b[4]) + 0x100 * UnByte(b[5]) + 0x1_0000 * UnByte(b[6]) + 0x100_0000 * UnByte(b[7]))
  {
    hide UnByte;
    FourLittle(b);
    FourLittle(b[4..]);
  }

  lemma SystemWords()
    ensures Little(SYSTEM[..8]) == 0x11d2f81fc12a7328 && Little(SYSTEM[8..]) == 0x3bc93ec9a0004bba
  {
    hide Little;
    EightLittle(SYSTEM[..8]);
    EightLittle(SYSTEM[8..]);
  }

  lemma BasicWords()
    ensures Little(BASIC[..8]) == 0x4433b9e5ebd0a0a2 && Little(BASIC[8..]) == 0xc79926b7b668c087
  {
    hide Little;
    EightLittle(BASIC[..8]);
    EightLittle(BASIC[8..]);
  }

  lemma HfsWords()
    ensures Little(HFS[..8]) == 0x11aa000048465300 && Little(HFS[8..]) == 0xacec4365300011aa
  {
    hide Little;
    EightLittle(HFS[..8]);
    EightLittle(HFS[8..]);
  }

  lemma GuidIs(t: seq<bv8>, guid: seq<bv8>)
    requires |t| == |guid| == 16
    ensures t == guid <==> Little(t[..8]) == Little(guid[..8]) && Little(t[8..]) == Little(guid[8..])
  {
    hide Little;
    if Little(t[..8]) == Little(guid[..8]) && Little(t[8..]) == Little(guid[8..]) {
      LittleSame(t[..8], guid[..8]);
      LittleSame(t[8..], guid[8..]);
      assert t == t[..8] + t[8..] && guid == guid[..8] + guid[8..];
    }
  }

  // Which kind a partition gets, from the sixteen bytes of its type.
  lemma KindOfBytes(c: seq<bv8>, at: nat)
    requires at + 16 <= |c|
    ensures var e, t := DecodeEntry(c, at), c[at..at + 16];
            MbrType(e.typeLow, e.typeHigh) == if t == SYSTEM then Some(0xef) else if t == BASIC then Some(0x07)
                                              else if t == HFS then Some(0xaf) else None
  {
    hide Little;
    var t := c[at..at + 16];
    assert c[at..at + 8] == t[..8] && c[at + 8..at + 16] == t[8..];
    SystemWords();
    BasicWords();
    HfsWords();
    GuidIs(t, SYSTEM);
    GuidIs(t, BASIC);
    GuidIs(t, HFS);
  }

  predicate Zero(b: seq<bv8>) {
    forall k :: 0 <= k < |b| ==> b[k] == 0
  }

  lemma {:induction false} LittleZero(b: seq<bv8>)
    ensures Little(b) == 0 <==> Zero(b)
  {
    if b != [] {
      LittleZero(b[1..]);
      if UnByte(b[0]) == 0 { SameByte(b[0], 0); }
      assert b == [b[0]] + b[1..];
    }
  }

  // An entry is in use exactly when the sixteen bytes of its own GUID are not all zero; its first and
  // last block are the eight-byte words behind them, lowest byte first.
  lemma FieldsOfBytes(c: seq<bv8>, at: nat)
    requires at + 48 <= |c|
    ensures var e := DecodeEntry(c, at);
            && (InUse(e) <==> !Zero(c[at + 16..at + 32]))
            && e.start == Little(c[at + 32..at + 40]) && e.end == Little(c[at + 40..at + 48])
  {
    hide Little;
    var low, high := c[at + 16..at + 24], c[at + 24..at + 32];
    LittleZero(low);
    LittleZero(high);
    assert c[at + 16..at + 32] == low + high;
    if Zero(low + high) {
      assert forall k :: 0 <= k < 8 ==> low[k] == (low + high)[k] && high[k] == (low + high)[k + 8];
    }
  }

  function EntryCount(h: Header): nat {
    if h.entryCount > MOST_ENTRIES then MOST_ENTRIES else h.entryCount
  }

  function EntryOffset(h: Header, lb: nat, i: nat): nat {
    h.entryLba * lb + i * h.entrySize
  }

  // The first k entries.
  function Table(c: seq<bv8>, h: Header, lb: nat, k: nat): (t: seq<GptEntry>)
    ensures |t| == k && forall e :: e in t ==> Words(e)
  {
    if k == 0 then [] else Table(c, h, lb, k - 1) + [DecodeEntry(c, EntryOffset(h, lb, k - 1))]
  }

  // The offset of an entry is a 64-bit word, and its bytes are on the device.
  // At most 256 entries, the i-th of them that many entry sizes behind the block the header names.
  lemma {:induction false} TableEntries(c: seq<bv8>, h: Header, lb: nat, i: nat)
    ensures EntryCount(h) == if h.entryCount <= 256 then h.entryCount else 256
    ensures i < EntryCount(h) ==> Table(c, h, lb, EntryCount(h))[i] == DecodeEntry(c, h.entryLba * lb + i * h.entrySize)
  {
    if i < EntryCount(h) { TableEntry(c, h, lb, EntryCount(h), i); }
  }

  lemma {:induction false} TableEntry(c: seq<bv8>, h: Header, lb: nat, k: nat, i: nat)
    requires i < k
    ensures Table(c, h, lb, k)[i] == DecodeEntry(c, h.entryLba * lb + i * h.entrySize)
  {
    hide DecodeEntry;
    if i < k - 1 { TableEntry(c, h, lb, k - 1, i); }
  }

  ghost predicate Addressed(h: Header, lb: nat, i: nat) {
    EntryOffset(h, lb, i) < WORD
  }

  ghost predicate Readable(n: nat, b: nat, h: Header, lb: nat, i: nat)
    requires b > 0
  {
    EntryOffset(h, lb, i) + ENTRY_BYTES <= WORD && Reachable(n, b, EntryOffset(h, lb, i), ENTRY_BYTES)
  }

  // The scan comes to entry k: all before it were read and can be converted.
  ghost predicate Comes(c: seq<bv8>, b: nat, lb: nat, h: Header, k: nat)
    requires b > 0
  {
    k <= EntryCount(h) && Convertible(Table(c, h, lb, k), lb) && forall i :: 0 <= i < k ==> Addressed(h, lb, i) && Readable(|c|, b, h, lb, i)
  }

  // It comes to the end, ends at an entry that is not suitable, or at one that cannot be read.
  ghost predicate Gathers(c: seq<bv8>, b: nat, lb: nat, h: Header)
    requires b > 0
  {
    h.entryLba * lb < WORD && Comes(c, b, lb, h, EntryCount(h))
  }

  ghost predicate Unsuitable(c: seq<bv8>, b: nat, lb: nat, h: Header)
    requires b > 0
  {
    || h.entryLba * lb >= WORD
    || exists k :: 0 <= k < EntryCount(h) && UnsuitableAt(c, b, lb, h, k)
  }

  ghost predicate UnsuitableAt(c: seq<bv8>, b: nat, lb: nat, h: Header, k: nat)
    requires b > 0
  {
    && Comes(c, b, lb, h, k)
    && (!Addressed(h, lb, k) || (Readable(|c|, b, h, lb, k) && !Convertible(Table(c, h, lb, k + 1), lb)))
  }

  ghost predicate Unreadable(c: seq<bv8>, b: nat, lb: nat, h: Header)
    requires b > 0
  {
    h.entryLba * lb < WORD && exists k :: 0 <= k < EntryCount(h) && UnreadableAt(c, b, lb, h, k)
  }

  ghost predicate UnreadableAt(c: seq<bv8>, b: nat, lb: nat, h: Header, k: nat)
    requires b > 0
  {
    Comes(c, b, lb, h, k) && Addressed(h, lb, k) && !Readable(|c|, b, h, lb, k)
  }

  // The three exclude each other.
  lemma OneEnd(c: seq<bv8>, b: nat, lb: nat, h: Header)
    requires b > 0
    ensures !(Gathers(c, b, lb, h) && Unsuitable(c, b, lb, h)) && !(Gathers(c, b, lb, h) && Unreadable(c, b, lb, h))
    ensures !(Unsuitable(c, b, lb, h) && Unreadable(c, b, lb, h))
  {
    hide Convertible, Table, Readable, Addressed;
    if Unsuitable(c, b, lb, h) && h.entryLba * lb < WORD {
      var k :| 0 <= k < EntryCount(h) && UnsuitableAt(c, b, lb, h, k);
      if Gathers(c, b, lb, h) { ConvertiblePrefix(c, lb, h, k + 1, EntryCount(h)); }
      if Unreadable(c, b, lb, h) {
        var j :| 0 <= j < EntryCount(h) && UnreadableAt(c, b, lb, h, j);
        if k < j { ConvertiblePrefix(c, lb, h, k + 1, j); }
      }
    }
  }

  lemma {:induction false} TablePrefix(c: seq<bv8>, lb: nat, h: Header, k: nat, n: nat)
    requires k <= n
    ensures Table(c, h, lb, n)[..k] == Table(c, h, lb, k)
    decreases n
  {
    hide DecodeEntry, EntryOffset;
    if k < n { TablePrefix(c, lb, h, k, n - 1); }
  }

  lemma ConvertiblePrefix(c: seq<bv8>, lb: nat, h: Header, k: nat, n: nat)
    requires k <= n && Convertible(Table(c, h, lb, n), lb)
    ensures Convertible(Table(c, h, lb, k), lb)
  {
    hide Table, Expressible, Used;
    TablePrefix(c, lb, h, k, n);
    UsedPrefix(Table(c, h, lb, n), k);
  }

  // The partitions of the entries, converted one by one.
  ghost predicate Gathered(parts: seq<Partition>, entries: seq<GptEntry>, lb: nat) {
    && Convertible(entries, lb) && |parts| == |Used(entries)|
    && forall i :: 0 <= i < |parts| ==> Converts(parts[i], Used(entries)[i], lb)
  }

  // One entry of the loop.
  method TakeEntry(parts: seq<Partition>, e: GptEntry, lb: nat, ghost entries: seq<GptEntry>) returns (r: Option<seq<Partition>>)
    requires Gathered(parts, entries, lb) && BlockSize(lb) && Words(e)
    ensures r.Some? <==> Convertible(entries + [e], lb)
    ensures r.Some? ==> Gathered(r.value, entries + [e], lb)
  {
    hide Converts, Expressible, ConvertEntry, Used;
    UsedAppend(entries, e);
    ghost var used := Used(entries + [e]);
    if !InUse(e) {
      return Some(parts);
    }
    assert used[|Used(entries)|] == e && e in used;
    if |parts| == 4 {
      return None;
    }
    ConvertEntryExact(e, lb);
    var p := ConvertEntry(e, lb);
    if p.None? {
      return None;
    }
    return Some(parts + [p.value]);
  }

  datatype Scan = Parts(parts: seq<Partition>) | NotSuitable | NotRead

  // The loop over the entries: each is read, then taken, before the next is looked at.
  method Gather(dev: Device, lb: nat, h: Header) returns (r: Scan)
    requires dev.Valid() && BlockSize(lb)
    modifies dev`disk, dev`dirty, dev`cachedBlock, dev.cache
    ensures dev.Valid() && dev.Contents() == old(dev.Contents()) && |dev.disk| == old(|dev.disk|) && dev.blockSize > 0
    ensures r.Parts? <==> Gathers(dev.Contents(), dev.blockSize, lb, h)
    ensures r.NotSuitable? <==> Unsuitable(dev.Contents(), dev.blockSize, lb, h)
    ensures r.NotRead? <==> Unreadable(dev.Contents(), dev.blockSize, lb, h)
    ensures r.Parts? ==> Gathered(r.parts, Table(dev.Contents(), h, lb, EntryCount(h)), lb)
  {
    hide Device.Valid, Convertible, Gathered, DecodeEntry, Table;
    SomeBlocks(dev);
    ghost var c, b := dev.Contents(), dev.blockSize;
    OneEnd(c, b, lb, h);
    if h.entryLba * lb >= WORD {
      return NotSuitable;
    }
    var parts := [];
    var i := 0;
    NothingGathered(c, lb, h);
    while i < EntryCount(h)
      invariant i <= EntryCount(h) && dev.Valid() && dev.Contents() == c && |dev.disk| == old(|dev.disk|)
      invariant Comes(c, b, lb, h, i) && Gathered(parts, Table(c, h, lb, i), lb)
    {
      if EntryOffset(h, lb, i) >= WORD {
        assert UnsuitableAt(c, b, lb, h, i);
        return NotSuitable;
      }
      var ok, e := ReadTableEntry(dev, EntryOffset(h, lb, i));
      assert dev.Contents() == c && |c| == |dev.disk| by { SameSize(dev); }
      if !ok {
        assert UnreadableAt(c, b, lb, h, i);
        return NotRead;
      }
      TableStep(c, lb, h, i);
      var more := TakeEntry(parts, e, lb, Table(c, h, lb, i));
      if more.None? {
        assert UnsuitableAt(c, b, lb, h, i);
        return NotSuitable;
      }
      parts := more.value;
      i := i + 1;
    }
    return Parts(parts);
  }

  lemma SameSize(dev: Device)
    requires dev.Valid()
    ensures |dev.Contents()| == |dev.disk|
  {
  }

  lemma NothingGathered(c: seq<bv8>, lb: nat, h: Header)
    ensures Gathered([], Table(c, h, lb, 0), lb) && Convertible(Table(c, h, lb, 0), lb)
  {
  }

  lemma TableStep(c: seq<bv8>, lb: nat, h: Header, i: nat)
    ensures Table(c, h, lb, i + 1) == Table(c, h, lb, i) + [DecodeEntry(c, EntryOffset(h, lb, i))]
  {
  }

  // An entry at the end of the address space is past the end of every device.
  method ReadTableEntry(dev: Device, at: nat) returns (ok: bool, e: GptEntry)
    requires dev.Valid()
    modifies dev`disk, dev`dirty, dev`cachedBlock, dev.cache
    ensures dev.Valid() && dev.Contents() == old(dev.Contents()) && |dev.disk| == old(|dev.disk|) && dev.blockSize > 0
    ensures ok == (at + ENTRY_BYTES <= WORD && Reachable(|dev.disk|, dev.blockSize, at, ENTRY_BYTES))
    ensures ok ==> e == DecodeEntry(dev.Contents(), at)
    ensures Words(e)
  {
    hide BlockExists, BlockOf, Overlay, Undoable, UnWord64;
    e := DecodeEntry([], 0);
    if at + ENTRY_BYTES > WORD {
      return false, e;
    }
    ghost var c := dev.Contents();
    var data;
    ok, data := dev.ReadRaw(at, ENTRY_BYTES);
    assert |dev.Contents()| == |c|;
    if ok {
      e := DecodeEntry(data, 0);
      EntrySlice(dev.Contents(), at, data);
    }
  }

  lemma EntrySlice(c: seq<bv8>, at: nat, data: seq<bv8>)
    requires at + ENTRY_BYTES <= |c| && data == c[at..at + ENTRY_BYTES]
    ensures DecodeEntry(data, 0) == DecodeEntry(c, at)
  {
    hide WordAt;
    WordSlice(c, at, data, 0);
    WordSlice(c, at, data, 8);
    WordSlice(c, at, data, 16);
    WordSlice(c, at, data, 24);
    WordSlice(c, at, data, 32);
    WordSlice(c, at, data, 40);
  }

  lemma WordSlice(c: seq<bv8>, at: nat, data: seq<bv8>, k: nat)
    requires at + ENTRY_BYTES <= |c| && data == c[at..at + ENTRY_BYTES] && k + 8 <= ENTRY_BYTES
    ensures WordAt(data, k) == WordAt(c, at + k)
  {
    hide UnWord64;
    var a, b := data[k..k + 8], c[at + k..at + k + 8];
    assert |a| == 8 && |b| == 8 && forall j :: 0 <= j < 8 ==> a[j] == data[k + j] && b[j] == c[at + k + j];
    assert forall j :: 0 <= j < ENTRY_BYTES ==> data[j] == c[at + j];
    assert a == b;
  }

  // The image is an ISO; only such images are converted.
  predicate IsIso(c: seq<bv8>) {
    ISO_AT + 5 <= |c| && c[ISO_AT..ISO_AT + 5] == ISO
  }

  method ReadIso(dev: Device) returns (ok: bool, iso: bool)
    requires dev.Valid()
    modifies dev`disk, dev`dirty, dev`cachedBlock, dev.cache
    ensures dev.Valid() && dev.Contents() == old(dev.Contents()) && |dev.disk| == old(|dev.disk|) && dev.blockSize > 0
    ensures ok == Reachable(|dev.disk|, dev.blockSize, ISO_AT, 5)
    ensures ok ==> iso == IsIso(dev.Contents())
  {
    hide BlockExists, BlockOf, Overlay, Undoable;
    ghost var c := dev.Contents();
    var data;
    ok, data := dev.ReadRaw(ISO_AT, 5);
    assert |dev.Contents()| == |c|;
    iso := ok && data == ISO;
  }
}
