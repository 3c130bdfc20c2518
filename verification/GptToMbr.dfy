/**
 Conversion of a GUID partition table (section 5.3 of UEFI Specification 2.11) to an MBR: which
 partitions can be expressed, which blocks are erased, and where the device ends.
 All C arithmetic is on 64-bit unsigned words and is written out with its wrap-around.
 */
module GptToMbr {
  import opened Options
  import opened BlockDevice

  const WORD := 0x1_0000_0000_0000_0000
  const UINT32_MAX := 0xffff_ffff
  const SECTOR := 512

  // ---------- Partition entries ----------

  datatype GptEntry = GptEntry(typeLow: nat, typeHigh: nat, guidLow: nat, guidHigh: nat, start: nat, end: nat)
  datatype Partition = Partition(start: nat, end: nat, kind: nat)

  predicate Words(e: GptEntry) {
    e.start < WORD && e.end < WORD
  }

  predicate InUse(e: GptEntry) {
    !(e.guidLow == 0 && e.guidHigh == 0)
  }

  function MbrType(low: nat, high: nat): Option<nat> {
    if low == 0x11d2f81fc12a7328 && high == 0x3bc93ec9a0004bba then Some(0xef)
    else if low == 0x4433b9e5ebd0a0a2 && high == 0xc79926b7b668c087 then Some(0x07)
    else if low == 0x11aa000048465300 && high == 0xacec4365300011aa then Some(0xaf)
    else None
  }

  // The partition, in bytes, can be named by a 32-bit start and a 32-bit count of 512-byte sectors.
  predicate Expressible(e: GptEntry, lb: nat) {
    && e.start <= e.end
    && (e.end + 1) * lb <= (UINT32_MAX + 1) * SECTOR
    && (e.end - e.start + 1) * lb <= UINT32_MAX * SECTOR
    && MbrType(e.typeLow, e.typeHigh).Some?
  }

  // Same bytes on the device: a half-open byte range for either table.
  predicate SameBytes(p: Partition, e: GptEntry, lb: nat) {
    p.start * SECTOR == e.start * lb && (p.end + 1) * SECTOR == (e.end + 1) * lb
  }

  predicate Converts(p: Partition, e: GptEntry, lb: nat) {
    && SameBytes(p, e, lb) && p.start <= p.end <= UINT32_MAX && p.end - p.start + 1 <= UINT32_MAX
    && Some(p.kind) == MbrType(e.typeLow, e.typeHigh)
  }

  predicate BlockSize(lb: nat) {
    lb == 512 || lb == 2048 || lb == 4096
  }

  // One entry of the gathering loop, in 64-bit arithmetic.
  function ConvertEntry(e: GptEntry, lb: nat): (r: Option<Partition>)
    requires BlockSize(lb) && Words(e)
  {
    var k := lb / SECTOR;
    if e.end < e.start then None
    else
      var count := (e.end - e.start + 1) % WORD;
      if e.start * k >= WORD || e.start * k > UINT32_MAX then None
      else if count * k >= WORD || count * k > UINT32_MAX || (e.start * k + count * k - 1) % WORD > UINT32_MAX then None
      else match MbrType(e.typeLow, e.typeHigh)
           case None => None
           case Some(kind) => Some(Partition(e.start * k, (e.start * k + count * k - 1) % WORD, kind))
  }

  ghost predicate ConvertedExactly(e: GptEntry, lb: nat)
    requires BlockSize(lb) && Words(e)
  {
    && (ConvertEntry(e, lb).Some? <==> Expressible(e, lb))
    && (ConvertEntry(e, lb).Some? ==> Converts(ConvertEntry(e, lb).value, e, lb))
  }

  lemma Exact512(e: GptEntry)
    requires Words(e)
    ensures ConvertedExactly(e, 512)
  {
  }

  lemma Exact2048(e: GptEntry)
    requires Words(e)
    ensures ConvertedExactly(e, 2048)
  {
    hide MbrType;
  }

  lemma Exact4096(e: GptEntry)
    requires Words(e)
    ensures ConvertedExactly(e, 4096)
  {
    hide MbrType;
  }

  // The 64-bit tests accept exactly the partitions an MBR entry can express, and the entry then
  // names the same bytes.
  lemma ConvertEntryExact(e: GptEntry, lb: nat)
    requires BlockSize(lb) && Words(e)
    ensures ConvertEntry(e, lb).Some? <==> Expressible(e, lb)
    ensures ConvertEntry(e, lb).Some? ==> Converts(ConvertEntry(e, lb).value, e, lb)
  {
    hide ConvertEntry, Expressible, Converts;
    Exact512(e);
    Exact2048(e);
    Exact4096(e);
  }

  function IfUsed(e: GptEntry): seq<GptEntry> {
    if InUse(e) then [e] else []
  }

  function Used(entries: seq<GptEntry>): (r: seq<GptEntry>) {
    if entries == [] then [] else IfUsed(entries[0]) + Used(entries[1..])
  }

  lemma {:induction false} UsedAppend(entries: seq<GptEntry>, e: GptEntry)
    ensures Used(entries + [e]) == Used(entries) + IfUsed(e)
  {
    hide IfUsed;
    if entries == [] {
      assert entries + [e] == [e];
      assert Used([e]) == IfUsed(e) + Used([]);
    } else {
      var rest := entries[1..];
      UsedAppend(rest, e);
      assert (entries + [e])[1..] == rest + [e];
    }
  }

  lemma {:induction false} UsedPrefix(entries: seq<GptEntry>, i: nat)
    requires i <= |entries|
    ensures Used(entries[..i]) <= Used(entries)
    decreases |entries| - i
  {
    hide IfUsed;
    if i == |entries| {
      assert entries[..i] == entries;
    } else {
      UsedPrefix(entries, i + 1);
      UsedAppend(entries[..i], entries[i]);
      assert entries[..i + 1] == entries[..i] + [entries[i]];
    }
  }

  // ---------- CHS addresses ----------

  datatype Chs = Chs(b0: nat, b1: nat, b2: nat)

  function Lba2Chs(lba: nat): Chs {
    if lba > 63 * 255 * 1024 || lba / (255 * 63) >= 1024 then Chs(0xfe, 0xff, 0xff)
    else
      var cylinder, head, sector := lba / (255 * 63), lba / 63 % 255, lba % 63 + 1;
      // cylinder >> 2 masked with 0xc0 keeps cylinder bits 8 and 9
      Chs(head, cylinder / 256 * 64 + sector, cylinder % 256)
  }

  // Reading the three bytes back: cylinder bits 8 and 9 sit above the six sector bits.
  function Chs2Lba(c: Chs): int {
    ((c.b1 / 64 * 256 + c.b2) * 255 + c.b0) * 63 + (c.b1 % 64 - 1)
  }

  lemma ChsRoundTrip(lba: nat)
    ensures lba < 1024 * 255 * 63 ==> Chs2Lba(Lba2Chs(lba)) == lba
    ensures lba >= 1024 * 255 * 63 ==> Lba2Chs(lba) == Chs(0xfe, 0xff, 0xff)
    ensures var c := Lba2Chs(lba); c.b0 < 256 && c.b1 < 256 && c.b2 < 256 && c.b1 % 64 >= 1
  {
    if lba < 1024 * 255 * 63 {
      assert lba / 63 / 255 == lba / (255 * 63);
    }
  }

  // ---------- Erased blocks ----------

  // The reserve of an alternate table: its header and 16384 bytes of entries.
  function AltReserve(lb: nat): nat
    requires lb > 0
  {
    1 + (16384 + lb - 1) / lb
  }

  function PrimaryReserve(lb: nat, firstUsable: nat): nat
    requires lb > 0
  {
    var most := 2 + (16384 + lb - 1) / lb;
    if firstUsable < most then firstUsable else most
  }

  // First block to erase for the alternate at `alt`; the subtraction wraps.
  function AltFirst(lb: nat, alt: nat, lastUsable: nat): nat
    requires lb > 0
  {
    var first := (alt - (AltReserve(lb) - 1)) % WORD;
    if first <= lastUsable then lastUsable + 1 else first
  }

  datatype Alternate = Alternate(lba: nat, signed: bool)

  // In bytes: the record's block, the header's and 16384 bytes of entries, as far as the usable blocks.
  predicate InPrimary(lb: nat, firstUsable: nat, block: nat) {
    block < firstUsable && block * lb < 2 * lb + 16384
  }

  // The header's block and the 16384 bytes before it, as far back as the usable blocks; nothing at all
  // when there are fewer bytes than that before it.
  predicate InAlternate(lb: nat, lastUsable: nat, alt: nat, block: nat) {
    lastUsable < block <= alt && 16384 <= alt * lb <= block * lb + 16384
  }

  // The blocks of a primary table, and of the alternates that are there.
  predicate Erased(lb: nat, firstUsable: nat, lastUsable: nat, alternates: seq<Alternate>, block: nat) {
    || InPrimary(lb, firstUsable, block)
    || exists i :: 0 <= i < |alternates| && alternates[i].signed && InAlternate(lb, lastUsable, alternates[i].lba, block)
  }

  lemma PrimaryExact(lb: nat, firstUsable: nat, block: nat)
    requires BlockSize(lb)
    ensures block < PrimaryReserve(lb, firstUsable) <==> InPrimary(lb, firstUsable, block)
  {
  }

  lemma AlternateExact(lb: nat, lastUsable: nat, alt: nat, block: nat)
    requires BlockSize(lb) && alt < WORD
    ensures AltFirst(lb, alt, lastUsable) <= block <= alt <==> InAlternate(lb, lastUsable, alt, block)
  {
  }

  lemma ErasedStep(lb: nat, firstUsable: nat, lastUsable: nat, alternates: seq<Alternate>, i: nat)
    requires i < |alternates|
    ensures forall c: nat :: Erased(lb, firstUsable, lastUsable, alternates[..i + 1], c) <==>
                             || Erased(lb, firstUsable, lastUsable, alternates[..i], c)
                             || (alternates[i].signed && InAlternate(lb, lastUsable, alternates[i].lba, c))
  {
    hide InPrimary, InAlternate;
  }

  lemma ErasedOutside(lb: nat, firstUsable: nat, lastUsable: nat, alternates: seq<Alternate>, c: nat)
    requires Erased(lb, firstUsable, lastUsable, alternates, c)
    ensures c < firstUsable || c > lastUsable
  {
  }

  // ---------- The end of the device ----------

  // A logical block is present when its last byte can be read through the physical block cache.
  predicate Present(n: nat, b: nat, lb: nat, block: nat)
    requires b > 0 && lb > 0
  {
    block * lb + lb - 1 < WORD && Reachable(n, b, block * lb + lb - 1, 1)
  }

  lemma PresentMonotone(n: nat, b: nat, lb: nat, block: nat, later: nat)
    requires b > 0 && lb > 0 && block <= later && Present(n, b, lb, later)
    ensures Present(n, b, lb, block)
  {
    hide BlockExists, BlockOf;
    assert block * lb <= later * lb;
    DivMonotone(block * lb + lb - 1, later * lb + lb - 1, b);
    BlockMonotone(n, b, BlockOf(block * lb + lb - 1, b), BlockOf(later * lb + lb - 1, b));
  }

  lemma PresentBounded(n: nat, b: nat, lb: nat, block: nat)
    requires b > 0 && lb > 1 && Present(n, b, lb, block)
    ensures block < WORD / 2
  {
  }
}
