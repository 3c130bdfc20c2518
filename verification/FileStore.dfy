/**
 Files on the disk: a table of extents over a flat array of bytes. The meaning of a store is its
 `View`, a map from live slots to (kind, bytes); placing a file changes one key of it.
 */
module FileStore {
  import opened ByteSeq
  import opened FreeSpace

  type Byte = b: nat | b < 256

  datatype Node = Node(kind: Kind, bytes: seq<Byte>)

  datatype Store = Store(sectors: nat, table: seq<Entry>, disk: seq<Byte>)

  ghost predicate Valid(s: Store) {
    Laid(s.table, s.sectors) && FIRST < s.sectors < 0x10000 && |s.disk| == s.sectors * SECTOR
  }

  // ---------- Sectors ----------

  // What `count` sectors hold after `data` is written to them: data, then zeros.
  function Image(data: seq<Byte>, count: nat): (r: seq<Byte>)
    ensures |r| == count * SECTOR
    ensures forall k :: 0 <= k < |r| ==> r[k] == if k < |data| then data[k] else 0
  {
    seq(count * SECTOR, k requires k >= 0 => if k < |data| then data[k] else 0)
  }

  // The sector count is an 8-bit word; an extent that does not end before the last sector is ignored.
  function WriteSectors(disk: seq<Byte>, sectors: nat, lba: nat, data: seq<Byte>): (r: seq<Byte>)
    requires |disk| == sectors * SECTOR
    ensures |r| == |disk|
  {
    var count := Count(|data|) % 256;
    if count < 1 || lba + count >= sectors then disk else Splice(disk, lba * SECTOR, Image(data, count))
  }

  // The first `size` bytes from a sector on, or nothing when the extent is refused.
  function ReadSectors(disk: seq<Byte>, sectors: nat, lba: nat, size: nat): (r: seq<Byte>)
    requires |disk| == sectors * SECTOR
  {
    var count := Count(size) % 256;
    if count < 1 || lba + count >= sectors then []
    else disk[lba * SECTOR..lba * SECTOR + if size <= count * SECTOR then size else count * SECTOR]
  }

  function Content(s: Store, slot: nat): (r: seq<Byte>)
    requires slot < |s.table| && |s.disk| == s.sectors * SECTOR
  {
    ReadSectors(s.disk, s.sectors, s.table[slot].start, s.table[slot].size)
  }

  ghost function View(s: Store): map<nat, Node> {
    if |s.disk| != s.sectors * SECTOR then map[]
    else map i: nat | i < |s.table| && s.table[i].live :: Node(s.table[i].kind, Content(s, i))
  }

  // What is written is read back exactly when its sectors can be counted in 8 bits and end before the
  // last one of the disk.
  lemma ReadBack(disk: seq<Byte>, sectors: nat, lba: nat, data: seq<Byte>)
    requires |disk| == sectors * SECTOR
    ensures ReadSectors(WriteSectors(disk, sectors, lba, data), sectors, lba, |data|) == data <==>
            data == [] || (|data| <= 255 * 512 && lba + Count(|data|) < sectors)
  {
  }

  // A write leaves every extent that is clear of it alone.
  lemma ReadElsewhere(disk: seq<Byte>, sectors: nat, lba: nat, data: seq<Byte>, e: Entry)
    requires |disk| == sectors * SECTOR && Count(|data|) <= MAX_SECTORS
    requires Placed(e, sectors) && e.live && (|data| > 0 ==> Clear(lba, Count(|data|), e))
    ensures ReadSectors(WriteSectors(disk, sectors, lba, data), sectors, e.start, e.size)
            == ReadSectors(disk, sectors, e.start, e.size)
  {
    hide Splice;
    var n, k := Count(|data|), Count(e.size);
    if 1 <= n && lba + n < sectors && 1 <= k {
      SpliceSpares(disk, lba, Image(data, n), n, e.start, k, e.size);
    }
  }

  // Bytes of sectors that stand before or behind the sectors written.
  lemma SpliceSpares(disk: seq<Byte>, lba: nat, image: seq<Byte>, n: nat, start: nat, k: nat, size: nat)
    requires |image| == n * SECTOR && (lba + n) * SECTOR <= |disk| && (start + k) * SECTOR <= |disk| && size <= k * SECTOR
    requires lba + n <= start || start + k <= lba
    ensures Splice(disk, lba * SECTOR, image)[start * SECTOR..start * SECTOR + size] == disk[start * SECTOR..start * SECTOR + size]
  {
  }

  // ---------- What the table operations do to the view ----------

  function Hidden(table: seq<Entry>, slot: nat): seq<Entry>
    requires slot < |table|
  {
    table[slot := table[slot].(live := false)]
  }

  // An extent found with the slot itself hidden may be taken by that slot.
  lemma LaidAfterPlacing(table: seq<Entry>, sectors: nat, slot: nat, e: Entry)
    requires Laid(table, sectors) && slot < SLOTS && e.live && Count(e.size) <= MAX_SECTORS
    requires Fits(Hidden(table, slot), sectors, e.start, Count(e.size))
    ensures Laid(table[slot := e], sectors)
    ensures forall i :: 0 <= i < SLOTS && i != slot && table[i].live && e.size > 0 ==> Clear(e.start, Count(e.size), table[i])
  {
    var t', h := table[slot := e], Hidden(table, slot);
    forall i | 0 <= i < SLOTS && i != slot
      ensures Clear(e.start, Count(e.size), table[i]) && (Occupies(table[i]) && e.size > 0 ==> Clear(table[i].start, Count(table[i].size), e))
    {
      assert h[i] == table[i] && Clear(e.start, Count(e.size), h[i]);
    }
    forall i | 0 <= i < SLOTS
      ensures Placed(t'[i], sectors)
    {
      assert Placed(table[i], sectors);
    }
  }

  lemma LaidAfterFreeing(table: seq<Entry>, sectors: nat, slot: nat)
    requires Laid(table, sectors) && slot < SLOTS
    ensures Laid(Hidden(table, slot), sectors)
  {
  }

  function Free(s: Store, slot: nat): Store
    requires slot < |s.table|
  {
    s.(table := Hidden(s.table, slot))
  }

  // The extent is the slot's from now on; its bytes are whatever the disk holds there.
  function Reserve(s: Store, slot: nat, kind: Kind, start: nat, size: nat): Store
    requires slot < |s.table|
  {
    s.(table := s.table[slot := Entry(true, kind, start, size)])
  }

  function Fill(s: Store, slot: nat, data: seq<Byte>): Store
    requires slot < |s.table| && |s.disk| == s.sectors * SECTOR
  {
    s.(disk := WriteSectors(s.disk, s.sectors, s.table[slot].start, data))
  }

  lemma FreeView(s: Store, slot: nat)
    requires Valid(s) && slot < SLOTS
    ensures Valid(Free(s, slot)) && View(Free(s, slot)) == View(s) - {slot}
  {
  }

  // Two stores that agree on every live slot but one have views that differ in that key at most.
  lemma ViewFrame(s: Store, s': Store, slot: nat)
    requires Valid(s) && Valid(s') && slot < SLOTS
    requires forall i :: 0 <= i < SLOTS && i != slot ==>
                           s'.table[i] == s.table[i] && (s.table[i].live ==> Content(s', i) == Content(s, i))
    ensures if s'.table[slot].live then View(s') == View(s)[slot := Node(s'.table[slot].kind, Content(s', slot))]
            else View(s') == View(s) - {slot}
  {
    hide Content, Laid;
    SlotsOf(s);
    SlotsOf(s');
  }

  lemma SlotsOf(s: Store)
    requires Valid(s)
    ensures |s.table| == SLOTS
  {
  }

  lemma ReserveView(s: Store, slot: nat, kind: Kind, start: nat, size: nat)
    requires Valid(s) && slot < SLOTS && Count(size) <= MAX_SECTORS
    requires Fits(Hidden(s.table, slot), s.sectors, start, Count(size))
    ensures var s' := Reserve(s, slot, kind, start, size);
            Valid(s') && View(s') == View(s)[slot := Node(kind, Content(s', slot))]
  {
    hide Count, Fits, Laid, ReadSectors;
    SlotsOf(s);
    LaidAfterPlacing(s.table, s.sectors, slot, Entry(true, kind, start, size));
    ViewFrame(s, Reserve(s, slot, kind, start, size), slot);
  }

  lemma FillView(s: Store, slot: nat, data: seq<Byte>)
    requires Valid(s) && slot < SLOTS && s.table[slot].live && s.table[slot].size == |data|
    ensures var s' := Fill(s, slot, data); Valid(s') && View(s') == View(s)[slot := Node(s.table[slot].kind, data)]
  {
    var s' := Fill(s, slot, data);
    var e := s.table[slot];
    assert Placed(e, s.sectors);
    if |data| > 0 {
      ReadBack(s.disk, s.sectors, e.start, data);
    }
    OthersUntouched(s, slot, data);
    hide Laid, ReadSectors, WriteSectors;
    ViewFrame(s, s', slot);
  }

  lemma OthersUntouched(s: Store, slot: nat, data: seq<Byte>)
    requires Valid(s) && slot < SLOTS && s.table[slot].live && s.table[slot].size == |data|
    ensures forall i :: 0 <= i < SLOTS && i != slot && s.table[i].live ==> Content(Fill(s, slot, data), i) == Content(s, i)
  {
    hide ReadSectors, WriteSectors, Count;
    var e := s.table[slot];
    assert Placed(e, s.sectors);
    forall i | 0 <= i < SLOTS && i != slot && s.table[i].live
      ensures Content(Fill(s, slot, data), i) == Content(s, i)
    {
      var f := s.table[i];
      assert Placed(f, s.sectors);
      if |data| > 0 && Occupies(f) {
        if slot < i { assert Clear(e.start, Count(e.size), f); } else { assert Clear(f.start, Count(f.size), e); }
      }
      CountZero(e.size);
      ReadElsewhere(s.disk, s.sectors, e.start, data, f);
    }
  }
}
