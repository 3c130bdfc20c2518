/**
 The segment loop of the ELF64 loader: it maps each PT_LOAD segment, writes the segment through
 the new translation, and re-flags its pages. Chapter 5 of the System V gABI asks that a segment's
 memory image be its file bytes followed by zeros.
 */
module ElfLoader {
  import opened Options
  import opened PageTables
  import opened Paging
  import opened Ranges
  import opened AddressSpaces
  import opened TableBudget

  const PROCESS_MEMORY_START := 0x2000000
  const LOWER_HALF_END := 0x8000_0000_0000
  const STACK_START := 0x7fff_ffff_ffff
  const STACK_SIZE := 0x4000
  const HEAP_START := 0x5555_5555_4000
  const HEAP_SIZE := 0x100000
  const KERNEL_ALL := 3
  const KERNEL_RW := 0x8000_0000_0000_0003
  const USER_RW := 0x8000_0000_0000_0007
  const USER_CODE := 5

  datatype Segment = Segment(kind: nat, flags: nat, offset: nat, vaddr: nat, fileSize: nat, memSize: nat)

  // Contents of data frames, by physical address.
  type Ram = map<nat, bv8>

  function PhysOf(m: Memory, root: nat, va: nat): Option<nat> {
    match Walk(m, root, PageOf(va))
    case None => None
    case Some(e) => Some(e.frame * PAGE_SIZE + va % PAGE_SIZE)
  }

  // A byte keeps its place in the page: the frame of the page, and the low twelve bits of the address.
  lemma OffsetKept(m: Memory, root: nat, va: nat)
    requires Walk(m, root, PageOf(va)).Some?
    ensures PhysOf(m, root, va).Some?
    ensures PhysOf(m, root, va).value / 4096 == Walk(m, root, PageOf(va)).value.frame && PhysOf(m, root, va).value % 4096 == va % 4096
  {
    hide Walk;
  }

  function ReadByte(m: Memory, ram: Ram, root: nat, va: nat): Option<bv8> {
    match PhysOf(m, root, va)
    case None => None
    case Some(a) => if a in ram then Some(ram[a]) else None
  }

  // ---------- No two virtual bytes share a physical byte ----------

  lemma FramesApart(m: Memory, labels: map<nat, Label>, root: nat, p: nat, r: nat, q: nat)
    requires Invariant(m, labels) && IsRoot(labels, root) && IsRoot(labels, r) && p < PAGES && q < PAGES
    requires p != q || (r != root && p < UPPER_HALF)
    requires Walk(m, root, p).Some? && Walk(m, r, q).Some?
    ensures Walk(m, root, p).value.frame != Walk(m, r, q).value.frame
  {
    SlotLabel(m, labels, root, 4, p);
    SlotLabel(m, labels, r, 4, q);
    var s, t := SlotOf(m, root, p).value, SlotOf(m, r, q).value;
    assert Leaf(m, labels, s.table, s.index) && Leaf(m, labels, t.table, t.index);
    if s == t { WalksMeet(m, labels, root, p, r, q); }
  }

  lemma BytesApart(m: Memory, labels: map<nat, Label>, root: nat, va: nat, vb: nat)
    requires Invariant(m, labels) && IsRoot(labels, root)
    requires va < LOWER_HALF_END && vb < LOWER_HALF_END && va != vb
    requires PhysOf(m, root, va).Some? && PhysOf(m, root, vb).Some?
    ensures PhysOf(m, root, va) != PhysOf(m, root, vb)
  {
    hide Invariant, Walk;
    if PageOf(va) != PageOf(vb) {
      FramesApart(m, labels, root, PageOf(va), root, PageOf(vb));
    }
  }

  // The bytes of a lower half are no other space's bytes.
  lemma SpacesApart(m: Memory, labels: map<nat, Label>, root: nat, va: nat, r: nat, vb: nat)
    requires Invariant(m, labels) && IsRoot(labels, root) && IsRoot(labels, r) && r != root
    requires va < LOWER_HALF_END && PhysOf(m, root, va).Some? && PhysOf(m, r, vb).Some?
    ensures PhysOf(m, root, va) != PhysOf(m, r, vb)
  {
    hide Invariant, Walk;
    FramesApart(m, labels, root, PageOf(va), r, PageOf(vb));
  }

  // What the other address spaces read in their lower halves is as before.
  ghost predicate OthersRead(m: Memory, ram: Ram, m': Memory, ram': Ram, labels: map<nat, Label>, root: nat) {
    forall r, vb: nat :: IsRoot(labels, r) && r != root && vb < LOWER_HALF_END ==> ReadByte(m', ram', r, vb) == ReadByte(m, ram, r, vb)
  }

  lemma OthersReadTransitive(m0: Memory, ram0: Ram, m1: Memory, ram1: Ram, m2: Memory, ram2: Ram,
                             labels0: map<nat, Label>, labels1: map<nat, Label>, root: nat)
    requires Extends(labels0, labels1)
    requires OthersRead(m0, ram0, m1, ram1, labels0, root) && OthersRead(m1, ram1, m2, ram2, labels1, root)
    ensures OthersRead(m0, ram0, m2, ram2, labels0, root)
  {
    hide ReadByte;
  }

  lemma OthersReadKept(m: Memory, m': Memory, labels: map<nat, Label>, root: nat, pages: set<nat>, ram: Ram)
    requires OthersKept(m, m', labels, root, pages) || AllKept(m, m', labels)
    ensures OthersRead(m, ram, m', ram, labels, root)
  {
    hide Walk;
    forall r, vb: nat | IsRoot(labels, r) && r != root && vb < LOWER_HALF_END
      ensures ReadByte(m', ram, r, vb) == ReadByte(m, ram, r, vb)
    {
      assert PageOf(vb) < UPPER_HALF;
    }
  }

  ghost predicate RangeMapped(m: Memory, root: nat, va: nat, n: nat) {
    forall vb: nat :: va <= vb < va + n ==> PhysOf(m, root, vb).Some?
  }

  ghost predicate Holds(m: Memory, ram: Ram, root: nat, va: nat, data: seq<bv8>) {
    forall vb: nat :: va <= vb < va + |data| ==> ReadByte(m, ram, root, vb) == Some(data[vb - va])
  }

  // memcpy and memset through the translation.
  method StoreBytes(m: Memory, ghost labels: map<nat, Label>, ram: Ram, root: nat, va: nat, data: seq<bv8>)
    returns (ram': Ram)
    requires Invariant(m, labels) && IsRoot(labels, root) && va + |data| <= LOWER_HALF_END
    requires RangeMapped(m, root, va, |data|)
    ensures Holds(m, ram', root, va, data)
    ensures forall vb: nat :: vb < LOWER_HALF_END && !(va <= vb < va + |data|)
                              ==> ReadByte(m, ram', root, vb) == ReadByte(m, ram, root, vb)
    ensures OthersRead(m, ram, m, ram', labels, root)
  {
    hide Invariant, PhysOf;
    ram' := ram;
    var k := 0;
    while k < |data|
      invariant k <= |data|
      invariant Holds(m, ram', root, va, data[..k])
      invariant forall vb: nat :: vb < LOWER_HALF_END && !(va <= vb < va + k)
                                  ==> ReadByte(m, ram', root, vb) == ReadByte(m, ram, root, vb)
      invariant OthersRead(m, ram, m, ram', labels, root)
    {
      ghost var before := ram';
      ram' := ram'[PhysOf(m, root, va + k).value := data[k]];
      forall vb: nat | vb < LOWER_HALF_END && vb != va + k
        ensures ReadByte(m, ram', root, vb) == ReadByte(m, before, root, vb)
      {
        if PhysOf(m, root, vb).Some? { BytesApart(m, labels, root, va + k, vb); }
      }
      forall r, vb: nat | IsRoot(labels, r) && r != root && vb < LOWER_HALF_END
        ensures ReadByte(m, ram', r, vb) == ReadByte(m, before, r, vb)
      {
        if PhysOf(m, r, vb).Some? { SpacesApart(m, labels, root, va + k, r, vb); }
      }
      k := k + 1;
    }
    assert data[..k] == data;
  }

  // ---------- Segments ----------

  ghost predicate WellFormed(seg: Segment, file: seq<bv8>) {
    && PROCESS_MEMORY_START <= seg.vaddr && seg.vaddr + seg.memSize <= LOWER_HALF_END
    && seg.fileSize <= seg.memSize && seg.offset + seg.fileSize <= |file|
  }

  function Count(seg: Segment): nat
    requires seg.vaddr > 0
  {
    Amount(seg.vaddr, seg.vaddr + seg.memSize - 1)
  }

  function ImageByte(seg: Segment, file: seq<bv8>, k: nat): bv8
    requires seg.offset + seg.fileSize <= |file|
  {
    if k < seg.fileSize then file[seg.offset + k] else 0
  }

  // The memory image the gABI asks for.
  ghost predicate Loaded(m: Memory, ram: Ram, root: nat, seg: Segment, file: seq<bv8>)
    requires seg.offset + seg.fileSize <= |file|
  {
    forall vb: nat :: seg.vaddr <= vb < seg.vaddr + seg.memSize
                      ==> ReadByte(m, ram, root, vb) == Some(ImageByte(seg, file, vb - seg.vaddr))
  }

  lemma AddressInRange(start: nat, n: nat, vb: nat)
    requires 0 < start <= vb < start + n <= LOWER_HALF_END
    ensures vb / PAGE_SIZE - start / PAGE_SIZE < Amount(start, start + n - 1)
    ensures PageOf(vb) == PageAt(start, vb / PAGE_SIZE - start / PAGE_SIZE)
    ensures PageOf(vb) in RangePages(start, Amount(start, start + n - 1))
  {
  }

  // The pages of a range are the pages of its addresses.
  lemma PageHasAddress(start: nat, n: nat, p: nat) returns (vb: nat)
    requires 0 < start && 0 < n && start + n <= LOWER_HALF_END && p in RangePages(start, Amount(start, start + n - 1))
    ensures start <= vb < start + n && PageOf(vb) == p
  {
    var k :| 0 <= k < Amount(start, start + n - 1) && p == PageAt(start, k);
    vb := if k == 0 then start else (start / PAGE_SIZE + k) * PAGE_SIZE;
    AddressInRange(start, n, vb);
    assert vb / PAGE_SIZE == start / PAGE_SIZE + k;
  }

  lemma CountBounded(seg: Segment, file: seq<bv8>)
    requires WellFormed(seg, file)
    ensures Count(seg) <= PAGES
  {
  }

  // Translations with the same frames read the same bytes.
  ghost predicate SameFrames(m: Memory, m': Memory, root: nat) {
    forall p: nat :: p < PAGES && Walk(m, root, p).Some? ==>
                  Walk(m', root, p).Some? && Walk(m', root, p).value.frame == Walk(m, root, p).value.frame
  }

  lemma SameBytes(m: Memory, m': Memory, root: nat, ram: Ram, vb: nat)
    requires SameFrames(m, m', root) && ReadByte(m, ram, root, vb).Some?
    ensures ReadByte(m', ram, root, vb) == ReadByte(m, ram, root, vb)
  {
  }

  lemma LoadedKept(m: Memory, m': Memory, ram: Ram, root: nat, seg: Segment, file: seq<bv8>)
    requires seg.offset + seg.fileSize <= |file|
    requires Loaded(m, ram, root, seg, file) && SameFrames(m, m', root)
    ensures Loaded(m', ram, root, seg, file)
  {
    hide SameFrames, ReadByte, ImageByte, PageOf;
    forall vb: nat | seg.vaddr <= vb < seg.vaddr + seg.memSize
      ensures ReadByte(m', ram, root, vb) == ReadByte(m, ram, root, vb)
    {
      SameBytes(m, m', root, ram, vb);
    }
  }

  // Mapped pages stay as they are, frame and flags.
  ghost predicate KeptWalks(m: Memory, m': Memory, root: nat) {
    forall p: nat :: p < PAGES && Walk(m, root, p).Some? ==> Walk(m', root, p) == Walk(m, root, p)
  }

  lemma KeptIsSame(m: Memory, m': Memory, root: nat)
    requires KeptWalks(m, m', root)
    ensures SameFrames(m, m', root)
  {
    hide Walk;
  }

  lemma KeptTransitive(m0: Memory, m1: Memory, m2: Memory, root: nat)
    requires KeptWalks(m0, m1, root) && KeptWalks(m1, m2, root)
    ensures KeptWalks(m0, m2, root)
  {
    hide Walk;
  }

  // Whatever vmm_alloc is asked for, and whether or not it succeeds, mapped pages keep their frames.
  lemma AllocKeepsFrames(m: Memory, labels: map<nat, Label>, root: nat, start: nat, n: nat, flags: nat)
    returns (labels': map<nat, Label>)
    requires Invariant(m, labels) && IsRoot(labels, root) && FlagWord(flags) % 2 == 1
    requires Nourished(m, root, start, 0, n, flags)
    ensures var m' := AllocRange(m, root, start, n, flags).0;
            && Invariant(m', labels') && Extends(labels, labels') && KeptWalks(m, m', root)
            && forall ram :: OthersRead(m, ram, m', ram, labels, root)
  {
    hide Invariant, AllocRange, Walk, Nourished, PageAt, OthersRead;
    var frames;
    labels', frames := AllocRangeAllOrNothing(m, labels, root, start, n, flags);
    var (m', ok) := AllocRange(m, root, start, n, flags);
    forall p: nat | p < PAGES && Walk(m, root, p).Some?
      ensures Walk(m', root, p) == Walk(m, root, p)
    {
    }
    forall ram
      ensures OthersRead(m, ram, m', ram, labels, root)
    {
      OthersReadKept(m, m', labels, root, RangePages(start, n), ram);
    }
  }

  lemma EditKeepsSpaceFrames(m: Memory, labels: map<nat, Label>, root: nat, start: nat, n: nat, flags: nat)
    requires Invariant(m, labels) && IsRoot(labels, root) && FlagWord(flags) % 2 == 1 && flags != 0
    ensures var m' := EditFrom(m, root, start, 0, n, flags).0;
            && Invariant(m', labels) && SameFrames(m, m', root)
            && OthersKept(m, m', labels, root, RangePages(start, n))
            && Free(m') == Free(m)
            && (forall p: nat :: p < PAGES && Walk(m, root, p).None? ==> Walk(m', root, p).None?)
            && (forall p: nat :: p < PAGES && p in RangePages(start, n) && Walk(m, root, p).Some? ==>
                                   Walk(m', root, p).Some? && Walk(m', root, p).value.flags == FlagWord(flags))
  {
    hide Invariant, EditFrom, Walk, PageAt, FlagWord, OthersKept;
    EditFromSpace(m, labels, root, start, 0, n, flags);
    var m' := EditFrom(m, root, start, 0, n, flags).0;
    EditKeepsTotal(m, root, start, 0, n, flags);
    assert RestOfRange(start, 0, n) == RangePages(start, n);
    forall p: nat | p < PAGES
      ensures Walk(m, root, p).Some? <==> p in Space(m, root)
      ensures Walk(m', root, p).Some? <==> p in Space(m, root)
      ensures Walk(m, root, p).Some? ==> Walk(m', root, p).value.frame == Walk(m, root, p).value.frame
      ensures Walk(m, root, p).Some? && p in RangePages(start, n) ==> Walk(m', root, p).value.flags == FlagWord(flags)
    {
      assert p in Space(m', root) <==> p in Space(m, root);
      assert p in Space(m', root) ==> Space(m', root)[p] == Reflagged(Space(m, root), RangePages(start, n), flags)[p];
    }
  }

  lemma {:induction false} EditKeepsTotal(m: Memory, root: nat, start: nat, i: nat, n: nat, flags: nat)
    requires i <= n
    ensures EditFrom(m, root, start, i, n, flags).0.total == m.total
    decreases n - i
  {
    if i < n { EditKeepsTotal(EditPage(m, root, PageAt(start, i), 0, flags).0, root, start, i + 1, n, flags); }
  }

  ghost predicate Vacant(m: Memory, root: nat, pages: set<nat>) {
    forall p :: p in pages ==> Walk(m, root, p).None?
  }

  lemma FreshRangeMapped(m: Memory, m': Memory, root: nat, start: nat, size: nat, frames: seq<nat>, flags: nat)
    requires 0 < start && start + size <= LOWER_HALF_END && Backed(m, m', root, start, flags, frames)
    requires |frames| == Amount(start, start + size - 1)
    ensures RangeMapped(m', root, start, size)
    ensures forall vb: nat :: start <= vb < start + size ==> PhysOf(m, root, vb).None?
  {
    hide Walk, PageAt, PageOf, Amount;
    forall vb: nat | start <= vb < start + size
      ensures PhysOf(m', root, vb).Some? && PhysOf(m, root, vb).None?
    {
      AddressInRange(start, size, vb);
      var k := vb / PAGE_SIZE - start / PAGE_SIZE;
      assert Walk(m', root, PageAt(start, k)).Some? && Walk(m, root, PageAt(start, k)).None?;
    }
  }

  function SegmentFlags(seg: Segment): nat {
    if seg.flags % 2 == 1 then USER_CODE else USER_RW
  }

  // The pages are mapped, with these rights.
  ghost predicate MappedAs(m: Memory, root: nat, pages: set<nat>, rights: Rights) {
    forall p :: p in pages ==> Walk(m, root, p).Some? && RightsOf(Walk(m, root, p).value.flags) == rights
  }

  // What the processor grants for them.
  ghost predicate GrantedAs(m: Memory, root: nat, pages: set<nat>, rights: Rights) {
    forall p :: p in pages ==> Granted(m.tables, root, 4, p) == Some(rights)
  }

  lemma MappedGrants(m: Memory, labels: map<nat, Label>, root: nat, pages: set<nat>, rights: Rights)
    requires Invariant(m, labels) && IsRoot(labels, root) && MappedAs(m, root, pages, rights)
    ensures GrantedAs(m, root, pages, rights)
  {
    hide Invariant, Granted, Walk, RightsOf;
    forall p | p in pages
      ensures Granted(m.tables, root, 4, p) == Some(rights)
    {
      GrantedIsLeaf(m, labels, root, p);
    }
  }

  lemma MappedStays(m: Memory, m': Memory, root: nat, pages: set<nat>, rights: Rights)
    requires MappedAs(m, root, pages, rights) && KeptWalks(m, m', root) && forall p :: p in pages ==> p < PAGES
    ensures MappedAs(m', root, pages, rights)
  {
    hide Walk, RightsOf;
  }

  // A range that was just mapped has the rights its flags ask for.
  lemma BackedRights(m: Memory, m': Memory, root: nat, start: nat, flags: nat, frames: seq<nat>)
    requires Backed(m, m', root, start, flags, frames)
    ensures MappedAs(m', root, RangePages(start, |frames|), RightsOf(flags))
  {
    hide Walk, RightsOf, FlagWord, Carries, PageAt, Free;
    forall p | p in RangePages(start, |frames|)
      ensures Walk(m', root, p).Some? && RightsOf(Walk(m', root, p).value.flags) == RightsOf(flags)
    {
      var k :| 0 <= k < |frames| && p == PageAt(start, k);
      CarriesRights(Walk(m', root, PageAt(start, k)).value.flags, flags);
    }
  }

  lemma FixedRights()
    ensures RightsOf(USER_RW) == Rights(true, true, false) && RightsOf(KERNEL_RW) == Rights(true, false, false)
    ensures RightsOf(USER_CODE) == Rights(false, true, true)
  {
  }

  // Bit 0 of a segment's flags asks for execution: such a segment is executable and read-only, every
  // other one writable and not executable.
  lemma SegmentFlagsGrant(seg: Segment)
    ensures RightsOf(FlagWord(SegmentFlags(seg))) == Rights(seg.flags % 2 == 0, true, seg.flags % 2 == 1)
  {
    hide RightsOf, FlagWord, Carries;
    FixedRights();
    FlagWordCarries(SegmentFlags(seg));
    CarriesRights(FlagWord(SegmentFlags(seg)), SegmentFlags(seg));
  }

  // The segment's pages are mapped with the rights and flags it asks for.
  ghost predicate Flagged(m: Memory, root: nat, seg: Segment)
    requires seg.vaddr > 0
  {
    && MappedAs(m, root, RangePages(seg.vaddr, Count(seg)), Rights(seg.flags % 2 == 0, true, seg.flags % 2 == 1))
    && forall p :: p in RangePages(seg.vaddr, Count(seg)) ==>
                     Walk(m, root, p).Some? && Walk(m, root, p).value.flags == FlagWord(SegmentFlags(seg))
  }

  lemma FlaggedKept(m: Memory, m': Memory, root: nat, seg: Segment, file: seq<bv8>)
    requires WellFormed(seg, file) && Flagged(m, root, seg) && KeptWalks(m, m', root)
    ensures Flagged(m', root, seg)
  {
    hide Walk, FlagWord, PageAt, RightsOf;
    SegmentPagesLow(seg, file);
  }

  lemma FlaggedGrants(m: Memory, labels: map<nat, Label>, root: nat, seg: Segment)
    requires Invariant(m, labels) && IsRoot(labels, root) && seg.vaddr > 0 && Flagged(m, root, seg)
    ensures GrantedAs(m, root, RangePages(seg.vaddr, Count(seg)), Rights(seg.flags % 2 == 0, true, seg.flags % 2 == 1))
  {
    hide MappedAs, GrantedAs, Invariant;
    MappedGrants(m, labels, root, RangePages(seg.vaddr, Count(seg)), Rights(seg.flags % 2 == 0, true, seg.flags % 2 == 1));
  }

  lemma PagesDiffer(start: nat, k: nat)
    requires k < PAGES
    ensures PageAt(start, k) !in RangePages(start, k)
  {
    forall j | 0 <= j < k
      ensures PageAt(start, j) != PageAt(start, k)
    {
      PageAtDiffers(start, j, k);
    }
  }

  lemma PageAtDiffers(start: nat, j: nat, k: nat)
    requires j < k < PAGES
    ensures PageAt(start, j) != PageAt(start, k)
  {
  }

  // A vacant range is all fresh.
  lemma FreshVacant(m: Memory, root: nat, start: nat, n: nat)
    requires n <= PAGES
    ensures AllFresh(m, root, start, 0, n) <==> Vacant(m, root, RangePages(start, n))
  {
    hide Walk, PageAt;
    forall k | 0 <= k < n
      ensures PageAt(start, k) in RangePages(start, n) && PageAt(start, k) !in RangePages(start, k)
    {
      PagesDiffer(start, k);
    }
    if AllFresh(m, root, start, 0, n) {
      forall p | p in RangePages(start, n)
        ensures Walk(m, root, p).None?
      {
        var k :| 0 <= k < n && p == PageAt(start, k);
        assert FreshPage(m, root, start, k);
      }
    }
  }

  // One PT_LOAD segment: its image is in place, and every byte outside it reads as before.
  method LoadSegment(m: Memory, ghost labels: map<nat, Label>, ram: Ram, root: nat, seg: Segment, file: seq<bv8>)
    returns (m': Memory, ghost labels': map<nat, Label>, ram': Ram)
    requires Invariant(m, labels) && IsRoot(labels, root) && WellFormed(seg, file)
    requires Vacant(m, root, RangePages(seg.vaddr, Count(seg))) && |Free(m)| >= Demand(seg.vaddr, Count(seg))
    ensures Invariant(m', labels') && Extends(labels, labels') && Loaded(m', ram', root, seg, file) && Flagged(m', root, seg)
    ensures GrantedAs(m', root, RangePages(seg.vaddr, Count(seg)), Rights(seg.flags % 2 == 0, true, seg.flags % 2 == 1))
    ensures forall vb: nat :: vb < LOWER_HALF_END && !(seg.vaddr <= vb < seg.vaddr + seg.memSize) && ReadByte(m, ram, root, vb).Some?
                              ==> ReadByte(m', ram', root, vb) == ReadByte(m, ram, root, vb)
    ensures forall p: nat :: p < PAGES && p !in RangePages(seg.vaddr, Count(seg)) ==> Walk(m', root, p) == Walk(m, root, p)
    ensures |Free(m')| >= |Free(m)| - Demand(seg.vaddr, Count(seg))
    ensures OthersRead(m, ram, m', ram', labels, root)
  {
    hide Invariant, Walk, PageAt, PageOf, FlagWord, AllocRange, EditFrom, Nourished, ReadByte, Amount, Free, OthersRead, PhysOf, Demand, AllFresh,
      SegmentFlags, KeptWalks, RightsOf, GrantedAs, Carries;
    var n := Count(seg);
    CountBounded(seg, file);
    FlagWordsPresent();
    RangeDemand(m, labels, root, seg.vaddr, n, KERNEL_ALL);
    FreshVacant(m, root, seg.vaddr, n);
    ghost var frames;
    labels', frames := AllocRangeAllOrNothing(m, labels, root, seg.vaddr, n, KERNEL_ALL);
    ghost var _ := AllocKeepsFrames(m, labels, root, seg.vaddr, n, KERNEL_ALL);
    var m1 := AllocRange(m, root, seg.vaddr, n, KERNEL_ALL).0;
    FreshRangeMapped(m, m1, root, seg.vaddr, seg.memSize, frames, KERNEL_ALL);
    ram' := StoreBytes(m1, labels', ram, root, seg.vaddr, file[seg.offset..seg.offset + seg.fileSize]);
    var zeros: seq<bv8> := seq(seg.memSize - seg.fileSize, _ => 0);
    ghost var ram1 := ram';
    ram' := StoreBytes(m1, labels', ram', root, seg.vaddr + seg.fileSize, zeros);
    ImageInPlace(m1, ram1, ram', root, seg, file, zeros);
    m' := EditFrom(m1, root, seg.vaddr, 0, n, SegmentFlags(seg)).0;
    assert FlagWord(SegmentFlags(seg)) % 2 == 1 && SegmentFlags(seg) != 0 by { SegmentFlagsPresent(seg); }
    EditKeepsSpaceFrames(m1, labels', root, seg.vaddr, n, SegmentFlags(seg));
    KeptIsSame(m, m1, root);
    SegmentFlagged(m, m1, m', labels, labels', root, seg, file, frames);
    MappedGrants(m', labels', root, RangePages(seg.vaddr, n), Rights(seg.flags % 2 == 0, true, seg.flags % 2 == 1));
    LoadedKept(m1, m', ram', root, seg, file);
    OthersReadTransitive(m, ram, m1, ram, m1, ram1, labels, labels', root);
    OthersReadTransitive(m, ram, m1, ram1, m1, ram', labels, labels', root);
    OthersReadKept(m1, m', labels', root, RangePages(seg.vaddr, n), ram');
    OthersReadTransitive(m, ram, m1, ram', m', ram', labels, labels', root);
    forall vb: nat | vb < LOWER_HALF_END && !(seg.vaddr <= vb < seg.vaddr + seg.memSize) && ReadByte(m, ram, root, vb).Some?
      ensures ReadByte(m', ram', root, vb) == ReadByte(m, ram, root, vb)
    {
      SameBytes(m, m1, root, ram, vb);
      SameBytes(m1, m', root, ram', vb);
    }
  }

  lemma SegmentFlagsPresent(seg: Segment)
    ensures FlagWord(SegmentFlags(seg)) % 2 == 1 && SegmentFlags(seg) != 0
  {
    FlagWordsPresent();
  }

  lemma SegmentFlagged(m: Memory, m1: Memory, m': Memory, labels: map<nat, Label>, labels1: map<nat, Label>, root: nat,
                       seg: Segment, file: seq<bv8>, frames: seq<nat>)
    requires WellFormed(seg, file) && IsRoot(labels, root) && IsRoot(labels1, root) && |frames| == Count(seg)
    requires Backed(m, m1, root, seg.vaddr, KERNEL_ALL, frames) && OthersKept(m, m1, labels, root, RangePages(seg.vaddr, Count(seg)))
    requires OthersKept(m1, m', labels1, root, RangePages(seg.vaddr, Count(seg)))
    requires forall p: nat :: p < PAGES && p in RangePages(seg.vaddr, Count(seg)) && Walk(m1, root, p).Some? ==>
                                Walk(m', root, p).Some? && Walk(m', root, p).value.flags == FlagWord(SegmentFlags(seg))
    ensures Flagged(m', root, seg)
    ensures forall p: nat :: p < PAGES && p !in RangePages(seg.vaddr, Count(seg)) ==> Walk(m', root, p) == Walk(m, root, p)
  {
    hide Walk, PageAt, FlagWord, SegmentFlags, Count, Free, RightsOf, Carries;
    SegmentPagesLow(seg, file);
    SegmentFlagsGrant(seg);
    forall p | p in RangePages(seg.vaddr, Count(seg))
      ensures Walk(m', root, p).Some? && Walk(m', root, p).value.flags == FlagWord(SegmentFlags(seg))
    {
      var k :| 0 <= k < Count(seg) && p == PageAt(seg.vaddr, k);
      assert Walk(m1, root, PageAt(seg.vaddr, k)).Some?;
    }
  }

  lemma FlagWordsPresent()
    ensures FlagWord(KERNEL_ALL) % 2 == FlagWord(KERNEL_RW) % 2 == FlagWord(USER_RW) % 2 == FlagWord(USER_CODE) % 2 == 1
  {
  }

  lemma ImageInPlace(m: Memory, ram: Ram, ram': Ram, root: nat, seg: Segment, file: seq<bv8>, zeros: seq<bv8>)
    requires WellFormed(seg, file)
    requires Holds(m, ram, root, seg.vaddr, file[seg.offset..seg.offset + seg.fileSize])
    requires |zeros| == seg.memSize - seg.fileSize && forall k :: 0 <= k < |zeros| ==> zeros[k] == 0
    requires Holds(m, ram', root, seg.vaddr + seg.fileSize, zeros)
    requires forall vb: nat :: vb < LOWER_HALF_END && !(seg.vaddr + seg.fileSize <= vb < seg.vaddr + seg.fileSize + |zeros|)
                               ==> ReadByte(m, ram', root, vb) == ReadByte(m, ram, root, vb)
    ensures Loaded(m, ram', root, seg, file)
  {
  }

  // ---------- The whole program ----------

  const DATA_PAGE := HEAP_START - PAGE_SIZE

  // A little-endian word of n bytes.
  function LittleEndian(x: nat, n: nat): (r: seq<bv8>)
    ensures |r| == n
  {
    if n == 0 then [] else [(x % 256) as bv8] + LittleEndian(x / 256, n - 1)
  }

  // The lowest byte first: what is read at the address of the word, and at each address after it.
  lemma {:induction false} LowestFirst(x: nat, n: nat, low: nat, k: nat)
    requires k < n && low < 256
    ensures LittleEndian(256 * x + low, n)[0] == low as bv8
    ensures k > 0 ==> LittleEndian(256 * x + low, n)[k] == LittleEndian(x, n - 1)[k - 1]
  {
    assert (256 * x + low) % 256 == low && (256 * x + low) / 256 == x;
  }

  // What the allocator of a new process finds: its list is the one block that is the whole heap.
  ghost predicate HeapReady(m: Memory, ram: Ram, root: nat) {
    && Holds(m, ram, root, DATA_PAGE, LittleEndian(HEAP_START, 8)) && Holds(m, ram, root, DATA_PAGE + 8, [0])
    && Holds(m, ram, root, DATA_PAGE + 16, LittleEndian(HEAP_SIZE, 8))
    && Holds(m, ram, root, HEAP_START, LittleEndian(HEAP_SIZE, 8)) && Holds(m, ram, root, HEAP_START + 8, LittleEndian(0, 8))
  }

  // Every byte outside the given range reads as before.
  ghost predicate OnlyInside(m: Memory, ram: Ram, ram': Ram, root: nat, lo: nat, hi: nat) {
    forall vb: nat :: vb < LOWER_HALF_END && !(lo <= vb < hi) ==> ReadByte(m, ram', root, vb) == ReadByte(m, ram, root, vb)
  }

  lemma HoldsOn(m: Memory, ram: Ram, ram': Ram, root: nat, va: nat, data: seq<bv8>, lo: nat, hi: nat)
    requires Holds(m, ram, root, va, data) && OnlyInside(m, ram, ram', root, lo, hi)
    requires va + |data| <= lo || hi <= va
    requires va + |data| <= LOWER_HALF_END
    ensures Holds(m, ram', root, va, data)
  {
    hide ReadByte;
  }

  lemma OnlyInsideBoth(m: Memory, ram0: Ram, ram1: Ram, ram2: Ram, root: nat, lo: nat, hi: nat, lo1: nat, hi1: nat)
    requires OnlyInside(m, ram0, ram1, root, lo, hi) && OnlyInside(m, ram1, ram2, root, lo1, hi1) && lo <= lo1 && hi1 <= hi
    ensures OnlyInside(m, ram0, ram2, root, lo, hi)
  {
    hide ReadByte;
  }

  method Store(m: Memory, ghost labels: map<nat, Label>, ram: Ram, root: nat, va: nat, data: seq<bv8>, ghost ram0: Ram)
    returns (ram': Ram)
    requires Invariant(m, labels) && IsRoot(labels, root)
    requires DATA_PAGE <= va && va + |data| <= HEAP_START + HEAP_SIZE && RangeMapped(m, root, DATA_PAGE, PAGE_SIZE + HEAP_SIZE)
    requires OnlyInside(m, ram0, ram, root, DATA_PAGE, HEAP_START + HEAP_SIZE) && OthersRead(m, ram0, m, ram, labels, root)
    ensures Holds(m, ram', root, va, data) && OnlyInside(m, ram, ram', root, va, va + |data|)
    ensures OnlyInside(m, ram0, ram', root, DATA_PAGE, HEAP_START + HEAP_SIZE) && OthersRead(m, ram0, m, ram', labels, root)
  {
    hide Invariant, ReadByte, OthersRead, PhysOf;
    ram' := StoreBytes(m, labels, ram, root, va, data);
    OnlyInsideBoth(m, ram0, ram, ram', root, DATA_PAGE, HEAP_START + HEAP_SIZE, va, va + |data|);
    OthersReadTransitive(m, ram0, m, ram, m, ram', labels, labels, root);
  }

  // The stores at the end of the initialisation of a process heap.
  method StoreHeaders(m: Memory, ghost labels: map<nat, Label>, ram: Ram, root: nat) returns (ram': Ram)
    requires Invariant(m, labels) && IsRoot(labels, root) && RangeMapped(m, root, DATA_PAGE, PAGE_SIZE + HEAP_SIZE)
    ensures HeapReady(m, ram', root)
    ensures OnlyInside(m, ram, ram', root, DATA_PAGE, HEAP_START + HEAP_SIZE) && OthersRead(m, ram, m, ram', labels, root)
  {
    hide Invariant, ReadByte, OthersRead, PhysOf, Holds, OnlyInside, RangeMapped, LittleEndian;
    assert OnlyInside(m, ram, ram, root, DATA_PAGE, HEAP_START + HEAP_SIZE) && OthersRead(m, ram, m, ram, labels, root) by {
      NothingStored(m, labels, ram, root);
    }
    ghost var r1, r2, r3, r4;
    ram' := Store(m, labels, ram, root, DATA_PAGE + 8, [0], ram);
    r1 := ram';
    ram' := Store(m, labels, ram', root, DATA_PAGE, LittleEndian(HEAP_START, 8), ram);
    HoldsOn(m, r1, ram', root, DATA_PAGE + 8, [0], DATA_PAGE, DATA_PAGE + 8);
    r2 := ram';
    ram' := Store(m, labels, ram', root, HEAP_START, LittleEndian(HEAP_SIZE, 8), ram);
    HoldsOn(m, r2, ram', root, DATA_PAGE + 8, [0], HEAP_START, HEAP_START + 8);
    HoldsOn(m, r2, ram', root, DATA_PAGE, LittleEndian(HEAP_START, 8), HEAP_START, HEAP_START + 8);
    r3 := ram';
    ram' := Store(m, labels, ram', root, HEAP_START + 8, LittleEndian(0, 8), ram);
    HoldsOn(m, r3, ram', root, DATA_PAGE + 8, [0], HEAP_START + 8, HEAP_START + 16);
    HoldsOn(m, r3, ram', root, DATA_PAGE, LittleEndian(HEAP_START, 8), HEAP_START + 8, HEAP_START + 16);
    HoldsOn(m, r3, ram', root, HEAP_START, LittleEndian(HEAP_SIZE, 8), HEAP_START + 8, HEAP_START + 16);
    r4 := ram';
    ram' := Store(m, labels, ram', root, DATA_PAGE + 16, LittleEndian(HEAP_SIZE, 8), ram);
    HoldsOn(m, r4, ram', root, DATA_PAGE + 8, [0], DATA_PAGE + 16, DATA_PAGE + 24);
    HoldsOn(m, r4, ram', root, DATA_PAGE, LittleEndian(HEAP_START, 8), DATA_PAGE + 16, DATA_PAGE + 24);
    HoldsOn(m, r4, ram', root, HEAP_START, LittleEndian(HEAP_SIZE, 8), DATA_PAGE + 16, DATA_PAGE + 24);
    HoldsOn(m, r4, ram', root, HEAP_START + 8, LittleEndian(0, 8), DATA_PAGE + 16, DATA_PAGE + 24);
  }

  lemma NothingStored(m: Memory, labels: map<nat, Label>, ram: Ram, root: nat)
    ensures OnlyInside(m, ram, ram, root, DATA_PAGE, HEAP_START + HEAP_SIZE) && OthersRead(m, ram, m, ram, labels, root)
  {
  }

  // Whatever was readable still reads the same.
  ghost predicate ReadsOn(m: Memory, ram: Ram, m': Memory, ram': Ram, root: nat) {
    forall vb: nat :: vb < LOWER_HALF_END && ReadByte(m, ram, root, vb).Some? ==> ReadByte(m', ram', root, vb) == ReadByte(m, ram, root, vb)
  }

  // allocator_heap_init for a process: the allocator's own page, then the heap, then their headers.
  method HeapInit(m: Memory, ghost labels: map<nat, Label>, ram: Ram, root: nat)
    returns (ok: bool, m': Memory, ghost labels': map<nat, Label>, ram': Ram)
    requires Invariant(m, labels) && IsRoot(labels, root) && |Free(m)| >= Demand(DATA_PAGE, 1) + Demand(HEAP_START, 256)
    ensures Invariant(m', labels') && Extends(labels, labels') && KeptWalks(m, m', root)
    ensures ReadsOn(m, ram, m', ram', root) && OthersRead(m, ram, m', ram', labels, root)
    ensures ok <==> Vacant(m, root, RangePages(DATA_PAGE, 1)) && Vacant(m, root, RangePages(HEAP_START, 256))
    ensures ok ==> HeapReady(m', ram', root) && MappedAs(m', root, RangePages(DATA_PAGE, 1), Rights(true, false, false))
                   && MappedAs(m', root, RangePages(HEAP_START, 256), Rights(true, true, false))
    ensures !ok ==> ram' == ram
  {
    hide Invariant, Walk, FlagWord, AllocRange, UnmapPage, Nourished, Space, PageOf, OthersRead, Free, ReadByte, PhysOf, OnlyInside, HeapReady, Demand,
      SameFrames, KeptWalks, RangePages, ReadsOn, MappedAs, RightsOf, Carries;
    FixedRights();
    assert Amount(DATA_PAGE, DATA_PAGE + PAGE_SIZE - 1) == 1 && Amount(HEAP_START, HEAP_START + HEAP_SIZE - 1) == 256;
    FlagWordsPresent();
    ram' := ram;
    var (m1, ok1) := AllocRange(m, root, DATA_PAGE, Amount(DATA_PAGE, DATA_PAGE + PAGE_SIZE - 1), KERNEL_RW);
    ghost var labels1, frames1 := AllocKept(m, labels, root, DATA_PAGE, 1, KERNEL_RW, ram);
    if !ok1 {
      return false, m1, labels1, ram;
    }
    VacantOn(m, m1, root);
    var (m2, ok2) := AllocRange(m1, root, HEAP_START, Amount(HEAP_START, HEAP_START + HEAP_SIZE - 1), USER_RW);
    ghost var frames2;
    labels', frames2 := AllocKept(m1, labels1, root, HEAP_START, 256, USER_RW, ram);
    OthersReadTransitive(m, ram, m1, ram, m2, ram, labels, labels1, root);
    KeptTransitive(m, m1, m2, root);
    KeptIsSame(m, m1, root);
    KeptIsSame(m, m2, root);
    KeptIsSame(m1, m2, root);
    m' := m2;
    if !ok2 {
      DataPageWasFree(m, m1, root, frames1);
      UnmapPageSpace(m2, labels', root, PageOf(DATA_PAGE));
      m' := UnmapPage(m2, root, PageOf(DATA_PAGE)).0;
      UnmapKeepsOthers(m, m2, m', labels', root, PageOf(DATA_PAGE));
      OthersReadKept(m2, m', labels', root, {PageOf(DATA_PAGE)}, ram);
      OthersReadTransitive(m, ram, m2, ram, m', ram, labels, labels', root);
      KeptIsSame(m, m', root);
      ReadsOnFrames(m, m', root, ram);
      return false, m', labels', ram;
    }
    FreshRangeMapped(m, m1, root, DATA_PAGE, PAGE_SIZE, frames1, KERNEL_RW);
    FreshRangeMapped(m1, m2, root, HEAP_START, HEAP_SIZE, frames2, USER_RW);
    BothMapped(m, m1, m2, root);
    BackedRights(m, m1, root, DATA_PAGE, KERNEL_RW, frames1);
    BackedRights(m1, m2, root, HEAP_START, USER_RW, frames2);
    MappedStays(m1, m2, root, RangePages(DATA_PAGE, 1), Rights(true, false, false)) by { FixedPages(); }
    ram' := StoreHeaders(m2, labels', ram, root);
    HeapWasVacant(m, m1, m2, ram, ram', root);
    OthersReadTransitive(m, ram, m2, ram, m2, ram', labels, labels', root);
    ok := true;
  }

  // A range with the frames it can cost: mapped exactly when it was vacant, and nothing else changes.
  lemma AllocKept(m: Memory, labels: map<nat, Label>, root: nat, start: nat, n: nat, flags: nat, ram: Ram)
    returns (labels': map<nat, Label>, frames: seq<nat>)
    requires Invariant(m, labels) && IsRoot(labels, root) && FlagWord(flags) % 2 == 1 && n <= PAGES && |Free(m)| >= Demand(start, n)
    ensures var (m', ok) := AllocRange(m, root, start, n, flags);
            && Invariant(m', labels') && Extends(labels, labels') && IsRoot(labels', root) && KeptWalks(m, m', root)
            && OthersRead(m, ram, m', ram, labels, root) && ReadsOn(m, ram, m', ram, root)
            && (ok <==> Vacant(m, root, RangePages(start, n))) && |Free(m')| >= |Free(m)| - Demand(start, n)
            && (ok ==> |frames| == n && Backed(m, m', root, start, flags, frames))
            && (forall p: nat :: p < PAGES && p !in RangePages(start, n) ==> Walk(m', root, p) == Walk(m, root, p))
  {
    hide Invariant, Walk, FlagWord, AllocRange, Nourished, OthersRead, PageAt, Free, ReadByte, PhysOf, Demand, AllFresh, Vacant;
    RangeDemand(m, labels, root, start, n, flags);
    FreshVacant(m, root, start, n);
    labels', frames := AllocRangeAllOrNothing(m, labels, root, start, n, flags);
    var _ := AllocKeepsFrames(m, labels, root, start, n, flags);
    KeptIsSame(m, AllocRange(m, root, start, n, flags).0, root);
    ReadsOnFrames(m, AllocRange(m, root, start, n, flags).0, root, ram);
  }

  lemma VacantOn(m: Memory, m1: Memory, root: nat)
    requires forall p: nat :: p < PAGES && p !in RangePages(DATA_PAGE, 1) ==> Walk(m1, root, p) == Walk(m, root, p)
    ensures Vacant(m1, root, RangePages(HEAP_START, 256)) <==> Vacant(m, root, RangePages(HEAP_START, 256))
  {
    hide Walk;
    forall p | p in RangePages(HEAP_START, 256)
      ensures p !in RangePages(DATA_PAGE, 1) && p < PAGES
    {
    }
  }

  lemma ReadsOnFrames(m: Memory, m': Memory, root: nat, ram: Ram)
    requires SameFrames(m, m', root)
    ensures ReadsOn(m, ram, m', ram, root)
  {
    hide ReadByte;
    forall vb: nat | ReadByte(m, ram, root, vb).Some?
      ensures ReadByte(m', ram, root, vb) == ReadByte(m, ram, root, vb)
    {
      SameBytes(m, m', root, ram, vb);
    }
  }

  lemma UnmapKeepsOthers(m: Memory, m2: Memory, m': Memory, labels: map<nat, Label>, root: nat, page: nat)
    requires IsRoot(labels, root) && KeptWalks(m, m2, root) && OthersKept(m2, m', labels, root, {page}) && Walk(m, root, page).None?
    ensures KeptWalks(m, m', root)
  {
    hide Walk;
  }

  lemma BothMapped(m: Memory, m1: Memory, m2: Memory, root: nat)
    requires RangeMapped(m1, root, DATA_PAGE, PAGE_SIZE) && RangeMapped(m2, root, HEAP_START, HEAP_SIZE) && SameFrames(m1, m2, root)
    ensures RangeMapped(m2, root, DATA_PAGE, PAGE_SIZE + HEAP_SIZE)
  {
    hide Walk;
    forall vb: nat | DATA_PAGE <= vb < DATA_PAGE + PAGE_SIZE + HEAP_SIZE
      ensures PhysOf(m2, root, vb).Some?
    {
      if vb < HEAP_START { assert PhysOf(m1, root, vb).Some? && PageOf(vb) < PAGES; }
    }
  }

  // No byte of the heap could be read before, so the headers hide none.
  lemma HeapWasVacant(m: Memory, m1: Memory, m2: Memory, ram: Ram, ram': Ram, root: nat)
    requires SameFrames(m, m1, root) && SameFrames(m, m2, root)
    requires forall vb: nat :: DATA_PAGE <= vb < DATA_PAGE + PAGE_SIZE ==> PhysOf(m, root, vb).None?
    requires forall vb: nat :: HEAP_START <= vb < HEAP_START + HEAP_SIZE ==> PhysOf(m1, root, vb).None?
    requires OnlyInside(m2, ram, ram', root, DATA_PAGE, HEAP_START + HEAP_SIZE)
    ensures ReadsOn(m, ram, m2, ram', root)
  {
    hide Walk;
    forall vb: nat | vb < LOWER_HALF_END && ReadByte(m, ram, root, vb).Some?
      ensures ReadByte(m2, ram', root, vb) == ReadByte(m, ram, root, vb)
    {
      assert PhysOf(m, root, vb).Some? && PageOf(vb) < PAGES;
      assert PhysOf(m1, root, vb).Some?;
      SameBytes(m, m2, root, ram, vb);
    }
  }

  lemma DataPageWasFree(m: Memory, m': Memory, root: nat, frames: seq<nat>)
    requires |frames| == 1 && Backed(m, m', root, DATA_PAGE, KERNEL_RW, frames)
    ensures Walk(m, root, PageOf(DATA_PAGE)).None?
  {
    hide Walk;
    assert PageAt(DATA_PAGE, 0) == PageOf(DATA_PAGE);
  }

  // Segment type 1 is PT_LOAD.
  predicate Wanted(seg: Segment) {
    seg.kind == 1 && seg.vaddr >= PROCESS_MEMORY_START
  }

  predicate TooLow(seg: Segment) {
    seg.kind == 1 && seg.vaddr < PROCESS_MEMORY_START
  }

  ghost function SegmentDemand(segs: seq<Segment>): nat {
    if segs == [] then 0 else (if Wanted(segs[0]) then Demand(segs[0].vaddr, Count(segs[0])) else 0) + SegmentDemand(segs[1..])
  }

  ghost predicate Apart(s: Segment, t: Segment)
    requires s.vaddr > 0 && t.vaddr > 0
  {
    RangePages(s.vaddr, Count(s)) !! RangePages(t.vaddr, Count(t))
  }

  // PT_LOAD segments inside the file and the lower half, on pages of their own.
  ghost predicate Loadable(segs: seq<Segment>, file: seq<bv8>) {
    && (forall i :: 0 <= i < |segs| && Wanted(segs[i]) ==> WellFormed(segs[i], file))
    && (forall i, j :: 0 <= i < j < |segs| && Wanted(segs[i]) && Wanted(segs[j]) ==> Apart(segs[i], segs[j]))
  }

  // Loading one segment leaves the image of a segment on other pages alone.
  lemma OtherSegmentKept(m: Memory, ram: Ram, m': Memory, ram': Ram, root: nat, seg: Segment, other: Segment, file: seq<bv8>)
    requires WellFormed(seg, file) && WellFormed(other, file) && Apart(other, seg)
    requires Loaded(m, ram, root, other, file)
    requires forall vb: nat :: vb < LOWER_HALF_END && !(seg.vaddr <= vb < seg.vaddr + seg.memSize) && ReadByte(m, ram, root, vb).Some?
                               ==> ReadByte(m', ram', root, vb) == ReadByte(m, ram, root, vb)
    ensures Loaded(m', ram', root, other, file)
  {
    hide ReadByte, PageOf, Amount, PageAt;
    forall vb: nat | other.vaddr <= vb < other.vaddr + other.memSize
      ensures ReadByte(m', ram', root, vb) == Some(ImageByte(other, file, vb - other.vaddr))
    {
      AddressInRange(other.vaddr, other.memSize, vb);
      if seg.vaddr <= vb < seg.vaddr + seg.memSize {
        AddressInRange(seg.vaddr, seg.memSize, vb);
        assert false;
      }
    }
  }

  lemma SegmentPagesLow(seg: Segment, file: seq<bv8>)
    requires WellFormed(seg, file)
    ensures forall p :: p in RangePages(seg.vaddr, Count(seg)) ==> p < UPPER_HALF
  {
  }

  lemma NewRootIsEmptyBelow(m: Memory, labels: map<nat, Label>, kernel: nat) returns (labels': map<nat, Label>)
    requires Invariant(m, labels) && IsRoot(labels, kernel) && Free(m) != {}
    ensures var (m1, root) := CreateRoot(m);
            && root in m1.tables && kernel in m1.tables
            && var m2 := CopyUpperHalf(m1, root, kernel);
            && Invariant(m2, labels') && IsRoot(labels', root) && |Free(m2)| == |Free(m)| - 1
            && Extends(labels, labels') && root !in labels && (forall ram :: OthersRead(m, ram, m2, ram, labels, root))
            && forall p: nat :: p < UPPER_HALF ==> Walk(m2, root, p).None?
  {
    hide Linked, LeavesOwned, Walk, LeafSlot;
    labels' := CreateRootCorrect(m, labels);
    var (m1, root) := CreateRoot(m);
    CopyUpperHalfInvariant(m1, labels', root, kernel);
    AllocFrameTakesOne(m);
    var m2 := CopyUpperHalf(m1, root, kernel);
    assert Free(m2) == Free(AllocFrame(m).0);
    forall p: nat | p < UPPER_HALF
      ensures Walk(m2, root, p).None?
    {
      CopyWalk(m1, labels', root, kernel, root, p);
      assert p !in Space(m1, root);
    }
    forall r, p: nat | IsRoot(labels, r) && p < PAGES
      ensures Walk(m2, r, p) == Walk(m, r, p)
    {
      CopyWalk(m1, labels', root, kernel, r, p);
    }
    forall ram
      ensures OthersRead(m, ram, m2, ram, labels, root)
    {
      OthersReadKept(m, m2, labels, root, {}, ram);
    }
  }

  // Page p belongs to one of the first i segments.
  ghost predicate Taken(segs: seq<Segment>, i: nat, p: nat)
    requires i <= |segs|
  {
    exists j :: 0 <= j < i && Wanted(segs[j]) && p in RangePages(segs[j].vaddr, Count(segs[j]))
  }

  // The first i segments are in place with their flags, and the lower half maps their pages and no
  // others.
  ghost predicate Done(m: Memory, ram: Ram, root: nat, segs: seq<Segment>, file: seq<bv8>, i: nat)
    requires i <= |segs| && Loadable(segs, file)
  {
    && (forall j :: 0 <= j < i && Wanted(segs[j]) ==> Loaded(m, ram, root, segs[j], file) && Flagged(m, root, segs[j]))
    && (forall p: nat :: p < UPPER_HALF ==> (Walk(m, root, p).Some? <==> Taken(segs, i, p)))
  }

  lemma DoneStep(m: Memory, ram: Ram, m': Memory, ram': Ram, root: nat, segs: seq<Segment>, file: seq<bv8>, i: nat)
    requires i < |segs| && Loadable(segs, file) && Wanted(segs[i]) && Done(m, ram, root, segs, file, i)
    requires Loaded(m', ram', root, segs[i], file) && Flagged(m', root, segs[i])
    requires forall vb: nat :: vb < LOWER_HALF_END && !(segs[i].vaddr <= vb < segs[i].vaddr + segs[i].memSize) && ReadByte(m, ram, root, vb).Some?
                               ==> ReadByte(m', ram', root, vb) == ReadByte(m, ram, root, vb)
    requires forall p: nat :: p < PAGES && p !in RangePages(segs[i].vaddr, Count(segs[i])) ==> Walk(m', root, p) == Walk(m, root, p)
    ensures Done(m', ram', root, segs, file, i + 1)
  {
    hide ReadByte, Walk, Loaded, PageAt, Count, Flagged, FlagWord;
    forall j | 0 <= j < i && Wanted(segs[j])
      ensures Loaded(m', ram', root, segs[j], file) && Flagged(m', root, segs[j])
    {
      OtherSegmentKept(m, ram, m', ram', root, segs[i], segs[j], file);
      OtherFlagsKept(m, m', root, segs[i], segs[j], file);
    }
    forall p: nat | p < UPPER_HALF
      ensures Walk(m', root, p).Some? <==> Taken(segs, i + 1, p)
    {
      TakenStep(segs, i, p);
      if p in RangePages(segs[i].vaddr, Count(segs[i])) { assert Walk(m', root, p).Some? by { FlaggedIsMapped(m', root, segs[i], p); } }
    }
  }

  lemma FlaggedIsMapped(m: Memory, root: nat, seg: Segment, p: nat)
    requires seg.vaddr > 0 && Flagged(m, root, seg) && p in RangePages(seg.vaddr, Count(seg))
    ensures Walk(m, root, p).Some?
  {
  }

  lemma OtherFlagsKept(m: Memory, m': Memory, root: nat, seg: Segment, other: Segment, file: seq<bv8>)
    requires WellFormed(seg, file) && WellFormed(other, file) && Apart(other, seg) && Flagged(m, root, other)
    requires forall p: nat :: p < PAGES && p !in RangePages(seg.vaddr, Count(seg)) ==> Walk(m', root, p) == Walk(m, root, p)
    ensures Flagged(m', root, other)
  {
    hide Walk, PageAt, FlagWord, RightsOf;
    SegmentPagesLow(other, file);
  }

  lemma TakenStep(segs: seq<Segment>, i: nat, p: nat)
    requires i < |segs| && forall j :: 0 <= j < |segs| && Wanted(segs[j]) ==> segs[j].vaddr > 0
    ensures Taken(segs, i + 1, p) <==> Taken(segs, i, p) || (Wanted(segs[i]) && p in RangePages(segs[i].vaddr, Count(segs[i])))
  {
    hide PageAt, Count;
  }

  // A segment's pages are vacant until it is loaded.
  lemma NextVacant(m: Memory, ram: Ram, root: nat, segs: seq<Segment>, file: seq<bv8>, i: nat)
    requires i < |segs| && Loadable(segs, file) && Wanted(segs[i]) && Done(m, ram, root, segs, file, i)
    ensures Vacant(m, root, RangePages(segs[i].vaddr, Count(segs[i])))
  {
    hide Walk, PageAt, Count, Loaded, Flagged;
    SegmentPagesLow(segs[i], file);
    forall p | p in RangePages(segs[i].vaddr, Count(segs[i]))
      ensures !Taken(segs, i, p)
    {
      forall j | 0 <= j < i && Wanted(segs[j])
        ensures p !in RangePages(segs[j].vaddr, Count(segs[j]))
      {
        assert Apart(segs[j], segs[i]);
      }
    }
  }

  // No segment has a page of the range.
  ghost predicate ClearOf(segs: seq<Segment>, start: nat, n: nat) {
    forall p :: p in RangePages(start, n) ==> !Taken(segs, |segs|, p)
  }

  lemma ClearIsVacant(m: Memory, ram: Ram, root: nat, segs: seq<Segment>, file: seq<bv8>, start: nat, n: nat)
    requires Loadable(segs, file) && Done(m, ram, root, segs, file, |segs|)
    requires forall p :: p in RangePages(start, n) ==> p < UPPER_HALF
    ensures Vacant(m, root, RangePages(start, n)) <==> ClearOf(segs, start, n)
  {
    hide Walk, PageAt, Count, Loaded, Flagged, RangePages, Taken;
  }

  const STACK_BASE := STACK_START - STACK_SIZE + 1

  // A frame for the top table, and what the segments, the stack and the heap can cost.
  ghost predicate Enough(m: Memory, segs: seq<Segment>) {
    |Free(m)| >= 1 + SegmentDemand(segs) + LaterDemand()
  }

  ghost function LaterDemand(): nat {
    Demand(STACK_BASE, 4) + Demand(DATA_PAGE, 1) + Demand(HEAP_START, 256)
  }

  lemma FixedPages()
    ensures forall p :: p in RangePages(STACK_BASE, 4) ==> p < UPPER_HALF
    ensures forall p :: p in RangePages(DATA_PAGE, 1) ==> p < UPPER_HALF && p !in RangePages(STACK_BASE, 4)
    ensures forall p :: p in RangePages(HEAP_START, 256) ==> p < UPPER_HALF && p !in RangePages(STACK_BASE, 4)
  {
  }

  // The finished address space: on success every PT_LOAD segment reads as its file bytes followed by
  // zeros, on pages with its flags; the stack is mapped and the heap ready unless a segment lies
  // there; no other address space reads anything new. A segment below the process area is refused.
  method LoadProgram(m: Memory, ghost labels: map<nat, Label>, ram: Ram, kernel: nat, segs: seq<Segment>, file: seq<bv8>)
    returns (ok: bool, m': Memory, ghost labels': map<nat, Label>, ram': Ram, root: nat)
    requires Invariant(m, labels) && IsRoot(labels, kernel) && Loadable(segs, file)
    requires Enough(m, segs)
    ensures Invariant(m', labels') && IsRoot(labels', root)
    ensures ok <==> forall i :: 0 <= i < |segs| && segs[i].kind == 1 ==> segs[i].vaddr >= 0x200_0000
    ensures ok ==> forall i :: 0 <= i < |segs| && segs[i].kind == 1 ==>
                                 && WellFormed(segs[i], file) && Loaded(m', ram', root, segs[i], file)
                                 && GrantedAs(m', root, RangePages(segs[i].vaddr, Count(segs[i])),
                                              Rights(segs[i].flags % 2 == 0, true, segs[i].flags % 2 == 1))
    ensures ok && ClearOf(segs, STACK_BASE, 4) ==>
              RangeMapped(m', root, STACK_BASE, STACK_SIZE) && GrantedAs(m', root, RangePages(STACK_BASE, 4), Rights(true, true, false))
    ensures ok && ClearOf(segs, DATA_PAGE, 1) && ClearOf(segs, HEAP_START, 256) ==>
              && HeapReady(m', ram', root) && GrantedAs(m', root, RangePages(DATA_PAGE, 1), Rights(true, false, false))
              && GrantedAs(m', root, RangePages(HEAP_START, 256), Rights(true, true, false))
    ensures root !in labels && OthersRead(m, ram, m', ram', labels, root)
  {
    hide Invariant, Walk, CreateRoot, CopyUpperHalf, AllocRange, ReadByte, Loaded, SameFrames, PageAt, Count, Free, FlagWord,
      Nourished, OthersRead, ReadsOn, HeapReady, Vacant, RangePages, Demand, Flagged, Done, KeptWalks, Taken, ClearOf, LaterDemand,
      GrantedAs, RangeMapped, WellFormed, RightsOf, Granted;
    labels' := NewRootIsEmptyBelow(m, labels, kernel);
    var m1, r := CreateRoot(m).0, CreateRoot(m).1;
    root := r;
    m' := CopyUpperHalf(m1, root, kernel);
    ram' := ram;
    DoneInitially(m', ram', root, segs, file);
    assert segs[0..] == segs;
    var i := 0;
    while i < |segs|
      invariant i <= |segs| && Invariant(m', labels') && IsRoot(labels', root)
      invariant Extends(labels, labels') && OthersRead(m, ram, m', ram', labels, root)
      invariant forall j :: 0 <= j < i ==> !TooLow(segs[j])
      invariant Done(m', ram', root, segs, file, i)
      invariant |Free(m')| >= SegmentDemand(segs[i..]) + LaterDemand()
    {
      assert segs[i..][0] == segs[i] && segs[i..][1..] == segs[i + 1..];
      if TooLow(segs[i]) {
        return false, m', labels', ram', root;
      }
      if Wanted(segs[i]) {
        ghost var m0, ram0, labels0 := m', ram', labels';
        NextVacant(m', ram', root, segs, file, i);
        m', labels', ram' := LoadSegment(m', labels', ram', root, segs[i], file);
        OthersReadTransitive(m, ram, m0, ram0, m', ram', labels, labels0, root);
        DoneStep(m0, ram0, m', ram', root, segs, file, i);
      } else {
        NotWantedStep(m', ram', root, segs, file, i);
      }
      i := i + 1;
    }
    ghost var m2, ram2, labels2 := m', ram', labels';
    m', labels', ram' := StackAndHeap(m', labels', ram', root, segs, file);
    OthersReadTransitive(m, ram, m2, ram2, m', ram', labels, labels2, root);
    ok := true;
    forall j | 0 <= j < |segs| && segs[j].kind == 1
      ensures Wanted(segs[j]) && WellFormed(segs[j], file)
    {
    }
  }

  lemma NotWantedStep(m: Memory, ram: Ram, root: nat, segs: seq<Segment>, file: seq<bv8>, i: nat)
    requires i < |segs| && Loadable(segs, file) && !Wanted(segs[i]) && Done(m, ram, root, segs, file, i)
    ensures Done(m, ram, root, segs, file, i + 1)
  {
    hide Walk, PageAt, Count, Loaded, Flagged, Taken;
    forall p: nat
      ensures Taken(segs, i + 1, p) <==> Taken(segs, i, p)
    {
      TakenStep(segs, i, p);
    }
  }

  // What follows the segments: the results of both allocations are not looked at.
  method StackAndHeap(m: Memory, ghost labels: map<nat, Label>, ram: Ram, root: nat, ghost segs: seq<Segment>, ghost file: seq<bv8>)
    returns (m': Memory, ghost labels': map<nat, Label>, ram': Ram)
    requires Invariant(m, labels) && IsRoot(labels, root) && Loadable(segs, file) && Done(m, ram, root, segs, file, |segs|)
    requires |Free(m)| >= LaterDemand()
    ensures Invariant(m', labels') && Extends(labels, labels') && IsRoot(labels', root) && OthersRead(m, ram, m', ram', labels, root)
    ensures forall j :: 0 <= j < |segs| && Wanted(segs[j]) ==>
                          && Loaded(m', ram', root, segs[j], file) && Flagged(m', root, segs[j])
                          && GrantedAs(m', root, RangePages(segs[j].vaddr, Count(segs[j])),
                                       Rights(segs[j].flags % 2 == 0, true, segs[j].flags % 2 == 1))
    ensures ClearOf(segs, STACK_BASE, 4) ==>
              RangeMapped(m', root, STACK_BASE, STACK_SIZE) && GrantedAs(m', root, RangePages(STACK_BASE, 4), Rights(true, true, false))
    ensures ClearOf(segs, DATA_PAGE, 1) && ClearOf(segs, HEAP_START, 256) ==>
              && HeapReady(m', ram', root) && GrantedAs(m', root, RangePages(DATA_PAGE, 1), Rights(true, false, false))
              && GrantedAs(m', root, RangePages(HEAP_START, 256), Rights(true, true, false))
  {
    hide Invariant, Walk, AllocRange, ReadByte, Loaded, SameFrames, PageAt, Count, Free, FlagWord, Nourished, OthersRead, ReadsOn, HeapReady,
      RangePages, Demand, Flagged, KeptWalks, Taken, ClearOf, PhysOf, RangeMapped, Vacant, MappedAs, GrantedAs, Granted, RightsOf, Carries;
    FlagWordsPresent();
    FixedRights();
    FixedPages();
    assert Amount(STACK_BASE, STACK_START) == 4;
    ghost var frames;
    labels', frames := AllocKept(m, labels, root, STACK_BASE, 4, USER_RW, ram);
    var m1, stacked := AllocRange(m, root, STACK_BASE, Amount(STACK_BASE, STACK_START), USER_RW).0,
      AllocRange(m, root, STACK_BASE, Amount(STACK_BASE, STACK_START), USER_RW).1;
    ClearIsVacant(m, ram, root, segs, file, STACK_BASE, 4);
    ClearIsVacant(m, ram, root, segs, file, DATA_PAGE, 1);
    ClearIsVacant(m, ram, root, segs, file, HEAP_START, 256);
    VacantAlike(m, m1, root, DATA_PAGE, 1);
    VacantAlike(m, m1, root, HEAP_START, 256);
    if stacked {
      FreshRangeMapped(m, m1, root, STACK_BASE, STACK_SIZE, frames, USER_RW);
      BackedRights(m, m1, root, STACK_BASE, USER_RW, frames);
    }
    ghost var labels1 := labels';
    var heap;
    heap, m', labels', ram' := HeapInit(m1, labels', ram, root);
    if stacked {
      MappedOn(m1, m', root, STACK_BASE, STACK_SIZE);
      MappedStays(m1, m', root, RangePages(STACK_BASE, 4), Rights(true, true, false));
      MappedGrants(m', labels', root, RangePages(STACK_BASE, 4), Rights(true, true, false));
    }
    if heap {
      MappedGrants(m', labels', root, RangePages(DATA_PAGE, 1), Rights(true, false, false));
      MappedGrants(m', labels', root, RangePages(HEAP_START, 256), Rights(true, true, false));
    }
    OthersReadTransitive(m, ram, m1, ram, m', ram', labels, labels1, root);
    KeptTransitive(m, m1, m', root);
    forall j | 0 <= j < |segs| && Wanted(segs[j])
      ensures && Loaded(m', ram', root, segs[j], file) && Flagged(m', root, segs[j])
              && GrantedAs(m', root, RangePages(segs[j].vaddr, Count(segs[j])),
                           Rights(segs[j].flags % 2 == 0, true, segs[j].flags % 2 == 1))
    {
      LoadedOn(m, ram, m1, ram, root, segs[j], file);
      LoadedOn(m1, ram, m', ram', root, segs[j], file);
      FlaggedKept(m, m', root, segs[j], file);
      FlaggedGrants(m', labels', root, segs[j]);
    }
  }

  lemma VacantAlike(m: Memory, m1: Memory, root: nat, start: nat, n: nat)
    requires forall p: nat :: p < PAGES && p !in RangePages(STACK_BASE, 4) ==> Walk(m1, root, p) == Walk(m, root, p)
    requires forall p :: p in RangePages(start, n) ==> p < UPPER_HALF && p !in RangePages(STACK_BASE, 4)
    ensures Vacant(m1, root, RangePages(start, n)) <==> Vacant(m, root, RangePages(start, n))
  {
    hide Walk, RangePages;
  }

  lemma MappedOn(m: Memory, m': Memory, root: nat, start: nat, size: nat)
    requires RangeMapped(m, root, start, size) && KeptWalks(m, m', root)
    ensures RangeMapped(m', root, start, size)
  {
    hide Walk;
    forall vb: nat | start <= vb < start + size
      ensures PhysOf(m', root, vb).Some?
    {
      assert PhysOf(m, root, vb).Some? && PageOf(vb) < PAGES;
    }
  }

  lemma LoadedOn(m: Memory, ram: Ram, m': Memory, ram': Ram, root: nat, seg: Segment, file: seq<bv8>)
    requires WellFormed(seg, file) && Loaded(m, ram, root, seg, file) && ReadsOn(m, ram, m', ram', root)
    ensures Loaded(m', ram', root, seg, file)
  {
    hide ReadByte, ImageByte;
  }

  lemma DoneInitially(m: Memory, ram: Ram, root: nat, segs: seq<Segment>, file: seq<bv8>)
    requires Loadable(segs, file) && forall p: nat :: p < UPPER_HALF ==> Walk(m, root, p).None?
    ensures Done(m, ram, root, segs, file, 0)
  {
    hide Walk, Count, PageAt;
  }
}
