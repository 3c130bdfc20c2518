/**
 The frame allocator and page mapper as the kernel runs them: a bitmap updated in place, tables
 reached through frame numbers, and one current root. Every method is proved to compute the
 corresponding function on `Memory`, and keeps the forest invariant.
 */
module PageMapper {
  import opened Options
  import opened FrameBitmap
  import opened PageTables
  import P = Paging
  import R = Ranges
  import opened AddressSpaces

  class Mapper {
    const total: nat
    const bitmap: array<bv8>
    var tables: map<nat, Table>
    var current: nat
    ghost var labels: map<nat, Label>

    ghost predicate Sized()
      reads this
    {
      bitmap.Length == (total + 7) / 8
    }

    ghost function Mem(): Memory
      requires Sized()
      reads this, bitmap
    {
      Memory(total, UsedFrames(bitmap[..], total), tables)
    }

    ghost predicate Valid()
      reads this, bitmap
    {
      Sized() && Invariant(Mem(), labels) && IsRoot(labels, current)
    }

    // Any bitmap in which frame 0 and the frame of an empty top-level table are used.
    constructor (total: nat, bitmap: array<bv8>, root: nat)
      requires bitmap.Length == (total + 7) / 8 && 0 < root < total
      requires Frame(bitmap[..], 0) && Frame(bitmap[..], root)
      ensures Valid() && this.total == total && this.bitmap == bitmap && current == root && Space(Mem(), root) == map[]
    {
      this.total, this.bitmap, this.current := total, bitmap, root;
      this.tables := map[root := EmptyTable()];
      this.labels := map[root := Label(4, Private(root), 0)];
      new;
      FreshMemory(total, UsedFrames(bitmap[..], total), root);
    }

    // ---------- pmm.c ----------

    method SetFrame(frame: nat, used: bool)
      requires Sized() && frame < total
      modifies bitmap
      ensures Mem() == old(Mem()).(used := if used then old(Mem()).used + {frame} else old(Mem()).used - {frame})
    {
      hide WithBit, UsedFrames;
      ghost var before := bitmap[..];
      bitmap[frame / 8] := WithBit(bitmap[frame / 8], frame % 8, used);
      FrameWritten(before, total, frame, used);
      assert bitmap[..] == before[frame / 8 := WithBit(before[frame / 8], frame % 8, used)];
    }

    method GetFrame(frame: nat) returns (used: bool)
      requires Sized() && frame < total
      ensures used == (frame in Mem().used)
    {
      used := TestBit(bitmap[frame / 8], frame % 8);
      assert used == Frame(bitmap[..], frame);
    }

    // The lowest free frame, or 0 when there is none.
    method AllocFrame() returns (frame: nat)
      requires Sized()
      modifies bitmap
      ensures (Mem(), frame) == P.AllocFrame(old(Mem()))
    {
      var i := 0;
      while i < total
        invariant i <= total && Mem() == old(Mem())
        invariant forall g :: 0 <= g < i ==> g in Mem().used
      {
        var used := GetFrame(i);
        if !used {
          SetFrame(i, true);
          return i;
        }
        i := i + 1;
      }
      return 0;
    }

    // ---------- vmm.c ----------

    method CreateRoot() returns (root: nat)
      requires Valid() && P.Free(Mem()) != {}
      modifies this, bitmap
      ensures Valid() && (Mem(), root) == AddressSpaces.CreateRoot(old(Mem()))
      ensures IsRoot(labels, root) && Extends(old(labels), labels) && current == old(current)
    {
      ghost var m := Mem();
      root := AllocFrame();
      tables := tables[root := EmptyTable()];
      labels := CreateRootCorrect(m, labels);
    }

    method CopyKernelHalf(to: nat, from: nat)
      requires Valid() && IsRoot(labels, to) && IsRoot(labels, from)
      modifies this
      ensures Valid() && Mem() == CopyUpperHalf(old(Mem()), to, from)
      ensures labels == old(labels) && current == old(current)
    {
      hide Linked, LeavesOwned, FramesOwned, UsedFrames, HalfCopied;
      ghost var m := Mem();
      ghost var mine := tables[to];
      var i := 256;
      HalfCopiedEnds(mine, tables[from]);
      assert tables[to := mine] == tables;
      while i < 512
        invariant 256 <= i <= 512 && labels == old(labels) && current == old(current)
        invariant tables == m.tables[to := HalfCopied(mine, m.tables[from], i)]
      {
        HalfCopiedStep(mine, m.tables[from], i);
        tables := tables[to := tables[to][i := tables[from][i]]];
        i := i + 1;
      }
      CopyUpperHalfInvariant(m, labels, to, from);
    }

    // One level of the walk that creates what is missing.
    method NextTable(t: nat, ghost level: nat, ghost page: nat, i: nat) returns (f: nat)
      requires Sized() && Invariant(Mem(), labels) && t in labels && labels[t].level == level
      requires 2 <= level <= 4 && i == Index(level, page)
      requires |P.Free(Mem())| >= P.Missing(Mem(), t, level, page)
      modifies this, bitmap
      ensures Invariant(Mem(), labels) && Extends(old(labels), labels) && current == old(current)
      ensures f in labels && labels[f].level == level - 1 && f in tables
      ensures (Mem(), f) == P.EnsureTable(old(Mem()), t, i)
      ensures |P.Free(Mem())| >= P.Missing(Mem(), f, level - 1, page)
    {
      hide Linked, LeavesOwned, FramesOwned, UsedFrames, P.Missing;
      ghost var m := Mem();
      ghost var labels1 := EnsureOne(m, labels, t, level, page);
      var e := tables[t][i];
      if !e.Present() {
        f := AllocFrame();
        tables := tables[f := EmptyTable()];
        tables := tables[t := tables[t][i := Entry(TABLE_FLAGS, f)]];
      } else {
        f := e.frame;
      }
      labels := labels1;
    }

    method StoreLeaf(t: nat, i: nat, frame: nat, flags: nat) returns (ok: bool)
      requires Sized() && t in tables && i < 512 && frame < total
      modifies this, bitmap
      ensures (Mem(), ok) == P.StoreLeaf(old(Mem()), t, i, frame, flags)
      ensures labels == old(labels) && current == old(current)
    {
      hide FlagWord, UsedFrames;
      ghost var m := Mem();
      if tables[t][i].Present() { return false; }
      var reserved := GetFrame(frame);
      if !reserved {
        SetFrame(frame, true);
      }
      assert Mem() == m.(used := m.used + {frame});
      tables := tables[t := tables[t][i := Entry(FlagWord(flags), frame)]];
      return true;
    }

    method MapPage(virt: nat, phys: nat, flags: nat) returns (ok: bool)
      requires Valid() && phys / PAGE_SIZE < total
      requires |P.Free(Mem())| >= P.Missing(Mem(), current, 4, PageOf(virt))
      requires P.Unclaimed(Mem(), phys / PAGE_SIZE)
      requires phys / PAGE_SIZE !in P.EnsurePath(Mem(), current, 4, PageOf(virt)).0.tables
      modifies this, bitmap
      ensures Valid() && (Mem(), ok) == P.MapPage(old(Mem()), current, PageOf(virt), phys / PAGE_SIZE, flags)
      ensures Extends(old(labels), labels) && current == old(current)
    {
      hide Invariant, P.MapEffect, P.Unclaimed, P.EnsurePath, P.EnsureTable, P.Missing, P.StoreLeaf, Walk, SlotOf, UsedFrames,
        PageOf;
      var page, frame := PageOf(virt), phys / PAGE_SIZE;
      ghost var m, labels0 := Mem(), labels;
      var pdpt := NextTable(current, 4, page, Index(4, page));
      var pd := NextTable(pdpt, 3, page, Index(3, page));
      var pt := NextTable(pd, 2, page, Index(2, page));
      PathInThree(m, current, page);
      ok := StoreLeaf(pt, Index(1, page), frame, flags);
      labels := P.MapPageCorrect(m, labels0, current, page, frame, flags);
    }

    // The read-only walk shared by editing, unmapping and the queries.
    method FindLeaf(page: nat) returns (slot: Option<Slot>)
      requires Valid()
      ensures slot == SlotOf(Mem(), current, page)
    {
      ghost var m := Mem();
      if !tables[current][Index(4, page)].Present() { return None; }
      assert Branch(m, labels, current, Index(4, page));
      var pdpt := tables[current][Index(4, page)].frame;
      if !tables[pdpt][Index(3, page)].Present() { return None; }
      assert Branch(m, labels, pdpt, Index(3, page));
      var pd := tables[pdpt][Index(3, page)].frame;
      if !tables[pd][Index(2, page)].Present() { return None; }
      assert Branch(m, labels, pd, Index(2, page));
      return Some(Slot(tables[pd][Index(2, page)].frame, Index(1, page)));
    }

    method EditPage(virt: nat, phys: nat, flags: nat) returns (ok: bool)
      requires Valid() && (phys != 0 ==> phys / PAGE_SIZE < total)
      requires phys != 0 ==> P.Unclaimed(Mem(), phys / PAGE_SIZE) ||
                             (Walk(Mem(), current, PageOf(virt)).Some? &&
                              Walk(Mem(), current, PageOf(virt)).value.frame == phys / PAGE_SIZE)
      modifies this, bitmap
      ensures Valid() && (Mem(), ok) == P.EditPage(old(Mem()), current, PageOf(virt), phys, flags)
      ensures labels == old(labels) && current == old(current)
    {
      hide Invariant, Agree, FlagWord, WithBit, TestBit, Frame, UsedFrames, LeafSlot, P.Unclaimed;
      var page, frame := PageOf(virt), phys / PAGE_SIZE;
      ghost var m := Mem();
      P.EditPageCorrect(m, labels, current, page, phys, flags);
      var slot := FindLeaf(page);
      if slot.None? { return false; }
      var t, i := slot.value.table, slot.value.index;
      var e := tables[t][i];
      if !e.Present() { return false; }
      assert e.frame < total by { LeafFrameUsed(m, labels, current, page); }
      if flags != 0 {
        tables := tables[t := tables[t][i := Entry(FlagWord(flags), e.frame)]];
      }
      if phys != 0 {
        var reserved := GetFrame(e.frame);
        if reserved { SetFrame(e.frame, false); }
        assert Mem().used == m.used - {e.frame};
        var taken := GetFrame(frame);
        if !taken { SetFrame(frame, true); }
        tables := tables[t := tables[t][i := tables[t][i].(frame := frame)]];
      }
      assert tables == m.tables[t := m.tables[t][i := tables[t][i]]] by {
        EntryRewritten(m.tables, t, i, Entry(FlagWord(flags), e.frame), tables[t][i]);
      }
      assert Mem() == P.EditPage(m, current, page, phys, flags).0;
      return true;
    }

    method UnmapPage(virt: nat) returns (ok: bool)
      requires Valid()
      modifies this, bitmap
      ensures Valid() && (Mem(), ok) == P.UnmapPage(old(Mem()), current, PageOf(virt))
      ensures labels == old(labels) && current == old(current)
    {
      hide Linked, LeavesOwned, FramesOwned, Agree, WithBit, TestBit, Frame, UsedFrames, LeafSlot;
      var page := PageOf(virt);
      ghost var m := Mem();
      P.UnmapPageCorrect(m, labels, current, page);
      var slot := FindLeaf(page);
      if slot.None? { return false; }
      var t, i := slot.value.table, slot.value.index;
      var e := tables[t][i];
      if !e.Present() { return false; }
      assert e.frame < total by { LeafFrameUsed(m, labels, current, page); }
      tables := tables[t := tables[t][i := e.(flags := e.flags - 1)]];
      var reserved := GetFrame(e.frame);
      if reserved { SetFrame(e.frame, false); }
      assert Mem() == P.UnmapPage(m, current, page).0;
      return true;
    }

    method IsMapped(virt: nat) returns (mapped: bool)
      requires Valid()
      ensures mapped == Walk(Mem(), current, PageOf(virt)).Some?
    {
      var slot := FindLeaf(PageOf(virt));
      mapped := slot.Some? && tables[slot.value.table][slot.value.index].Present();
    }

    // The page's physical address, or 0. The final reservation test never fails.
    method VirtToPhys(virt: nat) returns (phys: nat)
      requires Valid()
      ensures phys == match Walk(Mem(), current, PageOf(virt)) case None => 0 case Some(e) => e.frame * PAGE_SIZE
      ensures phys == 0 <==> Walk(Mem(), current, PageOf(virt)).None?
    {
      phys := 0;
      var slot := FindLeaf(PageOf(virt));
      if slot.Some? {
        var e := tables[slot.value.table][slot.value.index];
        if e.Present() {
          LeafFrameUsed(Mem(), labels, current, PageOf(virt));
          var reserved := GetFrame(e.frame);
          if reserved {
            phys := e.frame * PAGE_SIZE;
          }
        }
      }
    }

    method AllocOne(virt: nat, flags: nat) returns (ok: bool)
      requires Valid() && FlagWord(flags) % 2 == 1
      requires P.Free(Mem()) != {} ==>
                 var m1 := P.AllocFrame(Mem()).0; |P.Free(m1)| >= P.Missing(m1, current, 4, PageOf(virt))
      modifies this, bitmap
      ensures Valid() && (Mem(), ok) == R.AllocOne(old(Mem()), current, PageOf(virt), flags)
      ensures Extends(old(labels), labels) && current == old(current)
    {
      hide Invariant, UsedFrames, PageOf, P.Free, P.AllocFrame, P.MapPage, P.EnsurePath, P.Missing, P.Unclaimed, FlagWord;
      ghost var m, labels0, page := Mem(), labels, PageOf(virt);
      var frame := AllocFrame();
      ok := false;
      if frame != 0 {
        PrepareMap(m, labels, current, page, frame);
        ok := MapPage(virt, frame * PAGE_SIZE, flags);
        if !ok {
          SetFrame(frame, false);
        }
      }
      labels := AllocOneCorrect(m, labels0, current, page, flags);
    }

    method AllocRange(start: nat, end: nat, flags: nat) returns (ok: bool)
      requires Valid() && FlagWord(flags) % 2 == 1
      requires R.Nourished(Mem(), current, start, 0, R.Amount(start, end), flags)
      modifies this, bitmap
      ensures Valid() && (Mem(), ok) == R.AllocRange(old(Mem()), current, start, R.Amount(start, end), flags)
      ensures Extends(old(labels), labels) && current == old(current)
    {
      hide Invariant, FlagWord, UsedFrames, PageOf, R.PageAt, R.Amount, R.AllocOne;
      ghost var m := Mem();
      var amount := R.Amount(start, end);
      var failed := amount;
      var i := 0;
      while i < amount
        invariant i <= amount && failed == amount && Valid() && Extends(old(labels), labels) && current == old(current)
        invariant R.Nourished(Mem(), current, start, i, amount, flags)
        invariant R.AllocFrom(m, current, start, 0, amount, flags) == R.AllocFrom(Mem(), current, start, i, amount, flags)
      {
        R.PageAtIsPageOfAddress(start, i);
        R.NourishedStep(Mem(), labels, current, start, i, amount, flags);
        var mapped := AllocOne((start + i * PAGE_SIZE) % 0x1_0000_0000_0000_0000, flags);
        if !mapped {
          failed := i;
          break;
        }
        i := i + 1;
      }
      if failed < amount {
        UnmapPages(start, failed);
      }
      return failed == amount;
    }

    // The loop of vmm_free, which vmm_alloc also rolls back with.
    method UnmapPages(start: nat, amount: nat)
      requires Valid()
      modifies this, bitmap
      ensures Valid() && Mem() == R.UnmapFrom(old(Mem()), current, start, 0, amount)
      ensures labels == old(labels) && current == old(current)
    {
      hide Invariant, UsedFrames, PageOf, R.PageAt, P.UnmapPage;
      var i := 0;
      while i < amount
        invariant i <= amount && Valid() && labels == old(labels) && current == old(current)
        invariant R.UnmapFrom(old(Mem()), current, start, 0, amount) == R.UnmapFrom(Mem(), current, start, i, amount)
      {
        R.PageAtIsPageOfAddress(start, i);
        var _ := UnmapPage((start + i * PAGE_SIZE) % 0x1_0000_0000_0000_0000);
        i := i + 1;
      }
    }

    method FreeRange(start: nat, end: nat)
      requires Valid()
      modifies this, bitmap
      ensures Valid() && Mem() == R.UnmapFrom(old(Mem()), current, start, 0, R.Amount(start, end))
      ensures labels == old(labels) && current == old(current)
    {
      UnmapPages(start, R.Amount(start, end));
    }

    method EditRange(start: nat, end: nat, flags: nat) returns (ok: bool)
      requires Valid()
      modifies this, bitmap
      ensures Valid() && (Mem(), ok) == R.EditFrom(old(Mem()), current, start, 0, R.Amount(start, end), flags)
      ensures labels == old(labels) && current == old(current)
    {
      hide Invariant, FlagWord, UsedFrames, PageOf, R.PageAt, R.Amount, P.EditPage;
      var amount := R.Amount(start, end);
      ok := true;
      var i := 0;
      while i < amount
        invariant i <= amount && Valid() && labels == old(labels) && current == old(current)
        invariant var (m1, all) := R.EditFrom(old(Mem()), current, start, 0, amount, flags);
                  var (m2, rest) := R.EditFrom(Mem(), current, start, i, amount, flags);
                  m1 == m2 && all == (ok && rest)
      {
        R.PageAtIsPageOfAddress(start, i);
        var s := EditPage((start + i * PAGE_SIZE) % 0x1_0000_0000_0000_0000, 0, flags);
        if !s { ok := false; }
        i := i + 1;
      }
    }
  }

  // ---------- Facts the methods use ----------

  lemma EntryRewritten(tables: map<nat, Table>, t: nat, i: nat, a: Entry, b: Entry)
    requires t in tables && i < 512
    ensures tables[t := tables[t][i := tables[t][i]]] == tables
    ensures var once := tables[t := tables[t][i := a]]; once[t := once[t][i := b]] == tables[t := tables[t][i := b]]
  {
    assert tables[t][i := tables[t][i]] == tables[t];
    assert tables[t][i := a][i := b] == tables[t][i := b];
  }

  ghost function HalfCopied(mine: Table, theirs: Table, i: nat): Table
    requires 256 <= i <= 512
  {
    mine[..256] + theirs[256..i] + mine[i..]
  }

  lemma HalfCopiedEnds(mine: Table, theirs: Table)
    ensures HalfCopied(mine, theirs, 256) == mine
    ensures HalfCopied(mine, theirs, 512) == mine[..256] + theirs[256..]
  {
  }

  lemma HalfCopiedStep(mine: Table, theirs: Table, i: nat)
    requires 256 <= i < 512
    ensures HalfCopied(mine, theirs, i + 1) == HalfCopied(mine, theirs, i)[i := theirs[i]]
    ensures HalfCopied(mine, theirs, i)[i] == mine[i]
  {
  }

  lemma EnsureOne(m: Memory, labels: map<nat, Label>, t: nat, level: nat, page: nat) returns (labels': map<nat, Label>)
    requires Invariant(m, labels) && t in labels && labels[t].level == level && 2 <= level
    requires |P.Free(m)| >= P.Missing(m, t, level, page)
    ensures var (m', f) := P.EnsureTable(m, t, Index(level, page));
            && Invariant(m', labels') && Extends(labels, labels')
            && f in labels' && labels'[f].level == level - 1
            && |P.Free(m')| >= P.Missing(m', f, level - 1, page)
            && (m.tables[t][Index(level, page)].Present() || P.Free(m) != {})
  {
    hide Linked, LeavesOwned, Agree;
    if P.Free(m) == {} { assert |P.Free(m)| == 0; }
    labels' := P.EnsureTableCorrect(m, labels, t, Index(level, page));
  }

  lemma PathInThree(m: Memory, t: nat, page: nat)
    ensures var (m1, t1) := P.EnsureTable(m, t, Index(4, page));
            var (m2, t2) := P.EnsureTable(m1, t1, Index(3, page));
            P.EnsurePath(m, t, 4, page) == P.EnsureTable(m2, t2, Index(2, page))
  {
  }

  lemma LeafFrameUsed(m: Memory, labels: map<nat, Label>, root: nat, page: nat)
    requires Invariant(m, labels) && IsRoot(labels, root) && page < PAGES && Walk(m, root, page).Some?
    ensures var f := Walk(m, root, page).value.frame; f in m.used && 0 < f < m.total
  {
  }

  // A frame just taken from the free ones meets the demands of the map operation.
  lemma PrepareMap(m: Memory, labels: map<nat, Label>, root: nat, page: nat, frame: nat)
    requires Invariant(m, labels) && IsRoot(labels, root) && page < PAGES
    requires P.AllocFrame(m).1 == frame != 0
    requires P.Free(m) != {} ==> var m1 := P.AllocFrame(m).0; |P.Free(m1)| >= P.Missing(m1, root, 4, page)
    ensures var m1 := P.AllocFrame(m).0;
            && Invariant(m1, labels) && P.Unclaimed(m1, frame) && frame < m.total
            && |P.Free(m1)| >= P.Missing(m1, root, 4, page)
            && frame !in P.EnsurePath(m1, root, 4, page).0.tables
  {
    P.AllocFrameTakesOne(m);
    AgreeSelf(m, labels);
    R.ReserveFrame(m, m, labels, frame, {});
    R.PathAvoids(P.AllocFrame(m).0, labels, root, page, frame);
  }

  lemma AllocOneCorrect(m: Memory, labels: map<nat, Label>, root: nat, page: nat, flags: nat)
    returns (labels': map<nat, Label>)
    requires Invariant(m, labels) && IsRoot(labels, root) && page < PAGES && FlagWord(flags) % 2 == 1
    requires P.Free(m) != {} ==> var m1 := P.AllocFrame(m).0; |P.Free(m1)| >= P.Missing(m1, root, 4, page)
    ensures Invariant(R.AllocOne(m, root, page, flags).0, labels') && Extends(labels, labels')
  {
    hide Linked, LeavesOwned, Agree, P.MapPage, P.Missing, FlagWord;
    P.AllocFrameTakesOne(m);
    if P.Free(m) == {} { return labels; }
    var (m1, f) := P.AllocFrame(m);
    var m2 := P.MapPage(m1, root, page, f, flags).0;
    labels' := R.RangeAttempt(m, labels, root, page, flags);
    if !P.MapPage(m1, root, page, f, flags).1 {
      R.ProgressStarts(m, labels, root, 0, flags);
      R.StepFails(m, labels, m, labels, root, 0, flags, [], [], m2, labels', SlotOf(m2, root, page).value, f);
    }
  }
}
