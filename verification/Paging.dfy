/**
 Frame allocation and the page operations of vmm.c as functions on `Memory`, with the effect of
 each on every translation of every address space.
 */
module Paging {
  import opened Options
  import opened PageTables

  // ---------- Frames ----------

  // The lowest frame not in use, or `total`.
  function FirstFree(used: set<nat>, from: nat, total: nat): (f: nat)
    requires from <= total
    ensures from <= f <= total
    ensures f < total ==> f !in used
    ensures forall g :: from <= g < f ==> g in used
    decreases total - from
  {
    if from == total || from !in used then from else FirstFree(used, from + 1, total)
  }

  // Frame 0 stands for the null pointer that an exhausted allocator returns.
  function AllocFrame(m: Memory): (r: (Memory, nat)) {
    var f := FirstFree(m.used, 0, m.total);
    if f < m.total then (m.(used := m.used + {f}), f) else (m, 0)
  }

  ghost function Free(m: Memory): set<nat> {
    set f: nat | 0 <= f < m.total && f !in m.used
  }

  lemma AllocFrameTakesOne(m: Memory)
    requires FramesOwned(m)
    ensures var (m', f) := AllocFrame(m);
            if Free(m) == {} then m' == m && f == 0
            else
              && f in Free(m) && (forall g :: g in Free(m) ==> f <= g)
              && Free(m') == Free(m) - {f} && |Free(m')| == |Free(m)| - 1 && m' == m.(used := m.used + {f})
  {
  }

  // ---------- Intermediate tables ----------

  function TableAt(m: Memory, t: nat): Table {
    if t in m.tables then m.tables[t] else EmptyTable()
  }

  // The table below entry i of t, made from a fresh frame if the entry is absent. Frame 0 is
  // taken when no frame is free: the null test comes after the direct-map offset is added.
  function EnsureTable(m: Memory, t: nat, i: nat): (r: (Memory, nat))
    requires i < 512
    ensures m.tables.Keys <= r.0.tables.Keys
  {
    var e := TableAt(m, t)[i];
    if e.Present() then (m, e.frame)
    else
      var (m1, f) := AllocFrame(m);
      var m2 := m1.(tables := m1.tables[f := EmptyTable()]);
      (m2.(tables := m2.tables[t := TableAt(m2, t)[i := Entry(TABLE_FLAGS, f)]]), f)
  }

  function EnsurePath(m: Memory, t: nat, level: nat, page: nat): (r: (Memory, nat))
    ensures m.tables.Keys <= r.0.tables.Keys
    decreases level
  {
    if level <= 1 then (m, t)
    else
      var (m', f) := EnsureTable(m, t, Index(level, page));
      EnsurePath(m', f, level - 1, page)
  }

  // How many tables the path to the page lacks.
  function Missing(m: Memory, t: nat, level: nat, page: nat): nat
    decreases level
  {
    if level <= 1 then 0
    else
      var e := TableAt(m, t)[Index(level, page)];
      if e.Present() then Missing(m, e.frame, level - 1, page) else level - 1
  }

  // From m to m' only tables were added, each in a frame that was free.
  ghost predicate OnlyTablesAdded(m: Memory, m': Memory) {
    && m'.total == m.total
    && m.tables.Keys <= m'.tables.Keys
    && m'.used == m.used + m'.tables.Keys
    && m'.tables.Keys - m.tables.Keys <= Free(m)
  }

  lemma AddedTransitive(m0: Memory, m1: Memory, m2: Memory)
    requires OnlyTablesAdded(m0, m1) && OnlyTablesAdded(m1, m2)
    ensures OnlyTablesAdded(m0, m2)
  {
    forall f | f in m2.tables.Keys - m0.tables.Keys
      ensures f in Free(m0)
    {
      assert f in m1.tables.Keys - m0.tables.Keys || f in m2.tables.Keys - m1.tables.Keys;
    }
  }

  // The state after an empty table in the free frame f is hung below the absent entry i of t.
  function WithTable(m: Memory, t: nat, i: nat, f: nat): Memory
    requires t in m.tables && i < 512
  {
    m.(used := m.used + {f},
       tables := m.tables[f := EmptyTable()][t := m.tables[t][i := Entry(TABLE_FLAGS, f)]])
  }

  lemma WithTableInvariant(m: Memory, labels: map<nat, Label>, t: nat, i: nat, f: nat)
    requires Invariant(m, labels) && t in labels && labels[t].level >= 2 && i < 512
    requires !m.tables[t][i].Present() && f in Free(m)
    ensures Invariant(WithTable(m, t, i, f), labels[f := ChildLabel(labels[t], i)])
  {
    var m', labels' := WithTable(m, t, i, f), labels[f := ChildLabel(labels[t], i)];
    forall u: nat, j: nat | Leaf(m', labels', u, j)
      ensures Leaf(m, labels, u, j) && m'.tables[u][j] == m.tables[u][j]
    {
    }
    forall u: nat, j: nat | Branch(m', labels', u, j)
      ensures var g := m'.tables[u][j].frame; g in labels' && labels'[g] == ChildLabel(labels'[u], j)
    {
      if u != t || j != i {
        assert Branch(m, labels, u, j);
      }
    }
  }

  lemma WithTableAgrees(m: Memory, labels: map<nat, Label>, t: nat, i: nat, f: nat)
    requires Invariant(m, labels) && t in labels && labels[t].level >= 2 && i < 512
    requires !m.tables[t][i].Present() && f in Free(m)
    ensures Agree(m, WithTable(m, t, i, f), labels[f := ChildLabel(labels[t], i)], {})
  {
  }

  lemma EnsureTableCorrect(m: Memory, labels: map<nat, Label>, t: nat, i: nat) returns (labels': map<nat, Label>)
    requires Invariant(m, labels) && t in labels && labels[t].level >= 2 && i < 512
    requires m.tables[t][i].Present() || Free(m) != {}
    ensures var (m', f) := EnsureTable(m, t, i);
            && Invariant(m', labels') && Extends(labels, labels') && Agree(m, m', labels', {})
            && f in labels' && labels'[f] == ChildLabel(labels[t], i)
            && m'.tables[t][i].Present() && m'.tables[t][i].frame == f
            && OnlyTablesAdded(m, m')
            && (if m.tables[t][i].Present() then m' == m
                else |Free(m')| == |Free(m)| - 1 && m'.tables[f] == EmptyTable())
  {
    if m.tables[t][i].Present() {
      assert Branch(m, labels, t, i);
      return labels;
    }
    var (m', f) := EnsureTable(m, t, i);
    AllocFrameTakesOne(m);
    assert m' == WithTable(m, t, i, f);
    labels' := labels[f := ChildLabel(labels[t], i)];
    WithTableInvariant(m, labels, t, i, f);
    WithTableAgrees(m, labels, t, i, f);
    assert Free(m') == Free(m) - {f};
  }

  lemma {:induction false} EnsurePathCorrect(m: Memory, labels: map<nat, Label>, t: nat, level: nat, page: nat)
    returns (labels': map<nat, Label>)
    requires Invariant(m, labels) && t in labels && labels[t].level == level
    requires |Free(m)| >= Missing(m, t, level, page)
    ensures var (m', u) := EnsurePath(m, t, level, page);
            && Invariant(m', labels') && Extends(labels, labels') && Agree(m, m', labels', {})
            && u in labels' && labels'[u].level == 1
            && LeafSlot(m'.tables, t, level, page) == Some(Slot(u, Index(1, page)))
            && OnlyTablesAdded(m, m')
            && |Free(m')| == |Free(m)| - Missing(m, t, level, page)
    decreases level
  {
    hide Linked, LeavesOwned, Agree, AgreeAt;
    if level == 1 {
      AgreeSelf(m, labels);
      return labels;
    }
    var i := Index(level, page);
    if Free(m) == {} { assert |Free(m)| == 0; }
    var labels1 := EnsureTableCorrect(m, labels, t, i);
    var (m1, f) := EnsureTable(m, t, i);
    assert |Free(m)| - |Free(m1)| + Missing(m1, f, level - 1, page) == Missing(m, t, level, page);
    labels' := EnsurePathCorrect(m1, labels1, f, level - 1, page);
    var (m', u) := EnsurePath(m1, f, level - 1, page);
    AddedTransitive(m, m1, m');
    BranchKept(m1, m', labels', t, i);
    AgreeTransitive(m, labels, m1, labels1, m', labels', {}, {}, {});
  }

  // With too few free frames, frame 0 becomes a table.
  lemma {:induction false} StarvedPath(m: Memory, labels: map<nat, Label>, t: nat, level: nat, page: nat)
    requires Invariant(m, labels) && t in labels && labels[t].level == level
    requires |Free(m)| < Missing(m, t, level, page)
    ensures 0 in EnsurePath(m, t, level, page).0.tables
    decreases level
  {
    var i := Index(level, page);
    var (m1, f) := EnsureTable(m, t, i);
    AllocFrameTakesOne(m);
    if m.tables[t][i].Present() || Free(m) != {} {
      var labels1 := EnsureTableCorrect(m, labels, t, i);
      StarvedPath(m1, labels1, f, level - 1, page);
    }
  }

  // ---------- One page ----------

  // Fills the leaf slot if it is free.
  function StoreLeaf(m: Memory, t: nat, i: nat, frame: nat, flags: nat): (r: (Memory, bool))
    requires i < 512
    ensures m.tables.Keys <= r.0.tables.Keys
  {
    if TableAt(m, t)[i].Present() then (m, false)
    else (m.(used := m.used + {frame},
             tables := m.tables[t := TableAt(m, t)[i := Entry(FlagWord(flags), frame)]]), true)
  }

  function MapPage(m: Memory, root: nat, page: nat, frame: nat, flags: nat): (r: (Memory, bool))
    ensures m.tables.Keys <= r.0.tables.Keys
  {
    var (m1, t) := EnsurePath(m, root, 4, page);
    StoreLeaf(m1, t, Index(1, page), frame, flags)
  }

  function UnmapPage(m: Memory, root: nat, page: nat): (r: (Memory, bool)) {
    match SlotOf(m, root, page)
    case None => (m, false)
    case Some(s) =>
      var e := EntryAt(m, s);
      if !e.Present() then (m, false)
      else (m.(used := m.used - {e.frame},
               tables := m.tables[s.table := m.tables[s.table][s.index := e.(flags := e.flags - 1)]]), true)
  }

  // A zero flag word or physical address means "leave as it is".
  function EditPage(m: Memory, root: nat, page: nat, phys: nat, flags: nat): (r: (Memory, bool)) {
    match SlotOf(m, root, page)
    case None => (m, false)
    case Some(s) =>
      var e := EntryAt(m, s);
      if !e.Present() then (m, false)
      else
        var e1 := if flags != 0 then e.(flags := FlagWord(flags)) else e;
        var frame := phys / PAGE_SIZE;
        var e2 := if phys != 0 then e1.(frame := frame) else e1;
        (m.(used := if phys != 0 then m.used - {e.frame} + {frame} else m.used,
            tables := m.tables[s.table := m.tables[s.table][s.index := e2]]), true)
  }

  // A frame that holds no table and that no table entry names.
  ghost predicate Unclaimed(m: Memory, frame: nat) {
    && 0 < frame < m.total && frame !in m.tables
    && forall t, i :: t in m.tables && 0 <= i < 512 && m.tables[t][i].Present() ==> m.tables[t][i].frame != frame
  }

  lemma LeavesSurvive(m: Memory, labels: map<nat, Label>, m': Memory, labels': map<nat, Label>, t: nat, i: nat)
    requires Agree(m, m', labels', {}) && Extends(labels, labels') && Labelled(m, labels)
    requires Leaf(m', labels', t, i)
    ensures Leaf(m, labels, t, i) && m.tables[t][i] == m'.tables[t][i]
  {
    assert AgreeAt(m, m', labels', {}, t, i);
  }

  lemma StillUnclaimed(m: Memory, labels: map<nat, Label>, m': Memory, labels': map<nat, Label>, frame: nat)
    requires Invariant(m, labels) && Invariant(m', labels') && Extends(labels, labels') && Agree(m, m', labels', {})
    requires Unclaimed(m, frame) && frame !in m'.tables && m'.total == m.total
    ensures Unclaimed(m', frame)
  {
    forall t, i | t in m'.tables && 0 <= i < 512 && m'.tables[t][i].Present()
      ensures m'.tables[t][i].frame != frame
    {
      if labels'[t].level == 1 {
        assert Leaf(m', labels', t, i);
        LeavesSurvive(m, labels, m', labels', t, i);
      } else {
        assert Branch(m', labels', t, i);
      }
    }
  }

  lemma AbsentBefore(m: Memory, m': Memory, labels': map<nat, Label>, s: Slot)
    requires Agree(m, m', labels', {})
    requires s.table in labels' && labels'[s.table].level == 1 && !EntryAt(m', s).Present()
    ensures !EntryAt(m, s).Present()
  {
    if s.table in m.tables && s.index < 512 {
      assert AgreeAt(m, m', labels', {}, s.table, s.index);
    }
  }

  // Overwriting one leaf slot keeps the invariant as long as the frame it names is its own.
  lemma WriteLeaf(m: Memory, labels: map<nat, Label>, s: Slot, e: Entry, used: set<nat>)
    requires Invariant(m, labels)
    requires s.table in labels && labels[s.table].level == 1 && s.index < 512
    requires 0 in used && m.tables.Keys <= used && (forall f :: f in used ==> f < m.total)
    requires e.Present() ==> e.frame in used && e.frame !in m.tables && e.frame != 0
    requires forall t: nat, i: nat :: Leaf(m, labels, t, i) && Slot(t, i) != s ==>
                                        && m.tables[t][i].frame in used
                                        && (e.Present() ==> m.tables[t][i].frame != e.frame)
    ensures var m' := m.(used := used, tables := m.tables[s.table := m.tables[s.table][s.index := e]]);
            Invariant(m', labels) && Agree(m, m', labels, {s})
  {
    var m' := m.(used := used, tables := m.tables[s.table := m.tables[s.table][s.index := e]]);
    forall t: nat, i: nat | Leaf(m', labels, t, i)
      ensures Slot(t, i) == s || (Leaf(m, labels, t, i) && m.tables[t][i] == m'.tables[t][i])
    {
    }
    forall t: nat, i: nat | Branch(m', labels, t, i)
      ensures Branch(m, labels, t, i) && m.tables[t][i] == m'.tables[t][i]
    {
    }
    forall t, i | t in m'.tables && 0 <= i < 512
      ensures AgreeAt(m, m', labels, {s}, t, i)
    {
      if labels[t].level >= 2 && m.tables[t][i].Present() {
        assert Branch(m, labels, t, i);
      }
    }
  }

  // Writing the leaf once the path to it exists.
  lemma MapLeaf(m: Memory, labels: map<nat, Label>, root: nat, page: nat, e: Entry)
    requires Invariant(m, labels) && IsRoot(labels, root) && page < PAGES
    requires SlotOf(m, root, page).Some? && !EntryAt(m, SlotOf(m, root, page).value).Present()
    requires Unclaimed(m, e.frame)
    ensures var s := SlotOf(m, root, page).value;
            var m' := m.(used := m.used + {e.frame}, tables := m.tables[s.table := m.tables[s.table][s.index := e]]);
            && Invariant(m', labels) && Agree(m, m', labels, {s})
            && SlotOf(m', root, page) == Some(s) && EntryAt(m', s) == e
  {
    var s := SlotOf(m, root, page).value;
    SlotLabel(m, labels, root, 4, page);
    var m' := m.(used := m.used + {e.frame}, tables := m.tables[s.table := m.tables[s.table][s.index := e]]);
    WriteLeaf(m, labels, s, e, m'.used);
    AgreeWalk(m, labels, m', labels, {s}, root, page);
  }

  ghost predicate MapEffect(m: Memory, m': Memory, labels': map<nat, Label>, s: Slot, e: Entry, ok: bool) {
    if ok then
      && Agree(m, m', labels', {s}) && EntryAt(m', s) == e
      && m'.used == m.used + m'.tables.Keys + {e.frame}
      && !EntryAt(m, s).Present()
    else
      Agree(m, m', labels', {}) && m'.used == m.used + m'.tables.Keys
  }

  // Mapping succeeds exactly on an unmapped page, and then touches that page's slot only.
  lemma MapPageCorrect(m: Memory, labels: map<nat, Label>, root: nat, page: nat, frame: nat, flags: nat)
    returns (labels': map<nat, Label>)
    requires Invariant(m, labels) && IsRoot(labels, root) && page < PAGES
    requires |Free(m)| >= Missing(m, root, 4, page)
    requires Unclaimed(m, frame) && frame !in EnsurePath(m, root, 4, page).0.tables
    ensures var (m', ok) := MapPage(m, root, page, frame, flags);
            && Invariant(m', labels') && Extends(labels, labels')
            && ok == Walk(m, root, page).None?
            && m.tables.Keys <= m'.tables.Keys && m'.tables.Keys - m.tables.Keys <= Free(m)
            && m'.total == m.total
            && SlotOf(m', root, page).Some?
            && MapEffect(m, m', labels', SlotOf(m', root, page).value, Entry(FlagWord(flags), frame), ok)
            && (ok ==> EntryAt(m', SlotOf(m', root, page).value).frame == frame && Carries(EntryAt(m', SlotOf(m', root, page).value).flags, flags))
  {
    FlagWordCarries(flags);
    hide Carries, Linked, LeavesOwned, FramesOwned, Agree, EnsurePath, Missing, FlagWord, LeafSlot;
    labels' := EnsurePathCorrect(m, labels, root, 4, page);
    var (m1, t) := EnsurePath(m, root, 4, page);
    var s, e := Slot(t, Index(1, page)), Entry(FlagWord(flags), frame);
    var (m', ok) := MapPage(m, root, page, frame, flags);
    AgreeWalk(m, labels, m1, labels', {}, root, page);
    if ok {
      StillUnclaimed(m, labels, m1, labels', frame);
      MapLeaf(m1, labels', root, page, e);
      AgreeTransitive(m, labels, m1, labels', m', labels', {}, {s}, {s});
      AbsentBefore(m, m1, labels', s);
      assert m'.tables.Keys == m1.tables.Keys;
      assert m'.used == m.used + m'.tables.Keys + {frame};
    }
  }

  lemma UnmapPageCorrect(m: Memory, labels: map<nat, Label>, root: nat, page: nat)
    requires Invariant(m, labels) && IsRoot(labels, root) && page < PAGES
    ensures var (m', ok) := UnmapPage(m, root, page);
            && Invariant(m', labels)
            && ok == Walk(m, root, page).Some?
            && SlotOf(m', root, page) == SlotOf(m, root, page)
            && (if ok then
                  var s := SlotOf(m, root, page).value;
                  && Agree(m, m', labels, {s}) && !EntryAt(m', s).Present()
                  && EntryAt(m', s).flags + 1 == EntryAt(m, s).flags && EntryAt(m', s).frame == EntryAt(m, s).frame
                  && m'.tables.Keys == m.tables.Keys && m'.total == m.total
                  && m'.used == m.used - {EntryAt(m, s).frame}
                else m' == m)
  {
    hide Linked, Agree, LeafSlot;
    var (m', ok) := UnmapPage(m, root, page);
    if ok {
      var s := SlotOf(m, root, page).value;
      SlotLabel(m, labels, root, 4, page);
      var e := EntryAt(m, s);
      assert Leaf(m, labels, s.table, s.index);
      WriteLeaf(m, labels, s, e.(flags := e.flags - 1), m.used - {e.frame});
      AgreeWalk(m, labels, m', labels, {s}, root, page);
    }
  }

  lemma EditPageCorrect(m: Memory, labels: map<nat, Label>, root: nat, page: nat, phys: nat, flags: nat)
    requires Invariant(m, labels) && IsRoot(labels, root) && page < PAGES
    requires phys != 0 ==> Unclaimed(m, phys / PAGE_SIZE) ||
                           (Walk(m, root, page).Some? && Walk(m, root, page).value.frame == phys / PAGE_SIZE)
    ensures var (m', ok) := EditPage(m, root, page, phys, flags);
            && Invariant(m', labels)
            && ok == Walk(m, root, page).Some?
            && SlotOf(m', root, page) == SlotOf(m, root, page)
            && (if ok then
                  var s := SlotOf(m, root, page).value;
                  && Agree(m, m', labels, {s})
                  && m'.tables.Keys == m.tables.Keys && m'.total == m.total
                  && EntryAt(m', s).frame == (if phys != 0 then phys / PAGE_SIZE else EntryAt(m, s).frame)
                  && EntryAt(m', s).flags == (if flags != 0 then FlagWord(flags) else EntryAt(m, s).flags)
                  && (flags != 0 ==> Carries(EntryAt(m', s).flags, flags))
                  && m'.used == (if phys != 0 then m.used - {EntryAt(m, s).frame} + {phys / PAGE_SIZE} else m.used)
                else m' == m)
  {
    FlagWordCarries(flags);
    hide Carries, FlagWord;
    var (m', ok) := EditPage(m, root, page, phys, flags);
    if ok {
      var s := SlotOf(m, root, page).value;
      SlotLabel(m, labels, root, 4, page);
      var e := EntryAt(m, s);
      assert Leaf(m, labels, s.table, s.index);
      WriteLeaf(m, labels, s, EntryAt(m', s), m'.used);
      AgreeWalk(m, labels, m', labels, {s}, root, page);
    }
  }
}
