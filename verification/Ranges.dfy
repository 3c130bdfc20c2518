/**
 vmm_alloc, vmm_free and vmm_edit_pages: the page operations applied along a range of any
 alignment, with the rollback of a failed allocation.
 */
module Ranges {
  import opened Options
  import opened PageTables
  import opened Paging

  // The page of the i-th step of a range; virtual addresses wrap at 64 bits.
  function PageAt(start: nat, i: nat): (p: nat)
    ensures p < PAGES
  {
    (start / PAGE_SIZE + i) % PAGES
  }

  // Number of pages the range touches, in 64-bit arithmetic.
  function Amount(start: nat, end: nat): nat {
    (end / PAGE_SIZE - start / PAGE_SIZE + 1) % 0x1_0000_0000_0000_0000
  }

  lemma PageAtIsPageOfAddress(start: nat, i: nat)
    ensures PageAt(start, i) == PageOf((start + i * PAGE_SIZE) % 0x1_0000_0000_0000_0000)
  {
    var v := start + i * PAGE_SIZE;
    var w := v % 0x1_0000_0000_0000_0000;
    assert v / PAGE_SIZE == start / PAGE_SIZE + i;
    assert v == w + v / 0x1_0000_0000_0000_0000 * 0x1_0000_0000_0000_0000;
    assert v / PAGE_SIZE == w / PAGE_SIZE + v / 0x1_0000_0000_0000_0000 * 0x10_0000_0000_0000;
  }

  // One page of the range: a frame for it, and the mapping. The frame goes back if the page is taken.
  function AllocOne(m: Memory, root: nat, page: nat, flags: nat): (r: (Memory, bool))
    ensures m.tables.Keys <= r.0.tables.Keys
  {
    var (m1, f) := AllocFrame(m);
    if f == 0 then (m1, false)
    else
      var (m2, ok) := MapPage(m1, root, page, f, flags);
      if ok then (m2, true) else (m2.(used := m2.used - {f}), false)
  }

  function AllocFrom(m: Memory, root: nat, start: nat, i: nat, n: nat, flags: nat): (r: (Memory, nat))
    requires i <= n
    ensures i <= r.1 <= n && m.tables.Keys <= r.0.tables.Keys
    decreases n - i
  {
    if i == n then (m, n)
    else
      var (m', ok) := AllocOne(m, root, PageAt(start, i), flags);
      if ok then AllocFrom(m', root, start, i + 1, n, flags) else (m', i)
  }

  function UnmapFrom(m: Memory, root: nat, start: nat, i: nat, n: nat): (m': Memory)
    requires i <= n
    ensures m'.tables.Keys == m.tables.Keys
    decreases n - i
  {
    if i == n then m else UnmapFrom(UnmapPage(m, root, PageAt(start, i)).0, root, start, i + 1, n)
  }

  function AllocRange(m: Memory, root: nat, start: nat, n: nat, flags: nat): (r: (Memory, bool))
    ensures m.tables.Keys <= r.0.tables.Keys
  {
    var (m1, k) := AllocFrom(m, root, start, 0, n, flags);
    if k < n then (UnmapFrom(m1, root, start, 0, k), false) else (m1, true)
  }

  function EditFrom(m: Memory, root: nat, start: nat, i: nat, n: nat, flags: nat): (r: (Memory, bool))
    requires i <= n
    decreases n - i
  {
    if i == n then (m, true)
    else
      var (m1, ok) := EditPage(m, root, PageAt(start, i), 0, flags);
      var (m2, rest) := EditFrom(m1, root, start, i + 1, n, flags);
      (m2, ok && rest)
  }

  // Whenever the run needs intermediate tables there are frames for them.
  ghost predicate Nourished(m: Memory, root: nat, start: nat, i: nat, n: nat, flags: nat)
    requires i <= n
    decreases n - i
  {
    i < n && Free(m) != {} ==>
      var (m1, f) := AllocFrame(m);
      && |Free(m1)| >= Missing(m1, root, 4, PageAt(start, i))
      && var (m2, ok) := MapPage(m1, root, PageAt(start, i), f, flags);
         ok ==> Nourished(m2, root, start, i + 1, n, flags)
  }

  lemma NourishedStep(m: Memory, labels: map<nat, Label>, root: nat, start: nat, i: nat, n: nat, flags: nat)
    requires Invariant(m, labels) && i < n && Nourished(m, root, start, i, n, flags)
    ensures Free(m) != {} ==> var m1 := AllocFrame(m).0; |Free(m1)| >= Missing(m1, root, 4, PageAt(start, i))
    ensures var (m', ok) := AllocOne(m, root, PageAt(start, i), flags); ok ==> Nourished(m', root, start, i + 1, n, flags)
  {
    hide Labelled, Linked, LeavesOwned, MapPage, Missing, PageAt;
    AllocFrameTakesOne(m);
  }

  // ---------- Progress of a range allocation ----------

  ghost function Set<T>(s: seq<T>): set<T> {
    set x | x in s
  }

  ghost predicate Distinct<T>(s: seq<T>) {
    forall i, j :: 0 <= i < j < |s| ==> s[i] != s[j]
  }

  // Page k of the range owns slot s, which m0 leaves empty; m has unmapped it again if k < j.
  ghost predicate PageDone(m0: Memory, m: Memory, root: nat, start: nat, e: Entry, s: Slot, k: nat, j: nat) {
    && SlotOf(m, root, PageAt(start, k)) == Some(s)
    && e.frame in Free(m0) && e.frame !in m.tables
    && !EntryAt(m0, s).Present()
    && (if k < j then !EntryAt(m, s).Present() else EntryAt(m, s) == e)
  }

  // Pages 0..|slots| of the range were mapped on top of m0, and the first j of them unmapped again.
  ghost predicate Progress(m0: Memory, labels0: map<nat, Label>, m: Memory, labels: map<nat, Label>,
                           root: nat, start: nat, flags: nat, slots: seq<Slot>, frames: seq<nat>, j: nat) {
    && Invariant(m0, labels0) && IsRoot(labels0, root)
    && Invariant(m, labels) && Extends(labels0, labels) && m.total == m0.total
    && j <= |slots| == |frames|
    && Distinct(slots) && Distinct(frames)
    && Agree(m0, m, labels, Set(slots))
    && (forall k :: 0 <= k < |slots| ==>
                      PageDone(m0, m, root, start, Entry(FlagWord(flags), frames[k]), slots[k], k, j))
    && m.used == m0.used + m.tables.Keys + Set(frames[j..])
    && m.tables.Keys - m0.tables.Keys <= Free(m0)
  }

  // Marking frames used or free again disturbs no table.
  lemma Recount(m0: Memory, m: Memory, labels: map<nat, Label>, used: set<nat>, s: set<Slot>)
    requires Invariant(m, labels) && Agree(m0, m, labels, s)
    requires FramesOwned(m.(used := used))
    requires forall t: nat, i: nat :: Leaf(m, labels, t, i) ==> m.tables[t][i].frame in used
    ensures Invariant(m.(used := used), labels) && Agree(m0, m.(used := used), labels, s)
  {
    var m' := m.(used := used);
    forall t: nat, i: nat | Leaf(m', labels, t, i)
      ensures Leaf(m, labels, t, i)
    {
    }
    forall t: nat, i: nat | Branch(m', labels, t, i)
      ensures Branch(m, labels, t, i)
    {
    }
    forall t, i | t in m'.tables && 0 <= i < 512
      ensures AgreeAt(m0, m', labels, s, t, i)
    {
      assert AgreeAt(m0, m, labels, s, t, i);
    }
  }

  // Reserving a free frame for a page that is about to be mapped.
  lemma ReserveFrame(m0: Memory, m: Memory, labels: map<nat, Label>, f: nat, s: set<Slot>)
    requires Invariant(m, labels) && f in Free(m) && Agree(m0, m, labels, s)
    ensures var m' := m.(used := m.used + {f});
            Invariant(m', labels) && Unclaimed(m', f) && Agree(m0, m', labels, s)
  {
    var m' := m.(used := m.used + {f});
    Recount(m0, m, labels, m.used + {f}, s);
    forall t, i | t in m'.tables && 0 <= i < 512 && m'.tables[t][i].Present()
      ensures m'.tables[t][i].frame != f
    {
      assert Leaf(m, labels, t, i) || Branch(m, labels, t, i);
    }
  }

  lemma AbsentOutside(m0: Memory, m: Memory, labels: map<nat, Label>, s: Slot, touched: set<Slot>)
    requires Agree(m0, m, labels, touched) && s !in touched
    requires s.table in labels && labels[s.table].level == 1 && !EntryAt(m, s).Present()
    ensures !EntryAt(m0, s).Present()
  {
    if s.table in m0.tables && s.index < 512 {
      assert AgreeAt(m0, m, labels, touched, s.table, s.index);
    }
  }

  lemma EntryKept(m0: Memory, m: Memory, labels: map<nat, Label>, s: Slot, touched: set<Slot>)
    requires Agree(m0, m, labels, touched) && s !in touched
    requires s.table in m0.tables && s.index < 512 && labels[s.table].level == 1
    ensures EntryAt(m0, s).Present() || EntryAt(m, s).Present() ==> EntryAt(m, s) == EntryAt(m0, s)
  {
    assert AgreeAt(m0, m, labels, touched, s.table, s.index);
  }

  lemma PathAvoids(m: Memory, labels: map<nat, Label>, root: nat, page: nat, f: nat)
    requires Invariant(m, labels) && IsRoot(labels, root) && page < PAGES
    requires |Free(m)| >= Missing(m, root, 4, page) && f in m.used && f !in m.tables
    ensures f !in EnsurePath(m, root, 4, page).0.tables
  {
    var _ := EnsurePathCorrect(m, labels, root, 4, page);
    var m' := EnsurePath(m, root, 4, page).0;
    assert OnlyTablesAdded(m, m');
    assert f !in Free(m) && f !in m'.tables.Keys - m.tables.Keys;
  }

  // What one more mapped page leaves of the pages done so far.
  lemma PageSurvives(m0: Memory, m: Memory, labels: map<nat, Label>, m': Memory, labels': map<nat, Label>,
                     root: nat, start: nat, e: Entry, s: Slot, k: nat, j: nat, touched: set<Slot>)
    requires Invariant(m, labels) && Invariant(m', labels') && Extends(labels, labels') && IsRoot(labels, root)
    requires Agree(m, m', labels', touched) && s !in touched
    requires PageDone(m0, m, root, start, e, s, k, j) && e.frame !in m'.tables && e.Present()
    ensures PageDone(m0, m', root, start, e, s, k, j)
  {
    var page := PageAt(start, k);
    SlotLabel(m, labels, root, 4, page);
    AgreeWalk(m, labels, m', labels', touched, root, page);
    EntryKept(m, m', labels', s, touched);
  }

  // A state m2 that a map attempt with the reserved frame f leaves behind.
  ghost predicate Attempt(m: Memory, labels: map<nat, Label>, m2: Memory, labels2: map<nat, Label>,
                          s: Slot, e: Entry, ok: bool) {
    && e.frame in Free(m) && e.frame !in m2.tables
    && Invariant(m2, labels2) && Extends(labels, labels2)
    && m.tables.Keys <= m2.tables.Keys && m2.tables.Keys - m.tables.Keys <= Free(m)
    && m2.total == m.total
    && MapEffect(m.(used := m.used + {e.frame}), m2, labels2, s, e, ok)
  }

  lemma RangeAttempt(m: Memory, labels: map<nat, Label>, root: nat, page: nat, flags: nat)
    returns (labels2: map<nat, Label>)
    requires Invariant(m, labels) && IsRoot(labels, root) && page < PAGES && Free(m) != {}
    requires var m1 := AllocFrame(m).0; |Free(m1)| >= Missing(m1, root, 4, page)
    ensures var (m1, f) := AllocFrame(m);
            var (m2, ok) := MapPage(m1, root, page, f, flags);
            && f in Free(m) && m1 == m.(used := m.used + {f})
            && SlotOf(m2, root, page).Some? && ok == Walk(m, root, page).None?
            && Attempt(m, labels, m2, labels2, SlotOf(m2, root, page).value, Entry(FlagWord(flags), f), ok)
  {
    AllocFrameTakesOne(m);
    var (m1, f) := AllocFrame(m);
    AgreeSelf(m, labels);
    ReserveFrame(m, m, labels, f, {});
    PathAvoids(m1, labels, root, page, f);
    AgreeWalk(m, labels, m1, labels, {}, root, page);
    labels2 := MapPageCorrect(m1, labels, root, page, f, flags);
  }

  // A page that was already mapped: the frame goes back, the pages done so far stay done.
  lemma StepFails(m0: Memory, labels0: map<nat, Label>, m: Memory, labels: map<nat, Label>,
                  root: nat, start: nat, flags: nat, slots: seq<Slot>, frames: seq<nat>,
                  m2: Memory, labels2: map<nat, Label>, s: Slot, f: nat)
    requires Progress(m0, labels0, m, labels, root, start, flags, slots, frames, 0) && FlagWord(flags) % 2 == 1
    requires Attempt(m, labels, m2, labels2, s, Entry(FlagWord(flags), f), false)
    ensures Progress(m0, labels0, m2.(used := m2.used - {f}), labels2, root, start, flags, slots, frames, 0)
  {
    var m1 := m.(used := m.used + {f});
    ReserveFrame(m0, m, labels, f, Set(slots));
    forall t: nat, i: nat | Leaf(m2, labels2, t, i)
      ensures m2.tables[t][i].frame != f
    {
      LeavesSurvive(m1, labels, m2, labels2, t, i);
    }
    AgreeTransitive(m0, labels0, m1, labels, m2, labels2, Set(slots), {}, Set(slots));
    Recount(m0, m2, labels2, m2.used - {f}, Set(slots));
    var m3 := m2.(used := m2.used - {f});
    FramesKept(m0, labels0, m, labels, root, start, flags, slots, frames, m2, f);
    forall k | 0 <= k < |slots|
      ensures PageDone(m0, m3, root, start, Entry(FlagWord(flags), frames[k]), slots[k], k, 0)
    {
      var e := Entry(FlagWord(flags), frames[k]);
      assert PageDone(m0, m, root, start, e, slots[k], k, 0);
      PageSurvives(m0, m1, labels, m2, labels2, root, start, e, slots[k], k, 0, {});
    }
    assert f !in Set(frames[0..]);
  }

  lemma FramesKept(m0: Memory, labels0: map<nat, Label>, m: Memory, labels: map<nat, Label>,
                   root: nat, start: nat, flags: nat, slots: seq<Slot>, frames: seq<nat>, m2: Memory, f: nat)
    requires Progress(m0, labels0, m, labels, root, start, flags, slots, frames, 0)
    requires f in Free(m) && m2.tables.Keys - m.tables.Keys <= Free(m)
    ensures forall k :: 0 <= k < |frames| ==> frames[k] != f && frames[k] !in m2.tables
    ensures f in Free(m0) && m2.tables.Keys - m0.tables.Keys <= Free(m0)
  {
    forall k | 0 <= k < |frames|
      ensures frames[k] != f && frames[k] !in m2.tables
    {
      assert PageDone(m0, m, root, start, Entry(FlagWord(flags), frames[k]), slots[k], k, 0);
      assert frames[k] in Set(frames[0..]);
      assert frames[k] !in Free(m) && frames[k] !in m2.tables.Keys - m.tables.Keys;
    }
    forall g | g in m2.tables.Keys - m0.tables.Keys
      ensures g in Free(m0)
    {
      assert g in m.tables.Keys - m0.tables.Keys || g in m2.tables.Keys - m.tables.Keys;
    }
  }

  lemma PagesSurvive(m0: Memory, m: Memory, labels: map<nat, Label>, m': Memory, labels': map<nat, Label>,
                     root: nat, start: nat, flags: nat, slots: seq<Slot>, frames: seq<nat>, s: Slot)
    requires Invariant(m, labels) && Invariant(m', labels') && Extends(labels, labels') && IsRoot(labels, root)
    requires Agree(m, m', labels', {s}) && !EntryAt(m, s).Present() && FlagWord(flags) % 2 == 1
    requires |slots| == |frames|
    requires forall k :: 0 <= k < |slots| ==>
                           && PageDone(m0, m, root, start, Entry(FlagWord(flags), frames[k]), slots[k], k, 0)
                           && frames[k] !in m'.tables
    ensures forall k :: 0 <= k < |slots| ==>
                          && PageDone(m0, m', root, start, Entry(FlagWord(flags), frames[k]), slots[k], k, 0)
                          && slots[k] != s
  {
    forall k | 0 <= k < |slots|
      ensures PageDone(m0, m', root, start, Entry(FlagWord(flags), frames[k]), slots[k], k, 0) && slots[k] != s
    {
      PageSurvives(m0, m, labels, m', labels', root, start, Entry(FlagWord(flags), frames[k]), slots[k], k, 0, {s});
    }
  }

  lemma NewPageWasAbsent(m0: Memory, m: Memory, labels: map<nat, Label>, m': Memory, labels': map<nat, Label>,
                         root: nat, page: nat, s: Slot, touched: set<Slot>)
    requires Labelled(m', labels') && Linked(m', labels') && Extends(labels, labels') && IsRoot(labels', root)
    requires Agree(m0, m, labels, touched) && !EntryAt(m, s).Present() && s !in touched && page < PAGES
    requires SlotOf(m', root, page) == Some(s)
    ensures !EntryAt(m0, s).Present()
  {
    SlotLabel(m', labels', root, 4, page);
    if s.table in m.tables {
      AbsentOutside(m0, m, labels, s, touched);
    }
  }

  lemma StepMaps(m0: Memory, labels0: map<nat, Label>, m: Memory, labels: map<nat, Label>,
                 root: nat, start: nat, flags: nat, slots: seq<Slot>, frames: seq<nat>,
                 m2: Memory, labels2: map<nat, Label>, s: Slot, f: nat)
    requires Progress(m0, labels0, m, labels, root, start, flags, slots, frames, 0) && FlagWord(flags) % 2 == 1
    requires Attempt(m, labels, m2, labels2, s, Entry(FlagWord(flags), f), true)
    requires SlotOf(m2, root, PageAt(start, |slots|)) == Some(s)
    ensures Progress(m0, labels0, m2, labels2, root, start, flags, slots + [s], frames + [f], 0)
  {
    hide Linked, LeavesOwned, Agree, AgreeAt;
    var m1 := m.(used := m.used + {f});
    ReserveFrame(m0, m, labels, f, Set(slots));
    FramesKept(m0, labels0, m, labels, root, start, flags, slots, frames, m2, f);
    forall k | 0 <= k < |slots|
      ensures PageDone(m0, m1, root, start, Entry(FlagWord(flags), frames[k]), slots[k], k, 0)
    {
      assert PageDone(m0, m, root, start, Entry(FlagWord(flags), frames[k]), slots[k], k, 0);
    }
    PagesSurvive(m0, m1, labels, m2, labels2, root, start, flags, slots, frames, s);
    AgreeTransitive(m0, labels0, m1, labels, m2, labels2, Set(slots), {s}, Set(slots + [s]));
    NewPageWasAbsent(m0, m1, labels, m2, labels2, root, PageAt(start, |slots|), s, Set(slots));
    assert Set((frames + [f])[0..]) == Set(frames[0..]) + {f};
  }

  lemma {:induction false} AllocFromCorrect(m0: Memory, labels0: map<nat, Label>, m: Memory, labels: map<nat, Label>,
                                            root: nat, start: nat, n: nat, flags: nat,
                                            slots: seq<Slot>, frames: seq<nat>)
    returns (labels': map<nat, Label>, slots': seq<Slot>, frames': seq<nat>)
    requires |slots| <= n && FlagWord(flags) % 2 == 1
    requires Progress(m0, labels0, m, labels, root, start, flags, slots, frames, 0)
    requires Nourished(m, root, start, |slots|, n, flags)
    ensures var (m', k) := AllocFrom(m, root, start, |slots|, n, flags);
            |slots'| == k && Progress(m0, labels0, m', labels', root, start, flags, slots', frames', 0)
    decreases n - |slots|
  {
    if |slots| == n { return labels, slots, frames; }
    AllocFrameTakesOne(m);
    if Free(m) == {} { return labels, slots, frames; }
    var page := PageAt(start, |slots|);
    var (m1, f) := AllocFrame(m);
    var (m2, ok) := MapPage(m1, root, page, f, flags);
    var labels2 := RangeAttempt(m, labels, root, page, flags);
    var s := SlotOf(m2, root, page).value;
    if ok {
      StepMaps(m0, labels0, m, labels, root, start, flags, slots, frames, m2, labels2, s, f);
      labels', slots', frames' :=
        AllocFromCorrect(m0, labels0, m2, labels2, root, start, n, flags, slots + [s], frames + [f]);
    } else {
      StepFails(m0, labels0, m, labels, root, start, flags, slots, frames, m2, labels2, s, f);
      return labels2, slots, frames;
    }
  }

  ghost predicate Unmapped(m: Memory, m': Memory, labels: map<nat, Label>, root: nat, page: nat, s: Slot, f: nat) {
    && Invariant(m', labels) && Agree(m, m', labels, {s})
    && !EntryAt(m', s).Present() && SlotOf(m', root, page) == Some(s)
    && m'.tables.Keys == m.tables.Keys && m'.total == m.total
    && m'.used == m.used - {f}
  }

  lemma PagesSurviveUnmap(m0: Memory, labels0: map<nat, Label>, m: Memory, labels: map<nat, Label>,
                          root: nat, start: nat, flags: nat, slots: seq<Slot>, frames: seq<nat>, j: nat, m': Memory)
    requires Progress(m0, labels0, m, labels, root, start, flags, slots, frames, j)
    requires j < |slots| && FlagWord(flags) % 2 == 1
    requires Unmapped(m, m', labels, root, PageAt(start, j), slots[j], frames[j])
    ensures forall k :: 0 <= k < |slots| ==>
                          PageDone(m0, m', root, start, Entry(FlagWord(flags), frames[k]), slots[k], k, j + 1)
  {
    forall k | 0 <= k < |slots|
      ensures PageDone(m0, m', root, start, Entry(FlagWord(flags), frames[k]), slots[k], k, j + 1)
    {
      var e := Entry(FlagWord(flags), frames[k]);
      assert PageDone(m0, m, root, start, e, slots[k], k, j);
      if k != j {
        PageSurvives(m0, m, labels, m', labels, root, start, e, slots[k], k, j, {slots[j]});
      }
    }
  }

  lemma StepUnmaps(m0: Memory, labels0: map<nat, Label>, m: Memory, labels: map<nat, Label>,
                   root: nat, start: nat, flags: nat, slots: seq<Slot>, frames: seq<nat>, j: nat, m': Memory)
    requires Progress(m0, labels0, m, labels, root, start, flags, slots, frames, j)
    requires j < |slots| && FlagWord(flags) % 2 == 1
    requires Unmapped(m, m', labels, root, PageAt(start, j), slots[j], frames[j])
    ensures Progress(m0, labels0, m', labels, root, start, flags, slots, frames, j + 1)
  {
    hide Labelled, Linked, LeavesOwned, Agree, AgreeAt;
    PagesSurviveUnmap(m0, labels0, m, labels, root, start, flags, slots, frames, j, m');
    AgreeTransitive(m0, labels0, m, labels, m', labels, Set(slots), {slots[j]}, Set(slots));
    assert frames[j..] == [frames[j]] + frames[j + 1..];
    assert Set(frames[j + 1..]) == Set(frames[j..]) - {frames[j]};
    assert PageDone(m0, m, root, start, Entry(FlagWord(flags), frames[j]), slots[j], j, j);
  }

  lemma UnmapOf(m: Memory, labels: map<nat, Label>, root: nat, page: nat, s: Slot)
    requires Invariant(m, labels) && IsRoot(labels, root) && page < PAGES
    requires SlotOf(m, root, page) == Some(s) && EntryAt(m, s).Present()
    ensures Unmapped(m, UnmapPage(m, root, page).0, labels, root, page, s, EntryAt(m, s).frame)
  {
    UnmapPageCorrect(m, labels, root, page);
  }

  lemma {:induction false} UnmapFromCorrect(m0: Memory, labels0: map<nat, Label>, m: Memory, labels: map<nat, Label>,
                                            root: nat, start: nat, flags: nat,
                                            slots: seq<Slot>, frames: seq<nat>, j: nat)
    requires Progress(m0, labels0, m, labels, root, start, flags, slots, frames, j) && FlagWord(flags) % 2 == 1
    ensures Progress(m0, labels0, UnmapFrom(m, root, start, j, |slots|), labels, root, start, flags, slots, frames, |slots|)
    decreases |slots| - j
  {
    if j < |slots| {
      var m' := UnmapPage(m, root, PageAt(start, j)).0;
      assert PageDone(m0, m, root, start, Entry(FlagWord(flags), frames[j]), slots[j], j, j);
      UnmapOf(m, labels, root, PageAt(start, j), slots[j]);
      StepUnmaps(m0, labels0, m, labels, root, start, flags, slots, frames, j, m');
      UnmapFromCorrect(m0, labels0, m', labels, root, start, flags, slots, frames, j + 1);
    }
  }

  // ---------- The theorems ----------

  ghost function RangePages(start: nat, n: nat): set<nat> {
    set k | 0 <= k < n :: PageAt(start, k)
  }

  // Every translation of other pages, and the lower half of every other address space, is as before.
  ghost predicate OthersKept(m: Memory, m': Memory, labels: map<nat, Label>, root: nat, pages: set<nat>) {
    forall r, page :: IsRoot(labels, r) && 0 <= page < PAGES && (page in pages ==> r != root && page < UPPER_HALF)
                      ==> Walk(m', r, page) == Walk(m, r, page)
  }

  ghost predicate AllKept(m: Memory, m': Memory, labels: map<nat, Label>) {
    forall r, page :: IsRoot(labels, r) && 0 <= page < PAGES ==> Walk(m', r, page) == Walk(m, r, page)
  }

  // Each page of the range has its own frame, and all these frames were free.
  ghost predicate Backed(m: Memory, m': Memory, root: nat, start: nat, flags: nat, frames: seq<nat>) {
    && Distinct(frames)
    && forall k :: 0 <= k < |frames| ==>
                     && frames[k] in Free(m)
                     && Walk(m', root, PageAt(start, k)) == Some(Entry(FlagWord(flags), frames[k]))
                     && Carries(Walk(m', root, PageAt(start, k)).value.flags, flags)
                     && Walk(m, root, PageAt(start, k)).None?
  }

  lemma ProgressKeepsOthers(m0: Memory, labels0: map<nat, Label>, m: Memory, labels: map<nat, Label>,
                            root: nat, start: nat, flags: nat, slots: seq<Slot>, frames: seq<nat>)
    requires Progress(m0, labels0, m, labels, root, start, flags, slots, frames, 0)
    ensures OthersKept(m0, m, labels0, root, RangePages(start, |slots|))
  {
    forall r, page | IsRoot(labels0, r) && 0 <= page < PAGES
                     && (page in RangePages(start, |slots|) ==> r != root && page < UPPER_HALF)
      ensures Walk(m, r, page) == Walk(m0, r, page)
    {
      AgreeWalk(m0, labels0, m, labels, Set(slots), r, page);
      var s := SlotOf(m, r, page);
      if s.Some? && s.value in Set(slots) {
        var k :| 0 <= k < |slots| && slots[k] == s.value;
        assert PageDone(m0, m, root, start, Entry(FlagWord(flags), frames[k]), slots[k], k, 0);
        assert PageAt(start, k) in RangePages(start, |slots|);
        WalksMeet(m, labels, root, PageAt(start, k), r, page);
        assert false;
      }
    }
  }

  lemma ProgressBacks(m0: Memory, labels0: map<nat, Label>, m: Memory, labels: map<nat, Label>,
                      root: nat, start: nat, flags: nat, slots: seq<Slot>, frames: seq<nat>)
    requires Progress(m0, labels0, m, labels, root, start, flags, slots, frames, 0) && FlagWord(flags) % 2 == 1
    ensures Backed(m0, m, root, start, flags, frames)
  {
    FlagWordCarries(flags);
    hide Carries, FlagWord, PageAt, LeafSlot, Labelled, Linked, LeavesOwned, FramesOwned;
    forall k | 0 <= k < |frames|
      ensures && frames[k] in Free(m0)
              && Walk(m, root, PageAt(start, k)) == Some(Entry(FlagWord(flags), frames[k]))
              && Walk(m0, root, PageAt(start, k)).None?
    {
      assert PageDone(m0, m, root, start, Entry(FlagWord(flags), frames[k]), slots[k], k, 0);
      AgreeWalk(m0, labels0, m, labels, Set(slots), root, PageAt(start, k));
    }
  }

  lemma RolledBackKeepsAll(m0: Memory, labels0: map<nat, Label>, m: Memory, labels: map<nat, Label>,
                           root: nat, start: nat, flags: nat, slots: seq<Slot>, frames: seq<nat>)
    requires Progress(m0, labels0, m, labels, root, start, flags, slots, frames, |slots|)
    ensures AllKept(m0, m, labels0)
  {
    forall r, page | IsRoot(labels0, r) && 0 <= page < PAGES
      ensures Walk(m, r, page) == Walk(m0, r, page)
    {
      AgreeWalk(m0, labels0, m, labels, Set(slots), r, page);
      var s := SlotOf(m, r, page);
      if s.Some? && s.value in Set(slots) {
        var k :| 0 <= k < |slots| && slots[k] == s.value;
        assert PageDone(m0, m, root, start, Entry(FlagWord(flags), frames[k]), slots[k], k, |slots|);
      }
    }
  }

  lemma ProgressStarts(m: Memory, labels: map<nat, Label>, root: nat, start: nat, flags: nat)
    requires Invariant(m, labels) && IsRoot(labels, root)
    ensures Progress(m, labels, m, labels, root, start, flags, [], [], 0)
  {
  }

  // All or nothing. On success every page of the range has its own, previously free frame and all
  // other translations are as before; on failure every translation of every address space is as
  // before and the only frames that stay reserved hold page tables.
  lemma AllocRangeAllOrNothing(m: Memory, labels: map<nat, Label>, root: nat, start: nat, n: nat, flags: nat)
    returns (labels': map<nat, Label>, frames: seq<nat>)
    requires Invariant(m, labels) && IsRoot(labels, root) && FlagWord(flags) % 2 == 1
    requires Nourished(m, root, start, 0, n, flags)
    ensures var (m', ok) := AllocRange(m, root, start, n, flags);
            && Invariant(m', labels') && Extends(labels, labels')
            && m'.tables.Keys - m.tables.Keys <= Free(m)
            && (if ok then
                  && |frames| == n && Backed(m, m', root, start, flags, frames)
                  && OthersKept(m, m', labels, root, RangePages(start, n))
                  && m'.used == m.used + m'.tables.Keys + Set(frames)
                else
                  AllKept(m, m', labels) && m'.used == m.used + m'.tables.Keys)
  {
    hide Invariant, Agree, AgreeAt, Nourished, Walk, OthersKept, AllKept, Backed;
    ProgressStarts(m, labels, root, start, flags);
    var slots;
    labels', slots, frames := AllocFromCorrect(m, labels, m, labels, root, start, n, flags, [], []);
    var (m1, k) := AllocFrom(m, root, start, 0, n, flags);
    if k < n {
      UnmapFromCorrect(m, labels, m1, labels', root, start, flags, slots, frames, 0);
      RolledBackKeepsAll(m, labels, UnmapFrom(m1, root, start, 0, k), labels', root, start, flags, slots, frames);
      assert Set(frames[k..]) == {};
    } else {
      ProgressBacks(m, labels, m1, labels', root, start, flags, slots, frames);
      ProgressKeepsOthers(m, labels, m1, labels', root, start, flags, slots, frames);
      assert frames[0..] == frames;
    }
  }

  // The other half: when the run does ask for a table that no free frame can hold, frame 0 (the
  // null pointer) is made a page table, and no labelling makes the tables a forest again.
  lemma {:induction false} StarvedRange(m: Memory, labels: map<nat, Label>, root: nat, start: nat, i: nat, n: nat, flags: nat)
    requires Invariant(m, labels) && IsRoot(labels, root) && i <= n
    requires !Nourished(m, root, start, i, n, flags)
    ensures 0 in AllocFrom(m, root, start, i, n, flags).0.tables
    decreases n - i
  {
    hide Labelled, Linked, LeavesOwned, MapPage, EnsurePath, Missing, Agree, Walk, Unclaimed;
    AllocFrameTakesOne(m);
    assert Free(m) != {};
    var page := PageAt(start, i);
    var (m1, f) := AllocFrame(m);
    assert f != 0 by { FreeIsNotNull(m, labels, f); }
    if |Free(m1)| >= Missing(m1, root, 4, page) {
      var labels2 := RangeAttempt(m, labels, root, page, flags);
      StarvedRange(MapPage(m1, root, page, f, flags).0, labels2, root, start, i + 1, n, flags);
    } else {
      AgreeSelf(m, labels);
      ReserveFrame(m, m, labels, f, {});
      StarvedPath(m1, labels, root, 4, page);
      MapPageKeepsTables(m1, root, page, f, flags);
    }
  }

  lemma FreeIsNotNull(m: Memory, labels: map<nat, Label>, f: nat)
    requires Invariant(m, labels) && f in Free(m)
    ensures f != 0
  {
  }

  lemma MapPageKeepsTables(m: Memory, root: nat, page: nat, frame: nat, flags: nat)
    ensures EnsurePath(m, root, 4, page).0.tables.Keys <= MapPage(m, root, page, frame, flags).0.tables.Keys
  {
  }

  // Nourished is what the caller must grant: exactly then no run of the loop uses frame 0.
  lemma AllocRangeUsesNullIffStarved(m: Memory, labels: map<nat, Label>, root: nat, start: nat, n: nat, flags: nat)
    requires Invariant(m, labels) && IsRoot(labels, root) && FlagWord(flags) % 2 == 1
    ensures Nourished(m, root, start, 0, n, flags) <==> 0 !in AllocRange(m, root, start, n, flags).0.tables
  {
    hide LeafSlot, Nourished, AllocFrom;
    if Nourished(m, root, start, 0, n, flags) {
      var _, _ := AllocRangeAllOrNothing(m, labels, root, start, n, flags);
    } else {
      StarvedRange(m, labels, root, start, 0, n, flags);
    }
  }

  lemma FreeGrows(m: Memory, m': Memory)
    requires m'.total == m.total && m'.used <= m.used
    ensures |Free(m)| <= |Free(m')|
  {
    assert Free(m) <= Free(m');
    Subset(Free(m), Free(m'));
  }

  lemma Subset(a: set<nat>, b: set<nat>)
    requires a <= b
    ensures |a| <= |b|
  {
    assert b == a + (b - a);
  }

  lemma FreeAfterMap(m: Memory, labels: map<nat, Label>, root: nat, page: nat, frame: nat, flags: nat)
    requires Invariant(m, labels) && IsRoot(labels, root) && page < PAGES && frame in m.used
    requires |Free(m)| >= Missing(m, root, 4, page)
    ensures |Free(MapPage(m, root, page, frame, flags).0)| == |Free(m)| - Missing(m, root, 4, page)
  {
    hide Invariant, Agree, LeafSlot, Missing, EnsurePath;
    var _ := EnsurePathCorrect(m, labels, root, 4, page);
    var m1 := EnsurePath(m, root, 4, page).0;
    assert frame in m1.used;
    assert Free(MapPage(m, root, page, frame, flags).0) == Free(m1);
  }

  lemma {:induction false} UnmapFromFrees(m: Memory, root: nat, start: nat, i: nat, n: nat)
    requires i <= n
    ensures var m' := UnmapFrom(m, root, start, i, n); m'.total == m.total && m'.used <= m.used
    decreases n - i
  {
    if i < n { UnmapFromFrees(UnmapPage(m, root, PageAt(start, i)).0, root, start, i + 1, n); }
  }
}
