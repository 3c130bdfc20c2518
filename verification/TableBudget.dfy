/**
 How many frames a range takes, counted before it is mapped: one a page, and one for every table
 that is missing on the way to some page of it, shared tables once.
 */
module TableBudget {
  import opened PageTables
  import opened Paging
  import opened Ranges
  import opened AddressSpaces

  // The place of a table below a root: its level, and the part of the page number that leads to it.
  datatype Spot = Spot(level: nat, prefix: nat)

  // The places on the way to a page below the given level.
  function Path(level: nat, page: nat): (r: set<Spot>) {
    if level <= 1 then {}
    else if level == 2 then {Spot(1, Prefix(1, page))}
    else if level == 3 then {Spot(1, Prefix(1, page)), Spot(2, Prefix(2, page))}
    else {Spot(1, Prefix(1, page)), Spot(2, Prefix(2, page)), Spot(3, Prefix(3, page))}
  }

  // Those of them that have no table yet.
  function MissingSpots(m: Memory, t: nat, level: nat, page: nat): (r: set<Spot>)
    decreases level
  {
    if level <= 1 then {}
    else
      var e := TableAt(m, t)[Index(level, page)];
      if e.Present() then MissingSpots(m, e.frame, level - 1, page) else Path(level, page)
  }

  lemma PathStep(level: nat, page: nat)
    requires 2 <= level <= 4
    ensures Path(level, page) == Path(level - 1, page) + {Spot(level - 1, Prefix(level - 1, page))}
    ensures |Path(level, page)| == level - 1
    ensures forall s :: s in Path(level, page) ==> 1 <= s.level < level && s.prefix == Prefix(s.level, page)
  {
    hide Prefix, Path;
    PathMembers(level, page);
    PathSize(2, page);
    PathSize(3, page);
    PathSize(4, page);
  }

  lemma PathMembers(level: nat, page: nat)
    requires 2 <= level <= 4
    ensures Path(level, page) == Path(level - 1, page) + {Spot(level - 1, Prefix(level - 1, page))}
    ensures forall s :: s in Path(level, page) ==> 1 <= s.level < level && s.prefix == Prefix(s.level, page)
  {
    hide Prefix;
  }

  lemma PathSize(level: nat, page: nat)
    requires 2 <= level <= 4
    ensures |Path(level, page)| == level - 1
  {
    hide Prefix, Path;
    PathMembers(level, page);
    if level == 2 {
      assert Path(1, page) == {} by { NoPath(page); }
    } else {
      PathSize(level - 1, page);
      PathMembers(level - 1, page);
      assert Spot(level - 1, Prefix(level - 1, page)) !in Path(level - 1, page);
    }
  }

  lemma NoPath(page: nat)
    ensures Path(1, page) == {}
  {
  }

  lemma {:induction false} MissingCounted(m: Memory, t: nat, level: nat, page: nat)
    requires level <= 4
    ensures MissingSpots(m, t, level, page) <= Path(level, page) && |MissingSpots(m, t, level, page)| == Missing(m, t, level, page)
    decreases level
  {
    hide Path, TableAt;
    if level > 1 {
      PathStep(level, page);
      var e := TableAt(m, t)[Index(level, page)];
      if e.Present() { MissingCounted(m, e.frame, level - 1, page); }
    } else {
      assert Path(level, page) == {} by { PathEmpty(level, page); }
    }
  }

  lemma PathEmpty(level: nat, page: nat)
    requires level <= 1
    ensures Path(level, page) == {}
  {
  }

  // Pages that part at a level have no place in common below it.
  lemma PathsApart(level: nat, p: nat, q: nat)
    requires 2 <= level <= 4 && p < PAGES && q < PAGES && Prefix(level, p) == Prefix(level, q) && Index(level, p) != Index(level, q)
    ensures Path(level, p) !! Path(level, q)
    ensures forall k :: 1 <= k < level ==> Prefix(k, p) != Prefix(k, q)
  {
    PrefixStep(level, p);
    PrefixStep(level, q);
    LowerApart(level - 1, p, q);
  }

  lemma PrefixUp(page: nat)
    ensures Prefix(2, page) == Prefix(1, page) / 512 && Prefix(3, page) == Prefix(2, page) / 512
  {
    assert page / 512 / 512 == page / 262144 && page / 262144 / 512 == page / 134217728;
  }

  lemma LowerApart(level: nat, p: nat, q: nat)
    requires 1 <= level <= 3 && Prefix(level, p) != Prefix(level, q)
    ensures forall k :: 1 <= k <= level ==> Prefix(k, p) != Prefix(k, q)
  {
    hide Prefix;
    PrefixUp(p);
    PrefixUp(q);
    forall k | 1 <= k <= level
      ensures Prefix(k, p) != Prefix(k, q)
    {
    }
  }

  // ---------- What making a path touches ----------

  ghost predicate OnTheWay(labels: map<nat, Label>, w: nat, level: nat, page: nat)
    requires w in labels
  {
    labels[w].level <= level && labels[w].prefix == Prefix(labels[w].level, page)
  }

  lemma {:induction false} PathTouches(m: Memory, labels: map<nat, Label>, t: nat, level: nat, page: nat, w: nat)
    requires Invariant(m, labels) && t in labels && labels[t].level == level && labels[t].prefix == Prefix(level, page) && page < PAGES
    requires |Free(m)| >= Missing(m, t, level, page) && w in m.tables && w in labels && !OnTheWay(labels, w, level, page)
    ensures w in EnsurePath(m, t, level, page).0.tables && EnsurePath(m, t, level, page).0.tables[w] == m.tables[w]
    decreases level
  {
    hide Labelled, Linked, LeavesOwned, FramesOwned, Agree, Free, Prefix, Index;
    if level > 1 {
      var i := Index(level, page);
      var (m1, f) := EnsureTable(m, t, i);
      LevelIsSmall(m, labels, t);
      SomeFree(m, t, level, page);
      var labels1 := EnsureTableCorrect(m, labels, t, i);
      EnsureTableTouches(m, labels, t, i, w);
      PrefixStep(level, page);
      MissingAfter(m, t, level, page);
      assert labels1[w] == labels[w];
      PathTouches(m1, labels1, f, level - 1, page, w);
    }
  }

  lemma LevelIsSmall(m: Memory, labels: map<nat, Label>, t: nat)
    requires Invariant(m, labels) && t in labels
    ensures 1 <= labels[t].level <= 4 && t in m.tables && TableAt(m, t) == m.tables[t]
  {
  }

  lemma SomeFree(m: Memory, t: nat, level: nat, page: nat)
    requires level > 1 && |Free(m)| >= Missing(m, t, level, page)
    ensures TableAt(m, t)[Index(level, page)].Present() || Free(m) != {}
  {
  }

  lemma EnsureTableTouches(m: Memory, labels: map<nat, Label>, t: nat, i: nat, w: nat)
    requires Invariant(m, labels) && t in labels && i < 512 && w in m.tables && w != t
    requires m.tables[t][i].Present() || Free(m) != {}
    ensures w in EnsureTable(m, t, i).0.tables && EnsureTable(m, t, i).0.tables[w] == m.tables[w]
  {
    hide Labelled, Linked, LeavesOwned;
    AllocFrameTakesOne(m);
  }

  // One table made: one fewer is missing.
  lemma MissingAfter(m: Memory, t: nat, level: nat, page: nat)
    requires level > 1 && (TableAt(m, t)[Index(level, page)].Present() || Free(m) != {}) && t in m.tables && FramesOwned(m)
    requires |Free(m)| >= Missing(m, t, level, page)
    ensures var (m1, f) := EnsureTable(m, t, Index(level, page)); |Free(m1)| >= Missing(m1, f, level - 1, page)
  {
    hide Index;
    var (m1, f) := EnsureTable(m, t, Index(level, page));
    AllocFrameTakesOne(m);
    if !TableAt(m, t)[Index(level, page)].Present() {
      assert m1.tables[f] == EmptyTable();
      EmptyMissing(m1, f, level - 1, page);
      assert Free(m1) == Free(AllocFrame(m).0);
    }
  }

  lemma EmptyMissing(m: Memory, f: nat, level: nat, page: nat)
    requires f in m.tables && m.tables[f] == EmptyTable()
    ensures Missing(m, f, level, page) == if level <= 1 then 0 else level - 1
    ensures MissingSpots(m, f, level, page) == Path(level, page)
  {
  }

  // A walk to another place than the path's finds the same tables.
  lemma {:induction false} Untouched(m: Memory, labels: map<nat, Label>, m': Memory, u: nat, level: nat, p: nat, q: nat)
    requires Invariant(m, labels) && u in labels && labels[u].level == level && labels[u].prefix == Prefix(level, q) && q < PAGES
    requires level <= 3 && forall k :: 1 <= k <= level ==> Prefix(k, p) != Prefix(k, q)
    requires forall w :: w in m.tables && w in labels && !OnTheWay(labels, w, 4, p) ==> w in m'.tables && m'.tables[w] == m.tables[w]
    ensures MissingSpots(m', u, level, q) == MissingSpots(m, u, level, q)
    decreases level
  {
    hide LeavesOwned, FramesOwned, Prefix, Index, Path;
    if level > 1 {
      LevelIsSmall(m, labels, u);
      assert !OnTheWay(labels, u, 4, p);
      var i := Index(level, q);
      var e := m.tables[u][i];
      if e.Present() {
        assert Branch(m, labels, u, i);
        PrefixStep(level, q);
        Untouched(m, labels, m', e.frame, level - 1, p, q);
      }
    }
  }

  // Making the path to p takes exactly p's places from what is missing for q.
  lemma {:induction false} EnsureSpots(m: Memory, labels: map<nat, Label>, t: nat, level: nat, p: nat, q: nat)
    requires Invariant(m, labels) && t in labels && labels[t].level == level && p < PAGES && q < PAGES
    requires labels[t].prefix == Prefix(level, p) == Prefix(level, q) && |Free(m)| >= Missing(m, t, level, p)
    ensures MissingSpots(EnsurePath(m, t, level, p).0, t, level, q) == MissingSpots(m, t, level, q) - Path(level, p)
    decreases level
  {
    hide Invariant, Agree, Free, Prefix, Index, Path, MissingSpots;
    LevelIsSmall(m, labels, t);
    if level <= 1 {
      NoSpots(m, t, level, q);
      NoSpots(EnsurePath(m, t, level, p).0, t, level, q);
    } else if Index(level, p) == Index(level, q) {
      EnsureShared(m, labels, t, level, p, q);
    } else {
      PathsApart(level, p, q);
      EnsureOther(m, labels, t, level, p, q);
      MissingCounted(m, t, level, q);
      assert MissingSpots(m, t, level, q) - Path(level, p) == MissingSpots(m, t, level, q);
    }
  }

  lemma NoSpots(m: Memory, t: nat, level: nat, page: nat)
    requires level <= 1
    ensures MissingSpots(m, t, level, page) == {}
  {
  }

  lemma {:induction false} EnsureShared(m: Memory, labels: map<nat, Label>, t: nat, level: nat, p: nat, q: nat)
    requires Invariant(m, labels) && t in labels && labels[t].level == level && 2 <= level <= 4 && p < PAGES && q < PAGES
    requires labels[t].prefix == Prefix(level, p) == Prefix(level, q) && |Free(m)| >= Missing(m, t, level, p)
    requires Index(level, p) == Index(level, q)
    ensures MissingSpots(EnsurePath(m, t, level, p).0, t, level, q) == MissingSpots(m, t, level, q) - Path(level, p)
    decreases level, 0
  {
    hide Invariant, Agree, Free, Prefix, Index, Path, EnsureTable, MissingSpots;
    var i := Index(level, p);
    LevelIsSmall(m, labels, t);
    SomeFree(m, t, level, p);
    var (m1, f) := EnsureTable(m, t, i);
    var labels1 := EnsureTableCorrect(m, labels, t, i);
    assert FramesOwned(m) by { Owned(m, labels); }
    MissingAfter(m, t, level, p);
    PrefixStep(level, p);
    PrefixStep(level, q);
    var m' := EnsurePath(m1, f, level - 1, p).0;
    assert EnsurePath(m, t, level, p).0 == m';
    var labels' := EnsurePathCorrect(m1, labels1, f, level - 1, p);
    EnsureSpots(m1, labels1, f, level - 1, p, q);
    LevelIsSmall(m1, labels1, t);
    BranchKept(m1, m', labels', t, i);
    LevelIsSmall(m', labels', t);
    SpotsBelow(m', t, f, level, q);
    SharedSets(m, m1, t, f, level, p, q);
  }

  lemma Owned(m: Memory, labels: map<nat, Label>)
    requires Invariant(m, labels)
    ensures FramesOwned(m)
  {
  }

  lemma SpotsBelow(m: Memory, t: nat, f: nat, level: nat, page: nat)
    requires level >= 2 && t in m.tables && m.tables[t][Index(level, page)].Present() && m.tables[t][Index(level, page)].frame == f
    ensures MissingSpots(m, t, level, page) == MissingSpots(m, f, level - 1, page)
  {
  }

  lemma SharedSets(m: Memory, m1: Memory, t: nat, f: nat, level: nat, p: nat, q: nat)
    requires 2 <= level <= 4 && t in m.tables && Prefix(level - 1, p) == Prefix(level - 1, q)
    requires var e := m.tables[t][Index(level, q)];
             if e.Present() then m1 == m && e.frame == f else f in m1.tables && m1.tables[f] == EmptyTable()
    ensures MissingSpots(m1, f, level - 1, q) - Path(level - 1, p) == MissingSpots(m, t, level, q) - Path(level, p)
  {
    hide Path, Prefix, Index;
    PathStep(level, p);
    PathStep(level, q);
    MissingCounted(m1, f, level - 1, q);
    NotDeeper(level - 1, q);
    if !m.tables[t][Index(level, q)].Present() { EmptyMissing(m1, f, level - 1, q); }
  }

  lemma NotDeeper(level: nat, page: nat)
    requires 1 <= level <= 3
    ensures forall s :: s in Path(level, page) ==> s.level < level
  {
  }

  lemma EnsureOther(m: Memory, labels: map<nat, Label>, t: nat, level: nat, p: nat, q: nat)
    requires Invariant(m, labels) && t in labels && labels[t].level == level && 2 <= level <= 4 && p < PAGES && q < PAGES
    requires labels[t].prefix == Prefix(level, p) == Prefix(level, q) && |Free(m)| >= Missing(m, t, level, p)
    requires Index(level, p) != Index(level, q) && forall k :: 1 <= k < level ==> Prefix(k, p) != Prefix(k, q)
    ensures MissingSpots(EnsurePath(m, t, level, p).0, t, level, q) == MissingSpots(m, t, level, q)
  {
    hide Invariant, Agree, Free, Prefix, Index, Path, EnsureTable, EnsurePath, OnTheWay;
    var m' := EnsurePath(m, t, level, p).0;
    forall w | w in m.tables && w in labels && !OnTheWay(labels, w, 4, p)
      ensures w in m'.tables && m'.tables[w] == m.tables[w]
    {
      LessOnTheWay(labels, w, level, p);
      PathTouches(m, labels, t, level, p, w);
    }
    OtherEntryKept(m, labels, t, level, p, Index(level, q));
    LevelIsSmall(m, labels, t);
    var e := m.tables[t][Index(level, q)];
    if e.Present() {
      ChildOf(m, labels, t, level, q);
      Untouched(m, labels, m', e.frame, level - 1, p, q);
    }
  }

  lemma LessOnTheWay(labels: map<nat, Label>, w: nat, level: nat, p: nat)
    requires w in labels && level <= 4 && !OnTheWay(labels, w, 4, p)
    ensures !OnTheWay(labels, w, level, p)
  {
  }

  lemma ChildOf(m: Memory, labels: map<nat, Label>, t: nat, level: nat, q: nat)
    requires Invariant(m, labels) && t in labels && t in m.tables && labels[t].level == level && 2 <= level <= 4 && q < PAGES
    requires labels[t].prefix == Prefix(level, q) && m.tables[t][Index(level, q)].Present()
    ensures var f := m.tables[t][Index(level, q)].frame;
            f in labels && labels[f].level == level - 1 && labels[f].prefix == Prefix(level - 1, q)
  {
    hide LeavesOwned, FramesOwned, Prefix, Index;
    assert Branch(m, labels, t, Index(level, q));
    PrefixStep(level, q);
  }

  // In the table where the path starts only its own entry changes.
  lemma OtherEntryKept(m: Memory, labels: map<nat, Label>, t: nat, level: nat, p: nat, j: nat)
    requires Invariant(m, labels) && t in labels && labels[t].level == level && 2 <= level <= 4 && p < PAGES && j < 512
    requires labels[t].prefix == Prefix(level, p) && |Free(m)| >= Missing(m, t, level, p) && j != Index(level, p)
    ensures t in EnsurePath(m, t, level, p).0.tables && t in m.tables && EnsurePath(m, t, level, p).0.tables[t][j] == m.tables[t][j]
  {
    hide Labelled, Linked, LeavesOwned, FramesOwned, Agree, Free, Prefix, Index;
    var i := Index(level, p);
    LevelIsSmall(m, labels, t);
    SomeFree(m, t, level, p);
    var (m1, f) := EnsureTable(m, t, i);
    var labels1 := EnsureTableCorrect(m, labels, t, i);
    MissingAfter(m, t, level, p);
    PrefixStep(level, p);
    assert labels1[t] == labels[t];
    PathTouches(m1, labels1, f, level - 1, p, t);
    EnsureTableEntry(m, labels, t, i, j);
  }

  lemma EnsureTableEntry(m: Memory, labels: map<nat, Label>, t: nat, i: nat, j: nat)
    requires Invariant(m, labels) && t in labels && i < 512 && j < 512 && i != j
    requires m.tables[t][i].Present() || Free(m) != {}
    ensures t in EnsureTable(m, t, i).0.tables && t in m.tables && EnsureTable(m, t, i).0.tables[t][j] == m.tables[t][j]
  {
    hide Labelled, Linked, LeavesOwned;
    LevelIsSmall(m, labels, t);
    AllocFrameTakesOne(m);
  }

  // ---------- Counting a range ----------

  // The places without a table on the way to the first k pages of a range.
  ghost function Needed(m: Memory, root: nat, start: nat, k: nat): set<Spot> {
    if k == 0 then {} else Needed(m, root, start, k - 1) + MissingSpots(m, root, 4, PageAt(start, k - 1))
  }

  // All places on the way to them.
  ghost function Passed(start: nat, k: nat): set<Spot> {
    if k == 0 then {} else Passed(start, k - 1) + Path(4, PageAt(start, k - 1))
  }

  // A place that is missing for p, and on the way to q, is missing for q.
  lemma {:induction false} MissingForBoth(m: Memory, labels: map<nat, Label>, t: nat, level: nat, p: nat, q: nat, s: Spot)
    requires Invariant(m, labels) && t in labels && labels[t].level == level && p < PAGES && q < PAGES
    requires Prefix(level, p) == Prefix(level, q) && s in MissingSpots(m, t, level, p) && s in Path(level, q)
    ensures s in MissingSpots(m, t, level, q)
    decreases level
  {
    hide LeavesOwned, FramesOwned, Prefix, Index, Path;
    LevelIsSmall(m, labels, t);
    if level > 1 {
      MissingCounted(m, t, level, p);
      if Index(level, p) != Index(level, q) {
        PathsApart(level, p, q);
      } else {
        var i := Index(level, p);
        var e := m.tables[t][i];
        if e.Present() {
          assert Branch(m, labels, t, i);
          PrefixStep(level, p);
          PrefixStep(level, q);
          MissingCounted(m, e.frame, level - 1, p);
          PathStep(level, q);
          NotDeeper(level - 1, p);
          MissingForBoth(m, labels, e.frame, level - 1, p, q, s);
        }
      }
    }
  }

  lemma {:induction false} PassedIsNeeded(m: Memory, labels: map<nat, Label>, root: nat, start: nat, k: nat, p: nat)
    requires Invariant(m, labels) && IsRoot(labels, root) && p < PAGES
    ensures MissingSpots(m, root, 4, p) - Passed(start, k) == MissingSpots(m, root, 4, p) - Needed(m, root, start, k)
  {
    hide Invariant, MissingSpots, Path, PageAt;
    if k > 0 {
      var q := PageAt(start, k - 1);
      PassedIsNeeded(m, labels, root, start, k - 1, p);
      MissingCounted(m, root, 4, q);
      forall s | s in MissingSpots(m, root, 4, p) && s in Path(4, q)
        ensures s in MissingSpots(m, root, 4, q)
      {
        TopPrefix(p, q);
        MissingForBoth(m, labels, root, 4, p, q, s);
      }
    }
  }

  lemma TopPrefix(p: nat, q: nat)
    ensures Prefix(4, p) == Prefix(4, q) == 0
  {
  }

  // Page i of the range is not mapped, and not an earlier page of it.
  ghost predicate FreshPage(m: Memory, root: nat, start: nat, i: nat) {
    Walk(m, root, PageAt(start, i)).None? && PageAt(start, i) !in RangePages(start, i)
  }

  // At page i the allocator is already empty, or has a frame for the page and for every table that
  // the pages up to it lack.
  ghost predicate Budget(m: Memory, root: nat, start: nat, i: nat) {
    |Free(m)| <= i + |Needed(m, root, start, i)| || |Free(m)| >= i + 1 + |Needed(m, root, start, i + 1)|
  }

  ghost predicate BudgetFrom(m: Memory, root: nat, start: nat, i: nat, n: nat)
    decreases n - i
  {
    i < n && FreshPage(m, root, start, i) ==> Budget(m, root, start, i) && BudgetFrom(m, root, start, i + 1, n)
  }

  // The memory after the first i pages.
  ghost predicate Counted(m0: Memory, m: Memory, labels: map<nat, Label>, root: nat, start: nat, i: nat) {
    && Invariant(m, labels) && IsRoot(labels, root)
    && |Free(m)| + i + |Needed(m0, root, start, i)| == |Free(m0)|
    && (forall q: nat :: q < PAGES ==> MissingSpots(m, root, 4, q) == MissingSpots(m0, root, 4, q) - Passed(start, i))
    && (forall q: nat :: q < PAGES ==> (Walk(m, root, q).None? <==> Walk(m0, root, q).None? && q !in RangePages(start, i)))
  }

  lemma CountedStarts(m: Memory, labels: map<nat, Label>, root: nat, start: nat)
    requires Invariant(m, labels) && IsRoot(labels, root)
    ensures Counted(m, m, labels, root, start, 0)
  {
    hide Invariant, MissingSpots, Walk, Free;
    assert RangePages(start, 0) == {};
  }

  // What page i still lacks.
  lemma MissingNow(m0: Memory, labels0: map<nat, Label>, m: Memory, labels: map<nat, Label>, root: nat, start: nat, i: nat)
    requires Invariant(m0, labels0) && IsRoot(labels0, root) && Counted(m0, m, labels, root, start, i)
    ensures Missing(m, root, 4, PageAt(start, i)) + |Needed(m0, root, start, i)| == |Needed(m0, root, start, i + 1)|
  {
    hide Invariant, MissingSpots, Walk, Free, Missing, PageAt, Passed;
    var p := PageAt(start, i);
    MissingCounted(m, root, 4, p);
    PassedIsNeeded(m0, labels0, root, start, i, p);
    var now, before := MissingSpots(m0, root, 4, p), Needed(m0, root, start, i);
    assert MissingSpots(m, root, 4, p) == now - before;
    assert before + now == before + (now - before);
    assert |before + (now - before)| == |before| + |now - before|;
  }

  lemma NeededGrows(m: Memory, root: nat, start: nat, i: nat)
    ensures |Needed(m, root, start, i)| <= |Needed(m, root, start, i + 1)|
  {
    hide MissingSpots, PageAt;
    Subspots(Needed(m, root, start, i), Needed(m, root, start, i + 1));
  }

  lemma Subspots(a: set<Spot>, b: set<Spot>)
    requires a <= b
    ensures |a| <= |b|
  {
    assert b == a + (b - a);
  }

  // An empty allocator stops the loop in good order, and stays empty.
  lemma {:induction false} EmptyIsBudgeted(m: Memory, root: nat, start: nat, i: nat, n: nat)
    requires |Free(m)| <= i + |Needed(m, root, start, i)|
    ensures BudgetFrom(m, root, start, i, n)
    decreases n - i
  {
    hide Free, Needed, FreshPage;
    if i < n {
      NeededGrows(m, root, start, i);
      EmptyIsBudgeted(m, root, start, i + 1, n);
    }
  }

  // One page mapped: the next state of the count.
  lemma CountedStep(m0: Memory, labels0: map<nat, Label>, m: Memory, labels: map<nat, Label>, root: nat, start: nat, i: nat, flags: nat)
    returns (labels': map<nat, Label>)
    requires Invariant(m0, labels0) && IsRoot(labels0, root) && Counted(m0, m, labels, root, start, i) && FlagWord(flags) % 2 == 1
    requires Free(m) != {} && FreshPage(m0, root, start, i)
    requires var m1 := AllocFrame(m).0; |Free(m1)| >= Missing(m1, root, 4, PageAt(start, i))
    ensures var (m1, f) := AllocFrame(m);
            var (m2, ok) := MapPage(m1, root, PageAt(start, i), f, flags);
            ok && Counted(m0, m2, labels', root, start, i + 1)
  {
    hide Invariant, MissingSpots, Walk, Missing, PageAt, Passed, Needed, Free, EnsurePath, FlagWord;
    var p := PageAt(start, i);
    var (m1, f) := AllocFrame(m);
    assert FramesOwned(m) by { Owned(m, labels); }
    AllocFrameTakesOne(m);
    ReserveFrame(m, m, labels, f, {}) by { AgreeSelf(m, labels); }
    FreshIsUntabled(m, labels, f);
    PathAvoids(m1, labels, root, p, f);
    labels' := MapPageSpace(m1, labels, root, p, f, flags);
    FreeAfterMap(m1, labels, root, p, f, flags);
    MissingNow(m0, labels0, m, labels, root, start, i);
    SameTables(m, m1, root, p);
    var m2 := MapPage(m1, root, p, f, flags).0;
    PagesGrow(start, i);
    forall q: nat | q < PAGES
      ensures MissingSpots(m2, root, 4, q) == MissingSpots(m0, root, 4, q) - Passed(start, i + 1)
      ensures Walk(m2, root, q).None? <==> Walk(m0, root, q).None? && q !in RangePages(start, i + 1)
    {
      MapPageSpots(m, m1, labels, root, p, f, flags, q);
      PassedStep(start, i);
      SameTables(m, m1, root, q);
      InSpace(m1, root, q);
      InSpace(m2, root, q);
    }
    RootKept(labels, labels', root);
  }

  lemma RootKept(labels: map<nat, Label>, labels': map<nat, Label>, root: nat)
    requires IsRoot(labels, root) && Extends(labels, labels')
    ensures IsRoot(labels', root)
  {
  }

  lemma FreshIsUntabled(m: Memory, labels: map<nat, Label>, f: nat)
    requires Invariant(m, labels) && f in Free(m)
    ensures f !in m.tables
  {
  }

  lemma InSpace(m: Memory, root: nat, q: nat)
    requires q < PAGES
    ensures q in Space(m, root) <==> Walk(m, root, q).Some?
  {
  }

  lemma SameTables(m: Memory, m1: Memory, root: nat, q: nat)
    requires m1.tables == m.tables
    ensures Walk(m1, root, q) == Walk(m, root, q) && MissingSpots(m1, root, 4, q) == MissingSpots(m, root, 4, q)
    ensures Missing(m1, root, 4, q) == Missing(m, root, 4, q)
  {
    SameTablesBelow(m, m1, root, 4, q);
  }

  lemma {:induction false} SameTablesBelow(m: Memory, m1: Memory, t: nat, level: nat, q: nat)
    requires m1.tables == m.tables
    ensures MissingSpots(m1, t, level, q) == MissingSpots(m, t, level, q) && Missing(m1, t, level, q) == Missing(m, t, level, q)
    decreases level
  {
    hide Path, Index;
    if level > 1 {
      var e := TableAt(m, t)[Index(level, q)];
      if e.Present() { SameTablesBelow(m, m1, e.frame, level - 1, q); }
    }
  }

  lemma PagesGrow(start: nat, i: nat)
    ensures RangePages(start, i + 1) == RangePages(start, i) + {PageAt(start, i)}
  {
    hide PageAt;
  }

  lemma PassedStep(start: nat, i: nat)
    ensures Passed(start, i + 1) == Passed(start, i) + Path(4, PageAt(start, i))
  {
  }

  // A leaf entry is in no path.
  lemma MapPageSpots(m: Memory, m1: Memory, labels: map<nat, Label>, root: nat, p: nat, f: nat, flags: nat, q: nat)
    requires Invariant(m1, labels) && IsRoot(labels, root) && m1.tables == m.tables && p < PAGES && q < PAGES
    requires |Free(m1)| >= Missing(m1, root, 4, p)
    ensures MissingSpots(MapPage(m1, root, p, f, flags).0, root, 4, q) == MissingSpots(m, root, 4, q) - Path(4, p)
  {
    hide Invariant, MissingSpots, Path, Free, Index, EnsurePath, FlagWord, Agree;
    TopPrefix(p, q);
    RootPrefix(m1, labels, root);
    EnsureSpots(m1, labels, root, 4, p, q);
    SameTables(m, m1, root, q);
    var (m2, t) := EnsurePath(m1, root, 4, p);
    var labels2 := EnsurePathCorrect(m1, labels, root, 4, p);
    LevelIsSmall(m2, labels2, t);
    var m3 := StoreLeaf(m2, t, Index(1, p), f, flags).0;
    assert IsRoot(labels2, root);
    LeafIsNoSpot(m2, labels2, m3, t, root, 4, q);
  }

  lemma RootPrefix(m: Memory, labels: map<nat, Label>, root: nat)
    requires Invariant(m, labels) && IsRoot(labels, root)
    ensures labels[root].prefix == 0 && labels[root].level == 4
  {
  }

  lemma {:induction false} LeafIsNoSpot(m: Memory, labels: map<nat, Label>, m': Memory, t: nat, u: nat, level: nat, q: nat)
    requires Invariant(m, labels) && t in labels && labels[t].level == 1 && u in labels && labels[u].level == level
    requires m'.tables.Keys == m.tables.Keys && forall w :: w in m.tables && w != t ==> m'.tables[w] == m.tables[w]
    ensures MissingSpots(m', u, level, q) == MissingSpots(m, u, level, q)
    decreases level
  {
    hide LeavesOwned, FramesOwned, Path, Index;
    if level > 1 {
      LevelIsSmall(m, labels, u);
      var i := Index(level, q);
      var e := m.tables[u][i];
      if e.Present() {
        assert Branch(m, labels, u, i);
        LeafIsNoSpot(m, labels, m', t, e.frame, level - 1, q);
      }
    }
  }

  lemma {:induction false} NourishedIffFrom(m0: Memory, labels0: map<nat, Label>, m: Memory, labels: map<nat, Label>,
                                            root: nat, start: nat, i: nat, n: nat, flags: nat)
    requires Invariant(m0, labels0) && IsRoot(labels0, root) && Counted(m0, m, labels, root, start, i) && FlagWord(flags) % 2 == 1 && i <= n
    ensures Nourished(m, root, start, i, n, flags) <==> BudgetFrom(m0, root, start, i, n)
    decreases n - i
  {
    hide Invariant, MissingSpots, Walk, Missing, PageAt, Passed, Needed, FlagWord, MapPage, AllocFrame;
    if i < n {
      if Free(m) == {} {
        EmptyIsBudgeted(m0, root, start, i, n);
      } else {
        var (m1, f) := AllocFrame(m);
        assert FramesOwned(m) by { Owned(m, labels); }
        AllocFrameTakesOne(m);
        SameTables(m, m1, root, PageAt(start, i));
        MissingNow(m0, labels0, m, labels, root, start, i);
        if !FreshPage(m0, root, start, i) {
          MappedMissesNothing(m1, labels, root, PageAt(start, i), f, flags);
        } else if |Free(m1)| >= Missing(m1, root, 4, PageAt(start, i)) {
          var labels' := CountedStep(m0, labels0, m, labels, root, start, i, flags);
          NourishedIffFrom(m0, labels0, MapPage(m1, root, PageAt(start, i), f, flags).0, labels', root, start, i + 1, n, flags);
        }
      }
    }
  }

  // A mapped page has all its tables, and is refused.
  lemma MappedMissesNothing(m: Memory, labels: map<nat, Label>, root: nat, page: nat, f: nat, flags: nat)
    requires Walk(m, root, page).Some?
    ensures Missing(m, root, 4, page) == 0 && !MapPage(m, root, page, f, flags).1
  {
    FoundMissesNothing(m, root, 4, page);
  }

  lemma {:induction false} FoundMissesNothing(m: Memory, t: nat, level: nat, page: nat)
    requires LeafSlot(m.tables, t, level, page).Some?
    ensures Missing(m, t, level, page) == 0
    ensures EnsurePath(m, t, level, page) == (m, LeafSlot(m.tables, t, level, page).value.table)
    decreases level
  {
    hide Index;
    if level > 1 {
      FoundMissesNothing(m, m.tables[t][Index(level, page)].frame, level - 1, page);
    }
  }

  // The range finds a frame for every table it makes exactly when, at every page before the first
  // that is mapped, the free frames are used up or cover the page and all tables up to it. Both are
  // counted in the memory before the call.
  lemma NourishedIff(m: Memory, labels: map<nat, Label>, root: nat, start: nat, n: nat, flags: nat)
    requires Invariant(m, labels) && IsRoot(labels, root) && FlagWord(flags) % 2 == 1
    ensures Nourished(m, root, start, 0, n, flags) <==> BudgetFrom(m, root, start, 0, n)
  {
    hide Invariant, Nourished, BudgetFrom, FlagWord, Counted;
    CountedStarts(m, labels, root, start);
    NourishedIffFrom(m, labels, m, labels, root, start, 0, n, flags);
  }

  // Frame 0 becomes a page table exactly when that count does not come out.
  lemma AllocRangeUsesNullIff(m: Memory, labels: map<nat, Label>, root: nat, start: nat, n: nat, flags: nat)
    requires Invariant(m, labels) && IsRoot(labels, root) && FlagWord(flags) % 2 == 1
    ensures 0 in AllocRange(m, root, start, n, flags).0.tables <==> !BudgetFrom(m, root, start, 0, n)
  {
    hide Invariant, Nourished, BudgetFrom, FlagWord, AllocRange;
    NourishedIff(m, labels, root, start, n, flags);
    AllocRangeUsesNullIffStarved(m, labels, root, start, n, flags);
  }

  // For one page: frame 0 becomes a table exactly when fewer frames are free than tables are missing.
  lemma MapPageUsesNullIff(m: Memory, labels: map<nat, Label>, root: nat, page: nat, frame: nat, flags: nat)
    requires Invariant(m, labels) && IsRoot(labels, root) && page < PAGES
    ensures 0 in MapPage(m, root, page, frame, flags).0.tables <==> |Free(m)| < |MissingSpots(m, root, 4, page)|
  {
    hide Linked, LeavesOwned, MissingSpots, Missing, Free, EnsurePath, FlagWord, Agree, Index;
    MissingCounted(m, root, 4, page);
    var (m1, t) := EnsurePath(m, root, 4, page);
    if |Free(m)| < Missing(m, root, 4, page) {
      StarvedPath(m, labels, root, 4, page);
      MapPageKeepsTables(m, root, page, frame, flags);
    } else {
      var labels' := EnsurePathCorrect(m, labels, root, 4, page);
      LevelIsSmall(m1, labels', t);
    }
  }

  // ---------- When a range succeeds ----------

  ghost predicate AllFresh(m: Memory, root: nat, start: nat, i: nat, n: nat) {
    forall k :: i <= k < n ==> FreshPage(m, root, start, k)
  }

  lemma {:induction false} NeededMonotone(m: Memory, root: nat, start: nat, i: nat, n: nat)
    requires i <= n
    ensures |Needed(m, root, start, i)| <= |Needed(m, root, start, n)|
    decreases n - i
  {
    hide Needed;
    if i < n {
      NeededGrows(m, root, start, i);
      NeededMonotone(m, root, start, i + 1, n);
    }
  }

  lemma {:induction false} SucceedsIffFrom(m0: Memory, labels0: map<nat, Label>, m: Memory, labels: map<nat, Label>,
                                           root: nat, start: nat, i: nat, n: nat, flags: nat)
    requires Invariant(m0, labels0) && IsRoot(labels0, root) && Counted(m0, m, labels, root, start, i) && FlagWord(flags) % 2 == 1 && i <= n
    requires BudgetFrom(m0, root, start, i, n)
    ensures AllocFrom(m, root, start, i, n, flags).1 == n <==> AllFresh(m0, root, start, i, n) && |Free(m0)| >= n + |Needed(m0, root, start, n)|
    decreases n - i
  {
    hide Invariant, MissingSpots, Walk, Missing, PageAt, Passed, Needed, FlagWord, MapPage, AllocFrame, FreshPage;
    if i < n {
      assert FramesOwned(m) by { Owned(m, labels); }
      AllocFrameTakesOne(m);
      NeededMonotone(m0, root, start, i, n);
      var (m1, f) := AllocFrame(m);
      if Free(m) != {} {
        NotNull(m, labels, f);
        SameTables(m, m1, root, PageAt(start, i));
        MissingNow(m0, labels0, m, labels, root, start, i);
        if FreshPage(m0, root, start, i) {
          var labels' := CountedStep(m0, labels0, m, labels, root, start, i, flags);
          SucceedsIffFrom(m0, labels0, MapPage(m1, root, PageAt(start, i), f, flags).0, labels', root, start, i + 1, n, flags);
        } else {
          NotFreshIsMapped(m0, m, labels, root, start, i);
          MappedMissesNothing(m1, labels, root, PageAt(start, i), f, flags);
        }
      }
    }
  }

  lemma NotNull(m: Memory, labels: map<nat, Label>, f: nat)
    requires Invariant(m, labels) && f in Free(m)
    ensures f != 0
  {
  }

  lemma NotFreshIsMapped(m0: Memory, m: Memory, labels: map<nat, Label>, root: nat, start: nat, i: nat)
    requires Counted(m0, m, labels, root, start, i) && !FreshPage(m0, root, start, i)
    ensures Walk(m, root, PageAt(start, i)).Some?
  {
    hide Invariant, MissingSpots, Walk, Passed, Needed;
  }

  // With frames for its tables, a range is mapped exactly when its pages are unmapped and differ,
  // and a frame is free for each of them and each table they lack.
  lemma AllocRangeSucceedsIff(m: Memory, labels: map<nat, Label>, root: nat, start: nat, n: nat, flags: nat)
    requires Invariant(m, labels) && IsRoot(labels, root) && FlagWord(flags) % 2 == 1 && BudgetFrom(m, root, start, 0, n)
    ensures AllocRange(m, root, start, n, flags).1 <==> AllFresh(m, root, start, 0, n) && |Free(m)| >= n + |Needed(m, root, start, n)|
  {
    hide Invariant, BudgetFrom, FlagWord, Counted, AllFresh, Needed, AllocFrom;
    CountedStarts(m, labels, root, start);
    SucceedsIffFrom(m, labels, m, labels, root, start, 0, n, flags);
  }

  // ---------- What a range can cost ----------

  lemma {:induction false} MissingOnPath(m: Memory, t: nat, level: nat, page: nat)
    requires level <= 4
    ensures MissingSpots(m, t, level, page) <= Path(level, page)
    decreases level
  {
    hide Prefix, Index, Path;
    if level >= 2 {
      PathStep(level, page);
      var e := TableAt(m, t)[Index(level, page)];
      if e.Present() { MissingOnPath(m, e.frame, level - 1, page); }
    }
  }

  lemma {:induction false} NeededPassed(m: Memory, root: nat, start: nat, k: nat)
    ensures Needed(m, root, start, k) <= Passed(start, k)
  {
    hide MissingSpots, Path, PageAt;
    if k > 0 {
      NeededPassed(m, root, start, k - 1);
      MissingOnPath(m, root, 4, PageAt(start, k - 1));
    }
  }

  // One frame for each page of the range and for each table on the way to it.
  ghost function Demand(start: nat, n: nat): nat {
    n + |Passed(start, n)|
  }

  lemma {:induction false} CoveredBudget(m: Memory, root: nat, start: nat, i: nat, n: nat)
    requires i <= n && |Free(m)| >= n + |Needed(m, root, start, n)|
    ensures BudgetFrom(m, root, start, i, n)
    decreases n - i
  {
    hide Needed, Free, FreshPage;
    if i < n {
      NeededMonotone(m, root, start, i + 1, n);
      CoveredBudget(m, root, start, i + 1, n);
    }
  }

  lemma {:induction false} FramesLeft(m0: Memory, labels0: map<nat, Label>, m: Memory, labels: map<nat, Label>,
                                      root: nat, start: nat, i: nat, n: nat, flags: nat)
    requires Invariant(m0, labels0) && IsRoot(labels0, root) && Counted(m0, m, labels, root, start, i) && FlagWord(flags) % 2 == 1 && i <= n
    requires |Free(m0)| >= n + |Needed(m0, root, start, n)|
    ensures |Free(AllocFrom(m, root, start, i, n, flags).0)| >= |Free(m0)| - n - |Needed(m0, root, start, n)|
    decreases n - i
  {
    hide Invariant, MissingSpots, Walk, Missing, PageAt, Passed, Needed, FlagWord, MapPage, AllocFrame, FreshPage;
    NeededMonotone(m0, root, start, i, n);
    if i < n {
      assert FramesOwned(m) by { Owned(m, labels); }
      AllocFrameTakesOne(m);
      var (m1, f) := AllocFrame(m);
      if Free(m) != {} {
        NotNull(m, labels, f);
        SameTables(m, m1, root, PageAt(start, i));
        MissingNow(m0, labels0, m, labels, root, start, i);
        NeededMonotone(m0, root, start, i + 1, n);
        if FreshPage(m0, root, start, i) {
          var labels' := CountedStep(m0, labels0, m, labels, root, start, i, flags);
          FramesLeft(m0, labels0, MapPage(m1, root, PageAt(start, i), f, flags).0, labels', root, start, i + 1, n, flags);
        } else {
          NotFreshIsMapped(m0, m, labels, root, start, i);
          RefusedKeepsFrames(m, m1, labels, root, PageAt(start, i), f, flags);
        }
      }
    }
  }

  // A mapped page is refused, and the frame meant for it given back.
  lemma RefusedKeepsFrames(m: Memory, m1: Memory, labels: map<nat, Label>, root: nat, page: nat, f: nat, flags: nat)
    requires Walk(m1, root, page).Some? && m1 == m.(used := m.used + {f}) && f !in m.used
    ensures var (m2, ok) := MapPage(m1, root, page, f, flags); !ok && Free(m2.(used := m2.used - {f})) == Free(m)
  {
    hide Index;
    FoundMissesNothing(m1, root, 4, page);
    assert MapPage(m1, root, page, f, flags).0.used - {f} == m.used;
  }

  // With that many frames a range never starves, is mapped exactly when its pages are unmapped and
  // differ, and leaves all but that many.
  lemma RangeDemand(m: Memory, labels: map<nat, Label>, root: nat, start: nat, n: nat, flags: nat)
    requires Invariant(m, labels) && IsRoot(labels, root) && FlagWord(flags) % 2 == 1 && |Free(m)| >= Demand(start, n)
    ensures Nourished(m, root, start, 0, n, flags)
    ensures AllocRange(m, root, start, n, flags).1 <==> AllFresh(m, root, start, 0, n)
    ensures |Free(AllocRange(m, root, start, n, flags).0)| >= |Free(m)| - Demand(start, n)
  {
    hide Invariant, BudgetFrom, FlagWord, Counted, AllFresh, Needed, AllocFrom, Free, Passed, Nourished;
    NeededPassed(m, root, start, n);
    Subspots(Needed(m, root, start, n), Passed(start, n));
    CoveredBudget(m, root, start, 0, n);
    NourishedIff(m, labels, root, start, n, flags);
    AllocRangeSucceedsIff(m, labels, root, start, n, flags);
    CountedStarts(m, labels, root, start);
    FramesLeft(m, labels, m, labels, root, start, 0, n, flags);
    var (m1, k) := AllocFrom(m, root, start, 0, n, flags);
    UnmapFromFrees(m1, root, start, 0, k);
    FreeGrows(m1, UnmapFrom(m1, root, start, 0, k));
  }

  // Three frames, one of them free: the page takes it, and the three tables on the way to it are put
  // into frame 0.
  lemma StarvedMemory(flags: nat)
    requires FlagWord(flags) % 2 == 1
    ensures var m := Memory(3, {0, 1}, map[1 := EmptyTable()]);
            && Invariant(m, map[1 := Label(4, Private(1), 0)]) && Space(m, 1) == map[]
            && 0 in AllocRange(m, 1, 0, 1, flags).0.tables
  {
    hide AllocRange, BudgetFrom, Invariant, Space;
    var m := Memory(3, {0, 1}, map[1 := EmptyTable()]);
    FreshMemory(3, {0, 1}, 1);
    OneFrameFree(m);
    AllocRangeUsesNullIff(m, map[1 := Label(4, Private(1), 0)], 1, 0, 1, flags);
  }

  lemma OneFrameFree(m: Memory)
    requires m == Memory(3, {0, 1}, map[1 := EmptyTable()])
    ensures !BudgetFrom(m, 1, 0, 0, 1)
  {
    assert Free(m) == {2};
    PathStep(4, PageAt(0, 0));
  }
}
