/**
 Several address spaces over one memory: what each operation does to the space it is called on,
 and that it leaves the lower half of every other space alone.
 */
module AddressSpaces {
  import opened Options
  import opened PageTables
  import opened Paging
  import opened Ranges

  // A change confined to the slot of one page reaches no other page, and no other lower half.
  lemma SlotConfined(m: Memory, labels: map<nat, Label>, m': Memory, labels': map<nat, Label>,
                     root: nat, page: nat, s: set<Slot>)
    requires Invariant(m, labels) && Invariant(m', labels') && Extends(labels, labels')
    requires IsRoot(labels, root) && page < PAGES && Agree(m, m', labels', s)
    requires forall x :: x in s ==> SlotOf(m', root, page) == Some(x)
    ensures OthersKept(m, m', labels, root, {page})
    ensures s == {} ==> AllKept(m, m', labels)
  {
    forall r, p | IsRoot(labels, r) && 0 <= p < PAGES && (s != {} ==> p in {page} ==> r != root && p < UPPER_HALF)
      ensures Walk(m', r, p) == Walk(m, r, p)
    {
      AgreeWalk(m, labels, m', labels', s, r, p);
      if SlotOf(m', r, p).Some? && SlotOf(m', r, p).value in s {
        WalksMeet(m', labels', root, page, r, p);
        assert false;
      }
    }
  }

  // From the walks of one root to its map of pages.
  lemma SpaceUpdated(m: Memory, m': Memory, labels: map<nat, Label>, root: nat, page: nat)
    requires IsRoot(labels, root) && page < PAGES && OthersKept(m, m', labels, root, {page})
    ensures Walk(m', root, page).Some? ==> Space(m', root) == Space(m, root)[page := Walk(m', root, page).value]
    ensures Walk(m', root, page).None? ==> Space(m', root) == Space(m, root) - {page}
  {
    hide Walk;
    forall p | 0 <= p < PAGES && p != page
      ensures Walk(m', root, p) == Walk(m, root, p)
    {
    }
  }

  lemma SpaceKept(m: Memory, m': Memory, labels: map<nat, Label>, root: nat)
    requires IsRoot(labels, root) && AllKept(m, m', labels)
    ensures Space(m', root) == Space(m, root)
  {
  }

  lemma MapPageSpace(m: Memory, labels: map<nat, Label>, root: nat, page: nat, frame: nat, flags: nat)
    returns (labels': map<nat, Label>)
    requires Invariant(m, labels) && IsRoot(labels, root) && page < PAGES && FlagWord(flags) % 2 == 1
    requires |Free(m)| >= Missing(m, root, 4, page)
    requires Unclaimed(m, frame) && frame !in EnsurePath(m, root, 4, page).0.tables
    ensures var (m', ok) := MapPage(m, root, page, frame, flags);
            && Invariant(m', labels') && Extends(labels, labels') && OthersKept(m, m', labels, root, {page})
            && ok == (page !in Space(m, root))
            && Space(m', root) == (if ok then Space(m, root)[page := Entry(FlagWord(flags), frame)] else Space(m, root))
            && (ok ==> page in Space(m', root) && Carries(Space(m', root)[page].flags, flags)
                       && Granted(m'.tables, root, 4, page) == Some(RightsOf(flags)))
  {
    FlagWordCarries(flags);
    hide Invariant, Agree, MapPage, EnsurePath, Missing, OthersKept, AllKept, LeafSlot, FlagWord, Carries, Granted, RightsOf;
    labels' := MapPageCorrect(m, labels, root, page, frame, flags);
    var (m', ok) := MapPage(m, root, page, frame, flags);
    var s := SlotOf(m', root, page).value;
    SlotConfined(m, labels, m', labels', root, page, if ok then {s} else {});
    if ok {
      SpaceUpdated(m, m', labels, root, page);
      GrantedIsLeaf(m', labels', root, page);
      CarriesRights(FlagWord(flags), flags);
    } else {
      SpaceKept(m, m', labels, root);
    }
  }

  lemma UnmapPageSpace(m: Memory, labels: map<nat, Label>, root: nat, page: nat)
    requires Invariant(m, labels) && IsRoot(labels, root) && page < PAGES
    ensures var (m', ok) := UnmapPage(m, root, page);
            && Invariant(m', labels) && OthersKept(m, m', labels, root, {page})
            && ok == (page in Space(m, root))
            && Space(m', root) == Space(m, root) - {page}
            && m'.used == (if ok then m.used - {Space(m, root)[page].frame} else m.used)
            && m'.tables.Keys == m.tables.Keys
  {
    hide Invariant, Agree, UnmapPage, LeafSlot;
    UnmapPageCorrect(m, labels, root, page);
    var (m', ok) := UnmapPage(m, root, page);
    if ok {
      SlotConfined(m, labels, m', labels, root, page, {SlotOf(m', root, page).value});
    }
    SpaceUpdated(m, m', labels, root, page);
  }

  lemma EditPageSpace(m: Memory, labels: map<nat, Label>, root: nat, page: nat, phys: nat, flags: nat)
    requires Invariant(m, labels) && IsRoot(labels, root) && page < PAGES && (flags == 0 || FlagWord(flags) % 2 == 1)
    requires phys != 0 ==> Unclaimed(m, phys / PAGE_SIZE) ||
                           (Walk(m, root, page).Some? && Walk(m, root, page).value.frame == phys / PAGE_SIZE)
    ensures var (m', ok) := EditPage(m, root, page, phys, flags);
            && Invariant(m', labels) && OthersKept(m, m', labels, root, {page})
            && ok == (page in Space(m, root))
            && (if ok then
                  var e := Space(m, root)[page];
                  Space(m', root) == Space(m, root)[page := Entry(if flags != 0 then FlagWord(flags) else e.flags,
                                                                  if phys != 0 then phys / PAGE_SIZE else e.frame)]
                else m' == m)
            && (ok && flags != 0 ==> page in Space(m', root) && Carries(Space(m', root)[page].flags, flags)
                                     && Granted(m'.tables, root, 4, page) == Some(RightsOf(flags)))
            && (ok ==> m'.used == if phys != 0 then m.used - {Space(m, root)[page].frame} + {phys / PAGE_SIZE} else m.used)
  {
    FlagWordCarries(flags);
    hide Invariant, Agree, EditPage, LeafSlot, FlagWord, Unclaimed, Carries, Granted, RightsOf;
    EditPageCorrect(m, labels, root, page, phys, flags);
    var (m', ok) := EditPage(m, root, page, phys, flags);
    if ok {
      SlotConfined(m, labels, m', labels, root, page, {SlotOf(m', root, page).value});
      SpaceUpdated(m, m', labels, root, page);
      GrantedIsLeaf(m', labels, root, page);
      CarriesRights(FlagWord(flags), flags);
    }
  }

  // ---------- New spaces and the shared half ----------

  function CreateRoot(m: Memory): (r: (Memory, nat)) {
    var (m1, f) := AllocFrame(m);
    (m1.(tables := m1.tables[f := EmptyTable()]), f)
  }

  function CopyUpperHalf(m: Memory, to: nat, from: nat): (m': Memory)
    requires to in m.tables && from in m.tables
  {
    m.(tables := m.tables[to := m.tables[to][..256] + m.tables[from][256..]])
  }

  // A new root maps nothing and disturbs no other space.
  lemma CreateRootCorrect(m: Memory, labels: map<nat, Label>) returns (labels': map<nat, Label>)
    requires Invariant(m, labels) && Free(m) != {}
    ensures var (m', root) := CreateRoot(m);
            && Invariant(m', labels') && Extends(labels, labels') && IsRoot(labels', root) && root !in labels
            && Space(m', root) == map[] && AllKept(m, m', labels)
  {
    AllocFrameTakesOne(m);
    var (m', root) := CreateRoot(m);
    labels' := labels[root := Label(4, Private(root), 0)];
    forall u: nat, j: nat | Leaf(m', labels', u, j)
      ensures Leaf(m, labels, u, j) && m'.tables[u][j] == m.tables[u][j]
    {
    }
    forall u: nat, j: nat | Branch(m', labels', u, j)
      ensures Branch(m, labels, u, j) && m'.tables[u][j] == m.tables[u][j]
    {
    }
    assert Agree(m, m', labels', {});
    forall r, p | IsRoot(labels, r) && 0 <= p < PAGES
      ensures Walk(m', r, p) == Walk(m, r, p)
    {
      AgreeWalk(m, labels, m', labels', {}, r, p);
    }
  }

  // Below the roots a walk meets no root.
  lemma {:induction false} BelowRoots(m: Memory, labels: map<nat, Label>, m': Memory, to: nat,
                                      t: nat, level: nat, page: nat)
    requires Labelled(m, labels) && Linked(m, labels) && IsRoot(labels, to) && level < 4
    requires m'.tables.Keys == m.tables.Keys && forall u :: u in m.tables && u != to ==> m'.tables[u] == m.tables[u]
    requires t in labels && labels[t].level == level
    ensures LeafSlot(m'.tables, t, level, page) == LeafSlot(m.tables, t, level, page)
    ensures var s := LeafSlot(m.tables, t, level, page); s.Some? ==> s.value.table != to
    decreases level
  {
  }

  lemma CopyWalk(m: Memory, labels: map<nat, Label>, to: nat, from: nat, r: nat, page: nat)
    requires Invariant(m, labels) && IsRoot(labels, to) && IsRoot(labels, from) && IsRoot(labels, r) && page < PAGES
    ensures Walk(CopyUpperHalf(m, to, from), r, page) ==
            Walk(m, if r == to && page >= UPPER_HALF then from else r, page)
  {
    var m' := CopyUpperHalf(m, to, from);
    var src := if r == to && page >= UPPER_HALF then from else r;
    var i := Index(4, page);
    assert m'.tables[r][i] == m.tables[src][i];
    if m.tables[src][i].Present() {
      assert Branch(m, labels, src, i);
      BelowRoots(m, labels, m', to, m.tables[src][i].frame, 3, page);
    }
  }

  lemma CopyUpperHalfInvariant(m: Memory, labels: map<nat, Label>, to: nat, from: nat)
    requires Invariant(m, labels) && IsRoot(labels, to) && IsRoot(labels, from)
    ensures Invariant(CopyUpperHalf(m, to, from), labels)
  {
  }

  // ---------- Ranges ----------

  lemma OthersKeptTransitive(m0: Memory, m1: Memory, m2: Memory, labels0: map<nat, Label>, labels1: map<nat, Label>,
                             root: nat, pages1: set<nat>, pages2: set<nat>, pages: set<nat>)
    requires Extends(labels0, labels1) && pages1 <= pages && pages2 <= pages
    requires OthersKept(m0, m1, labels0, root, pages1) && OthersKept(m1, m2, labels1, root, pages2)
    ensures OthersKept(m0, m2, labels0, root, pages)
  {
  }

  ghost function RestOfRange(start: nat, i: nat, n: nat): set<nat> {
    set k | i <= k < n :: PageAt(start, k)
  }

  lemma RestSplits(start: nat, i: nat, n: nat)
    requires i < n
    ensures RestOfRange(start, i, n) == {PageAt(start, i)} + RestOfRange(start, i + 1, n)
  {
  }

  // vmm_free empties the range and nothing else.
  lemma {:induction false} UnmapFromSpace(m: Memory, labels: map<nat, Label>, root: nat, start: nat, i: nat, n: nat)
    requires Invariant(m, labels) && IsRoot(labels, root) && i <= n
    ensures var m' := UnmapFrom(m, root, start, i, n);
            && Invariant(m', labels) && OthersKept(m, m', labels, root, RestOfRange(start, i, n))
            && Space(m', root) == Space(m, root) - RestOfRange(start, i, n)
            && m'.tables.Keys == m.tables.Keys && m'.used <= m.used
    decreases n - i
  {
    hide Invariant, UnmapPage, Space, Walk, PageAt;
    if i == n {
      assert RestOfRange(start, i, n) == {};
      return;
    }
    hide OthersKept, RestOfRange;
    var page := PageAt(start, i);
    UnmapPageSpace(m, labels, root, page);
    var m1 := UnmapPage(m, root, page).0;
    UnmapFromSpace(m1, labels, root, start, i + 1, n);
    RestSplits(start, i, n);
    OthersKeptTransitive(m, m1, UnmapFrom(m1, root, start, i + 1, n), labels, labels, root,
                         {page}, RestOfRange(start, i + 1, n), RestOfRange(start, i, n));
  }

  // Re-flagging keeps every frame: the flags of mapped pages in the range change, nothing else.
  ghost function Reflagged(space: map<nat, Entry>, pages: set<nat>, flags: nat): map<nat, Entry> {
    map p | p in space :: if p in pages then space[p].(flags := FlagWord(flags)) else space[p]
  }

  lemma {:induction false} EditFromSpace(m: Memory, labels: map<nat, Label>, root: nat, start: nat, i: nat, n: nat, flags: nat)
    requires Invariant(m, labels) && IsRoot(labels, root) && i <= n && FlagWord(flags) % 2 == 1 && flags != 0
    ensures var (m', ok) := EditFrom(m, root, start, i, n, flags);
            && Invariant(m', labels) && OthersKept(m, m', labels, root, RestOfRange(start, i, n))
            && Space(m', root) == Reflagged(Space(m, root), RestOfRange(start, i, n), flags)
            && ok == (RestOfRange(start, i, n) <= Space(m, root).Keys)
            && (forall p :: p in RestOfRange(start, i, n) && p in Space(m', root) ==> Carries(Space(m', root)[p].flags, flags))
            && m'.tables.Keys == m.tables.Keys && m'.used == m.used
    decreases n - i
  {
    FlagWordCarries(flags);
    hide Invariant, EditPage, Space, Walk, PageAt, FlagWord, Carries;
    if i == n {
      assert RestOfRange(start, i, n) == {};
      return;
    }
    hide OthersKept, RestOfRange;
    var page := PageAt(start, i);
    EditPageSpace(m, labels, root, page, 0, flags);
    EditKeepsFrames(m, labels, root, page, flags);
    var m1 := EditPage(m, root, page, 0, flags).0;
    EditFromSpace(m1, labels, root, start, i + 1, n, flags);
    RestSplits(start, i, n);
    OthersKeptTransitive(m, m1, EditFrom(m1, root, start, i + 1, n, flags).0, labels, labels, root,
                         {page}, RestOfRange(start, i + 1, n), RestOfRange(start, i, n));
  }

  lemma EditKeepsFrames(m: Memory, labels: map<nat, Label>, root: nat, page: nat, flags: nat)
    ensures var m' := EditPage(m, root, page, 0, flags).0; m'.used == m.used && m'.tables.Keys == m.tables.Keys
  {
  }

  // ---------- Runs over all address spaces ----------

  datatype System = System(m: Memory, roots: set<nat>, kernel: nat)

  // `Load` is what a scheduler tick does to the tables of the process it selects.
  datatype Op =
    | Create
    | Load(root: nat)
    | Map(root: nat, page: nat, frame: nat, flags: nat)
    | Edit(root: nat, page: nat, phys: nat, flags: nat)
    | Unmap(root: nat, page: nat)
    | Alloc(root: nat, start: nat, n: nat, flags: nat)
    | Release(root: nat, start: nat, n: nat)
    | Reflag(root: nat, start: nat, n: nat, flags: nat)

  ghost predicate Valid(s: System, labels: map<nat, Label>) {
    Invariant(s.m, labels) && s.kernel in s.roots && forall r :: r in s.roots ==> IsRoot(labels, r)
  }

  // What the callers in the kernel respect: known roots, present flag words, frames that are
  // nobody else's, and enough free frames for intermediate tables.
  ghost predicate Enabled(s: System, op: Op) {
    && (!op.Create? ==> op.root in s.roots)
    && match op
       case Create => Free(s.m) != {}
       case Load(_) => s.kernel in s.m.tables && op.root in s.m.tables
       case Map(root, page, frame, flags) =>
         && page < PAGES && FlagWord(flags) % 2 == 1 && |Free(s.m)| >= Missing(s.m, root, 4, page)
         && Unclaimed(s.m, frame) && frame !in EnsurePath(s.m, root, 4, page).0.tables
       case Edit(root, page, phys, flags) =>
         && page < PAGES && (flags == 0 || FlagWord(flags) % 2 == 1)
         && (phys != 0 ==> Unclaimed(s.m, phys / PAGE_SIZE) ||
                           (Walk(s.m, root, page).Some? && Walk(s.m, root, page).value.frame == phys / PAGE_SIZE))
       case Unmap(_, page) => page < PAGES
       case Alloc(root, start, n, flags) => FlagWord(flags) % 2 == 1 && Nourished(s.m, root, start, 0, n, flags)
       case Release(_, _, _) => true
       case Reflag(_, _, _, flags) => FlagWord(flags) % 2 == 1 && flags != 0
  }

  ghost function Exec(s: System, op: Op): System
    requires Enabled(s, op)
  {
    match op
    case Create => var (m', r) := CreateRoot(s.m); s.(m := m', roots := s.roots + {r})
    case Load(root) => s.(m := CopyUpperHalf(s.m, root, s.kernel))
    case Map(root, page, frame, flags) => s.(m := MapPage(s.m, root, page, frame, flags).0)
    case Edit(root, page, phys, flags) => s.(m := EditPage(s.m, root, page, phys, flags).0)
    case Unmap(root, page) => s.(m := UnmapPage(s.m, root, page).0)
    case Alloc(root, start, n, flags) => s.(m := AllocRange(s.m, root, start, n, flags).0)
    case Release(root, start, n) => s.(m := UnmapFrom(s.m, root, start, 0, n))
    case Reflag(root, start, n, flags) => s.(m := EditFrom(s.m, root, start, 0, n, flags).0)
  }

  ghost predicate LowerKept(m: Memory, m': Memory, r: nat) {
    forall p :: 0 <= p < UPPER_HALF ==> Walk(m', r, p) == Walk(m, r, p)
  }

  ghost predicate UpperLike(m: Memory, r: nat, m0: Memory, r0: nat) {
    forall p :: UPPER_HALF <= p < PAGES ==> Walk(m, r, p) == Walk(m0, r0, p)
  }

  lemma KeptFromOthers(m: Memory, m': Memory, labels: map<nat, Label>, root: nat, pages: set<nat>, r: nat)
    requires OthersKept(m, m', labels, root, pages) && IsRoot(labels, r) && r != root
    ensures LowerKept(m, m', r)
  {
  }

  lemma KeptFromAll(m: Memory, m': Memory, labels: map<nat, Label>, r: nat)
    requires AllKept(m, m', labels) && IsRoot(labels, r)
    ensures LowerKept(m, m', r)
  {
  }

  // One operation: the tables stay a forest, and only the space operated on changes its lower half.
  lemma StepIsolated(s: System, labels: map<nat, Label>, op: Op, r: nat) returns (labels': map<nat, Label>)
    requires Valid(s, labels) && Enabled(s, op) && r in s.roots
    ensures Valid(Exec(s, op), labels') && Exec(s, op).roots >= s.roots
    ensures op.Create? || op.Load? || op.root != r ==> LowerKept(s.m, Exec(s, op).m, r)
    ensures op.Load? ==> UpperLike(Exec(s, op).m, op.root, Exec(s, op).m, s.kernel)
    ensures op.Load? ==> UpperLike(Exec(s, op).m, s.kernel, s.m, s.kernel)
  {
    hide Invariant, OthersKept, AllKept, LowerKept, Walk, Space, MapPage, EditPage, UnmapPage, AllocRange, UnmapFrom,
      EditFrom, CreateRoot, CopyUpperHalf, Missing, EnsurePath, Unclaimed, Nourished, FlagWord, PageAt;
    var m, m' := s.m, Exec(s, op).m;
    labels' := labels;
    match op
    case Create =>
      labels' := CreateRootCorrect(m, labels);
      KeptFromAll(m, m', labels, r);
    case Load(root) =>
      CopyUpperHalfInvariant(m, labels, root, s.kernel);
      LoadWalks(m, labels, root, s.kernel, r);
    case Map(root, page, frame, flags) =>
      labels' := MapPageSpace(m, labels, root, page, frame, flags);
      if root != r { KeptFromOthers(m, m', labels, root, {page}, r); }
    case Edit(root, page, phys, flags) =>
      EditPageSpace(m, labels, root, page, phys, flags);
      if root != r { KeptFromOthers(m, m', labels, root, {page}, r); }
    case Unmap(root, page) =>
      UnmapPageSpace(m, labels, root, page);
      if root != r { KeptFromOthers(m, m', labels, root, {page}, r); }
    case Alloc(root, start, n, flags) =>
      var frames;
      labels', frames := AllocRangeAllOrNothing(m, labels, root, start, n, flags);
      if root != r {
        if AllocRange(m, root, start, n, flags).1 { KeptFromOthers(m, m', labels, root, RangePages(start, n), r); }
        else { KeptFromAll(m, m', labels, r); }
      }
    case Release(root, start, n) =>
      UnmapFromSpace(m, labels, root, start, 0, n);
      if root != r { KeptFromOthers(m, m', labels, root, RestOfRange(start, 0, n), r); }
    case Reflag(root, start, n, flags) =>
      EditFromSpace(m, labels, root, start, 0, n, flags);
      if root != r { KeptFromOthers(m, m', labels, root, RestOfRange(start, 0, n), r); }
  }

  lemma LoadWalks(m: Memory, labels: map<nat, Label>, root: nat, kernel: nat, r: nat)
    requires Invariant(m, labels) && IsRoot(labels, root) && IsRoot(labels, kernel) && IsRoot(labels, r)
    ensures var m' := CopyUpperHalf(m, root, kernel);
            LowerKept(m, m', r) && UpperLike(m', root, m', kernel) && UpperLike(m', kernel, m, kernel)
  {
    var m' := CopyUpperHalf(m, root, kernel);
    forall p | 0 <= p < PAGES
      ensures p < UPPER_HALF ==> Walk(m', r, p) == Walk(m, r, p)
      ensures p >= UPPER_HALF ==> Walk(m', root, p) == Walk(m', kernel, p) == Walk(m, kernel, p)
    {
      CopyWalk(m, labels, root, kernel, r, p);
      CopyWalk(m, labels, root, kernel, root, p);
      CopyWalk(m, labels, root, kernel, kernel, p);
    }
  }

  ghost predicate EnabledRun(s: System, ops: seq<Op>)
    decreases |ops|
  {
    ops != [] ==> Enabled(s, ops[0]) && EnabledRun(Exec(s, ops[0]), ops[1..])
  }

  ghost function ExecRun(s: System, ops: seq<Op>): System
    requires EnabledRun(s, ops)
    decreases |ops|
  {
    if ops == [] then s else ExecRun(Exec(s, ops[0]), ops[1..])
  }
}
