/**
 Runs of page operations and scheduler ticks over several address spaces: what each space holds at
 the end is a fold of map updates, and the space of the running process has the kernel's upper half.
 */
module SpaceRuns {
  import opened PageTables
  import opened Paging
  import opened Ranges
  import opened AddressSpaces
  import RoundRobin

  // ---------- The meaning of an operation ----------

  // The half of a space that is its own.
  ghost function Low(space: map<nat, Entry>): map<nat, Entry> {
    map p | p in space && p < UPPER_HALF :: space[p]
  }

  ghost function Put(low: map<nat, Entry>, page: nat, e: Entry): map<nat, Entry> {
    if page < UPPER_HALF then low[page := e] else low
  }

  // The first k pages of a range on their frames.
  ghost function Filled(low: map<nat, Entry>, start: nat, flags: nat, frames: seq<nat>, k: nat): map<nat, Entry>
    requires k <= |frames|
  {
    if k == 0 then low
    else Put(Filled(low, start, flags, frames, k - 1), PageAt(start, k - 1), Entry(FlagWord(flags), frames[k - 1]))
  }

  // What an operation does to the space r, as an update of a map; `frames` is what a range was given.
  ghost function Meaning(low: map<nat, Entry>, op: Op, r: nat, frames: seq<nat>): map<nat, Entry> {
    match op
    case Create => low
    case Load(_) => low
    case Map(root, page, frame, flags) => if root == r && page !in low then Put(low, page, Entry(FlagWord(flags), frame)) else low
    case Edit(root, page, phys, flags) =>
      if root == r && page in low then
        low[page := Entry(if flags != 0 then FlagWord(flags) else low[page].flags, if phys != 0 then phys / PAGE_SIZE else low[page].frame)]
      else low
    case Unmap(root, page) => if root == r then low - {page} else low
    case Alloc(root, start, n, flags) => if root == r then Filled(low, start, flags, frames, |frames|) else low
    case Release(root, start, n) => if root == r then low - RestOfRange(start, 0, n) else low
    case Reflag(root, start, n, flags) => if root == r then Reflagged(low, RestOfRange(start, 0, n), flags) else low
  }

  lemma LowKept(m: Memory, m': Memory, r: nat)
    requires LowerKept(m, m', r)
    ensures Low(Space(m', r)) == Low(Space(m, r))
  {
  }

  lemma LowPut(space: map<nat, Entry>, page: nat, e: Entry)
    ensures Low(space[page := e]) == Put(Low(space), page, e)
  {
  }

  lemma LowMinus(space: map<nat, Entry>, pages: set<nat>)
    ensures Low(space - pages) == Low(space) - pages
  {
  }

  lemma LowReflagged(space: map<nat, Entry>, pages: set<nat>, flags: nat)
    ensures Low(Reflagged(space, pages, flags)) == Reflagged(Low(space), pages, flags)
  {
  }

  // The pages of a filled range, and what they are on.
  lemma {:induction false} FilledAt(low: map<nat, Entry>, start: nat, flags: nat, frames: seq<nat>, k: nat, p: nat)
    requires k <= |frames|
    requires forall i, j :: 0 <= i < j < |frames| ==> PageAt(start, i) != PageAt(start, j)
    ensures p !in RangePages(start, k) ==> (p in Filled(low, start, flags, frames, k) <==> p in low)
    ensures p !in RangePages(start, k) && p in low ==> Filled(low, start, flags, frames, k)[p] == low[p]
    ensures forall i :: 0 <= i < k && p == PageAt(start, i) && p < UPPER_HALF ==>
                          p in Filled(low, start, flags, frames, k) && Filled(low, start, flags, frames, k)[p] == Entry(FlagWord(flags), frames[i])
    ensures p >= UPPER_HALF ==> (p in Filled(low, start, flags, frames, k) <==> p in low)
  {
    hide PageAt, FlagWord;
    if k > 0 {
      FilledAt(low, start, flags, frames, k - 1, p);
      assert PageAt(start, k - 1) in RangePages(start, k);
      assert forall q :: q in RangePages(start, k - 1) ==> q in RangePages(start, k);
      assert p !in RangePages(start, k) ==> p != PageAt(start, k - 1);
    }
  }

  lemma BackedApart(m: Memory, m': Memory, root: nat, start: nat, flags: nat, frames: seq<nat>)
    requires Backed(m, m', root, start, flags, frames)
    ensures forall i, j :: 0 <= i < j < |frames| ==> PageAt(start, i) != PageAt(start, j)
  {
    hide PageAt, Walk, FlagWord, Free;
  }

  lemma RangeMeaning(m: Memory, m': Memory, labels: map<nat, Label>, root: nat, start: nat, flags: nat, frames: seq<nat>)
    requires IsRoot(labels, root) && Backed(m, m', root, start, flags, frames)
    requires OthersKept(m, m', labels, root, RangePages(start, |frames|))
    ensures Low(Space(m', root)) == Filled(Low(Space(m, root)), start, flags, frames, |frames|)
  {
    hide PageAt, Walk, FlagWord, Free, RangePages, Filled;
    var low, low', filled := Low(Space(m, root)), Low(Space(m', root)), Filled(Low(Space(m, root)), start, flags, frames, |frames|);
    BackedApart(m, m', root, start, flags, frames);
    forall p: nat
      ensures p in low' <==> p in filled
      ensures p in low' && p in filled ==> low'[p] == filled[p]
    {
      FilledAt(low, start, flags, frames, |frames|, p);
      if p in RangePages(start, |frames|) {
        var i := InRange(start, |frames|, p);
      }
    }
  }

  lemma BackedServes(m: Memory, m': Memory, root: nat, start: nat, flags: nat, frames: seq<nat>)
    requires Backed(m, m', root, start, flags, frames)
    ensures Distinct(frames) && forall f :: f in frames ==> f in Free(m)
  {
    hide Walk, PageAt, FlagWord, Free;
  }

  lemma InRange(start: nat, n: nat, p: nat) returns (i: nat)
    requires p in RangePages(start, n)
    ensures i < n && p == PageAt(start, i) < PAGES
  {
    i :| 0 <= i < n && p == PageAt(start, i);
  }

  // A range is given one frame a page, or nothing; the frames are different ones and were free.
  ghost predicate Served(s: System, op: Op, frames: seq<nat>) {
    (op.Alloc? ==> |frames| == op.n || frames == []) && Distinct(frames) && forall f :: f in frames ==> f in Free(s.m)
  }

  // One operation on the tables is one update of the map.
  lemma StepMeaning(s: System, labels: map<nat, Label>, op: Op, r: nat) returns (frames: seq<nat>)
    requires Valid(s, labels) && Enabled(s, op) && r in s.roots
    ensures Low(Space(Exec(s, op).m, r)) == Meaning(Low(Space(s.m, r)), op, r, frames)
    ensures Served(s, op, frames)
  {
    hide Invariant, OthersKept, AllKept, LowerKept, Walk, Space, MapPage, EditPage, UnmapPage, AllocRange, UnmapFrom,
      EditFrom, CreateRoot, CopyUpperHalf, Missing, EnsurePath, Unclaimed, Nourished, FlagWord, PageAt, Low, RestOfRange, Reflagged, Filled, Free, Backed;
    var m, m' := s.m, Exec(s, op).m;
    frames := [];
    if op.Create? || op.Load? || op.root != r {
      var _ := StepIsolated(s, labels, op, r);
      LowKept(m, m', r);
      return;
    }
    match op
    case Map(_, page, frame, flags) =>
      var _ := MapPageSpace(m, labels, r, page, frame, flags);
      LowPut(Space(m, r), page, Entry(FlagWord(flags), frame));
      PutAbsent(Space(m, r), page, Entry(FlagWord(flags), frame));
    case Edit(_, page, phys, flags) =>
      EditPageSpace(m, labels, r, page, phys, flags);
      EditMeaning(Space(m, r), Space(m', r), page, phys, flags);
    case Unmap(_, page) =>
      UnmapPageSpace(m, labels, r, page);
      LowMinus(Space(m, r), {page});
    case Alloc(_, start, n, flags) =>
      var _, given := AllocRangeAllOrNothing(m, labels, r, start, n, flags);
      if AllocRange(m, r, start, n, flags).1 {
        frames := given;
        BackedServes(m, m', r, start, flags, frames);
        RangeMeaning(m, m', labels, r, start, flags, frames);
      } else {
        SpaceKept(m, m', labels, r);
        FilledNone(Low(Space(m, r)), start, flags);
      }
    case Release(_, start, n) =>
      UnmapFromSpace(m, labels, r, start, 0, n);
      LowMinus(Space(m, r), RestOfRange(start, 0, n));
    case Reflag(_, start, n, flags) =>
      EditFromSpace(m, labels, r, start, 0, n, flags);
      LowReflagged(Space(m, r), RestOfRange(start, 0, n), flags);
  }

  lemma PutAbsent(space: map<nat, Entry>, page: nat, e: Entry)
    ensures page in Low(space) ==> page in space
    ensures page !in Low(space) && page in space ==> Put(Low(space), page, e) == Low(space)
  {
  }

  lemma FilledNone(low: map<nat, Entry>, start: nat, flags: nat)
    ensures Filled(low, start, flags, [], 0) == low
  {
  }

  lemma EditMeaning(space: map<nat, Entry>, space': map<nat, Entry>, page: nat, phys: nat, flags: nat)
    requires space' == if page in space then
                         space[page := Entry(if flags != 0 then FlagWord(flags) else space[page].flags,
                                             if phys != 0 then phys / PAGE_SIZE else space[page].frame)]
                       else space
    ensures Low(space') == if page in Low(space) then
                             Low(space)[page := Entry(if flags != 0 then FlagWord(flags) else Low(space)[page].flags,
                                                      if phys != 0 then phys / PAGE_SIZE else Low(space)[page].frame)]
                           else Low(space)
  {
    hide FlagWord;
  }

  // ---------- Runs ----------

  ghost function Folded(low: map<nat, Entry>, ops: seq<Op>, r: nat, given: seq<seq<nat>>): map<nat, Entry>
    requires |given| == |ops|
    decreases |ops|
  {
    if ops == [] then low else Folded(Meaning(low, ops[0], r, given[0]), ops[1..], r, given[1..])
  }

  // Every range of the run was given frames that were free when it was asked for.
  ghost predicate AllServed(s: System, ops: seq<Op>, given: seq<seq<nat>>)
    requires EnabledRun(s, ops) && |given| == |ops|
    decreases |ops|
  {
    ops != [] ==> Served(s, ops[0], given[0]) && AllServed(Exec(s, ops[0]), ops[1..], given[1..])
  }

  // After any run, what a space holds is the fold of the updates its operations mean.
  lemma {:induction false} RunIsFold(s: System, labels: map<nat, Label>, ops: seq<Op>, r: nat) returns (given: seq<seq<nat>>)
    requires Valid(s, labels) && EnabledRun(s, ops) && r in s.roots
    ensures |given| == |ops| && AllServed(s, ops, given)
    ensures Low(Space(ExecRun(s, ops).m, r)) == Folded(Low(Space(s.m, r)), ops, r, given)
    decreases |ops|
  {
    hide Valid, Enabled, Exec, Walk, Low, Space, Meaning, Served;
    given := [];
    if ops != [] {
      var frames := StepMeaning(s, labels, ops[0], r);
      var labels1 := StepIsolated(s, labels, ops[0], r);
      var rest := RunIsFold(Exec(s, ops[0]), labels1, ops[1..], r);
      given := [frames] + rest;
      assert given[1..] == rest;
    }
  }

  // ---------- Ticks ----------

  // The page tables, the scheduler's ring and pid counter, and the top-level table of each process.
  datatype Machine = Machine(system: System, ring: seq<RoundRobin.Proc>, highest: nat, tables: map<nat, nat>)

  datatype Event =
    | Page(op: Op)
    | Tick(frame: RoundRobin.Frame)
    | Spawn(frame: RoundRobin.Frame, root: nat)
    | Signal(pid: nat, signals: bv32)

  ghost predicate Tabled(ring: seq<RoundRobin.Proc>, tables: map<nat, nat>, roots: set<nat>) {
    forall p :: p in ring ==> p.pid in tables && tables[p.pid] in roots
  }

  ghost predicate Bounded(ring: seq<RoundRobin.Proc>, highest: nat) {
    forall p :: p in ring ==> p.pid <= highest
  }

  ghost predicate Sane(w: Machine, labels: map<nat, Label>) {
    && Valid(w.system, labels) && RoundRobin.Ring(w.ring) && Tabled(w.ring, w.tables, w.system.roots)
    && Bounded(w.ring, w.highest)
  }

  // The table of the process at the head of the ring.
  ghost function Running(w: Machine): nat {
    if |w.ring| > 0 && w.ring[0].pid in w.tables then w.tables[w.ring[0].pid] else w.system.kernel
  }

  ghost predicate Possible(w: Machine, e: Event) {
    RoundRobin.Ring(w.ring) && match e
                               case Page(op) => Enabled(w.system, op)
                               case Tick(frame) => Enabled(w.system, Load(Running(w.(ring := RoundRobin.Tick(w.ring, frame)))))
                               case Spawn(_, root) => root in w.system.roots && w.highest + 1 < RoundRobin.PID_LIMIT
                               case Signal(_, _) => true
  }

  // A tick selects the next process and gives its table the kernel's upper half.
  ghost function Step(w: Machine, e: Event): Machine
    requires Possible(w, e)
  {
    match e
    case Page(op) => w.(system := Exec(w.system, op))
    case Tick(frame) =>
      var w1 := w.(ring := RoundRobin.Tick(w.ring, frame));
      w1.(system := Exec(w.system, Load(Running(w1))))
    case Spawn(frame, root) =>
      var pid := RoundRobin.NextPid(w.highest);
      w.(ring := RoundRobin.Add(w.ring, pid, frame), highest := pid, tables := w.tables[pid := root])
    case Signal(pid, signals) => w.(ring := RoundRobin.Send(w.ring, pid, signals))
  }

  lemma TickKeepsTables(ring: seq<RoundRobin.Proc>, frame: RoundRobin.Frame, tables: map<nat, nat>, roots: set<nat>, highest: nat)
    requires RoundRobin.Ring(ring) && Tabled(ring, tables, roots) && Bounded(ring, highest)
    ensures Tabled(RoundRobin.Tick(ring, frame), tables, roots) && |RoundRobin.Tick(ring, frame)| > 0
    ensures Bounded(RoundRobin.Tick(ring, frame), highest)
  {
    hide RoundRobin.Select, RoundRobin.Doomed;
    var saved := ring[0 := ring[0].(regs := frame)];
    RoundRobin.SaveKeepsRing(ring, frame);
    var chosen := RoundRobin.SelectEffect(saved);
    var t := RoundRobin.Tick(ring, frame);
    assert t == [t[0]] + t[1..];
    forall p | p in saved
      ensures p.pid in tables && tables[p.pid] in roots && p.pid <= highest
    {
      var i :| 0 <= i < |saved| && saved[i] == p;
      assert ring[i] in ring;
    }
  }

  // A new process stands behind the current one, with its table.
  lemma SpawnKeepsTables(w: Machine, labels: map<nat, Label>, frame: RoundRobin.Frame, root: nat)
    requires Sane(w, labels) && Possible(w, Spawn(frame, root))
    ensures Sane(Step(w, Spawn(frame, root)), labels) && Step(w, Spawn(frame, root)).system == w.system
  {
    hide Valid, RoundRobin.Ring;
    RoundRobin.AddKeepsRingIff(w.ring, w.highest, frame);
    RingStarts(w.ring);
    var r, a := w.ring, RoundRobin.Add(w.ring, w.highest + 1, frame);
    assert forall p :: p in a ==> p in r || p == RoundRobin.Proc(w.highest + 1, frame, 0);
  }

  lemma RingStarts(r: seq<RoundRobin.Proc>)
    requires RoundRobin.Ring(r)
    ensures |r| > 0
  {
  }

  lemma SignalKeepsTables(w: Machine, labels: map<nat, Label>, pid: nat, signals: bv32)
    requires Sane(w, labels)
    ensures Sane(Step(w, Signal(pid, signals)), labels) && Step(w, Signal(pid, signals)).system == w.system
  {
    hide Valid, RoundRobin.Ring;
    RoundRobin.SendKeepsRing(w.ring, pid, signals);
    var r, t := w.ring, RoundRobin.Send(w.ring, pid, signals);
    forall p | p in t
      ensures p.pid in w.tables && w.tables[p.pid] in w.system.roots && p.pid <= w.highest
    {
      var i :| 0 <= i < |t| && t[i] == p;
      assert r[i] in r && r[i].pid == p.pid;
    }
  }

  // A tick is always possible.
  lemma TickPossible(w: Machine, labels: map<nat, Label>, frame: RoundRobin.Frame)
    requires Sane(w, labels)
    ensures Possible(w, Tick(frame))
    ensures Tabled(RoundRobin.Tick(w.ring, frame), w.tables, w.system.roots) && Bounded(RoundRobin.Tick(w.ring, frame), w.highest)
  {
    hide RoundRobin.Tick, Linked, LeavesOwned, FramesOwned, RoundRobin.Ring;
    TickKeepsTables(w.ring, frame, w.tables, w.system.roots, w.highest);
    var t := RoundRobin.Tick(w.ring, frame);
    assert t[0] in t;
  }

  // One event: the forest of tables stays one, every process keeps a table, a tick loads the kernel's
  // upper half into the table of the process it selects, and only a page operation on a space
  // changes its lower half.
  lemma StepSane(w: Machine, labels: map<nat, Label>, e: Event, r: nat) returns (labels': map<nat, Label>)
    requires Sane(w, labels) && Possible(w, e) && r in w.system.roots
    ensures Sane(Step(w, e), labels') && Step(w, e).system.roots >= w.system.roots
    ensures e.Tick? ==> UpperLike(Step(w, e).system.m, Running(Step(w, e)), Step(w, e).system.m, Step(w, e).system.kernel)
    ensures !e.Page? || e.op.Create? || e.op.Load? || e.op.root != r ==> LowerKept(w.system.m, Step(w, e).system.m, r)
  {
    hide Valid, Exec, Enabled, LowerKept, UpperLike, RoundRobin.Tick, RoundRobin.Ring, Tabled, Bounded;
    match e
    case Page(op) =>
      labels' := StepIsolated(w.system, labels, op, r);
      KernelStays(w.system, op);
      MoreRoots(w.ring, w.tables, w.system.roots, Exec(w.system, op).roots);
    case Spawn(frame, root) =>
      labels' := labels;
      SpawnKeepsTables(w, labels, frame, root);
      KeptAsIs(w.system.m, r);
    case Signal(pid, signals) =>
      labels' := labels;
      SignalKeepsTables(w, labels, pid, signals);
      KeptAsIs(w.system.m, r);
    case Tick(frame) =>
      TickPossible(w, labels, frame);
      var load := Load(Running(w.(ring := RoundRobin.Tick(w.ring, frame))));
      labels' := StepIsolated(w.system, labels, load, r);
      KernelStays(w.system, load);
      MoreRoots(RoundRobin.Tick(w.ring, frame), w.tables, w.system.roots, Exec(w.system, load).roots);
  }

  lemma MoreRoots(ring: seq<RoundRobin.Proc>, tables: map<nat, nat>, roots: set<nat>, more: set<nat>)
    requires Tabled(ring, tables, roots) && roots <= more
    ensures Tabled(ring, tables, more)
  {
  }

  lemma KeptAsIs(m: Memory, r: nat)
    ensures LowerKept(m, m, r)
  {
  }

  lemma KernelStays(s: System, op: Op)
    requires Enabled(s, op)
    ensures Exec(s, op).kernel == s.kernel
  {
    hide CreateRoot, CopyUpperHalf, MapPage, EditPage, UnmapPage, AllocRange, UnmapFrom, EditFrom;
  }

  ghost predicate PossibleRun(w: Machine, events: seq<Event>)
    decreases |events|
  {
    events != [] ==> Possible(w, events[0]) && PossibleRun(Step(w, events[0]), events[1..])
  }

  ghost function StepRun(w: Machine, events: seq<Event>): Machine
    requires PossibleRun(w, events)
    decreases |events|
  {
    if events == [] then w else StepRun(Step(w, events[0]), events[1..])
  }

  // Over any run of page operations, ticks, new processes and signals: right after a tick the running process sees the
  // kernel's upper half, and a space that no page operation is aimed at keeps its lower half.
  lemma {:induction false} RunSane(w: Machine, labels: map<nat, Label>, events: seq<Event>, r: nat) returns (labels': map<nat, Label>)
    requires Sane(w, labels) && PossibleRun(w, events) && r in w.system.roots
    ensures Sane(StepRun(w, events), labels') && r in StepRun(w, events).system.roots
    ensures events != [] && events[|events| - 1].Tick? ==>
              var s := StepRun(w, events).system; UpperLike(s.m, Running(StepRun(w, events)), s.m, s.kernel)
    ensures (forall e :: e in events && e.Page? ==> e.op.Create? || e.op.Load? || e.op.root != r) ==>
              LowerKept(w.system.m, StepRun(w, events).system.m, r)
    decreases |events|
  {
    hide Sane, Possible, Step, UpperLike, Running, Walk;
    labels' := labels;
    if events != [] {
      labels' := StepSane(w, labels, events[0], r);
      if |events| == 1 {
        assert events[1..] == [];
      } else {
        assert events[|events| - 1] == events[1..][|events| - 2];
        labels' := RunSane(Step(w, events[0]), labels', events[1..], r);
        assert forall e :: e in events[1..] ==> e in events;
      }
    }
  }
}
