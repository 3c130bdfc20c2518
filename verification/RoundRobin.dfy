/**
 The scheduler's ring as a sequence that starts at the current process: preemption, pending
 signals, and kills that happen while the next process is being selected.
 */
module RoundRobin {
  const SIG_ABRT: bv32 := 0x20
  const SIG_KILL: bv32 := 0x100

  type Frame = nat

  datatype Proc = Proc(pid: nat, regs: Frame, pending: bv32)

  predicate Fatal(signals: bv32) {
    signals & SIG_ABRT != 0 || signals & SIG_KILL != 0
  }

  // A non-kernel process with a fatal signal pending is killed when it is looked at.
  predicate Doomed(p: Proc) {
    p.pid != 0 && Fatal(p.pending)
  }

  // The kernel is in the ring, and no two processes share a pid.
  ghost predicate Ring(r: seq<Proc>) {
    && (exists i :: 0 <= i < |r| && r[i].pid == 0)
    && (forall i, j :: 0 <= i < j < |r| ==> r[i].pid != r[j].pid)
  }

  function Advance(r: seq<Proc>): (r': seq<Proc>)
    requires |r| > 0
    ensures |r'| == |r|
  {
    r[1..] + [r[0]]
  }

  // The selection loop: advance; if the process there is doomed it leaves the ring, and its
  // successor becomes the place to advance from.
  ghost function Select(r: seq<Proc>): (r': seq<Proc>)
    requires Ring(r)
    ensures Ring(r')
    decreases |r|
  {
    var a := Advance(r);
    AdvanceKeepsRing(r);
    if Doomed(a[0]) then
      RestKeepsRing(a);
      Select(a[1..])
    else
      ClearKeepsRing(a);
      a[0 := a[0].(pending := 0)]
  }

  // A timer tick: the frame of the preempted process is saved, then the next one is selected.
  ghost function Tick(r: seq<Proc>, frame: Frame): (r': seq<Proc>)
    requires Ring(r)
    ensures Ring(r')
  {
    SaveKeepsRing(r, frame);
    Select(r[0 := r[0].(regs := frame)])
  }

  ghost function Add(r: seq<Proc>, pid: nat, frame: Frame): (r': seq<Proc>)
    requires |r| > 0
  {
    [r[0], Proc(pid, frame, 0)] + r[1..]
  }

  function Pend(p: Proc, signals: bv32): (q: Proc)
    ensures q.pid == p.pid && q.regs == p.regs
  {
    p.(pending := p.pending | signals)
  }

  ghost function Send(r: seq<Proc>, pid: nat, signals: bv32): (r': seq<Proc>) {
    seq(|r|, i requires 0 <= i < |r| => if r[i].pid == pid then Pend(r[i], signals) else r[i])
  }

  // The current process, unless it is the kernel, leaves; the one after it goes on, whatever signals
  // are pending for it.
  ghost function Quit(r: seq<Proc>): (r': seq<Proc>)
    requires |r| > 0
  {
    if r[0].pid == 0 then r else r[1..]
  }

  // ---------- Signals ----------

  // One of the signals of the mask is among these.
  predicate Has(signals: bv32, mask: bv32) {
    signals & mask != 0
  }

  lemma OrBits(x: bv32, y: bv32, mask: bv32)
    ensures Has(x | y, mask) <==> Has(x, mask) || Has(y, mask)
  {
    OrDistributes(x, y, mask);
    OrIsZero(x & mask, y & mask);
  }

  lemma OrDistributes(x: bv32, y: bv32, mask: bv32)
    ensures (x | y) & mask == (x & mask) | (y & mask)
  {
  }

  lemma OrIsZero(x: bv32, y: bv32)
    ensures x | y == 0 <==> x == 0 && y == 0
  {
  }

  // The two fatal signals, by their numbers in the mask: bit 5 and bit 8.
  lemma FatalIff(signals: bv32)
    ensures Fatal(signals) <==> signals & 0x120 != 0
  {
  }

  lemma PendBits(p: Proc, signals: bv32, mask: bv32)
    ensures Has(Pend(p, signals).pending, mask) <==> Has(p.pending, mask) || Has(signals, mask)
  {
    hide Has;
    var x := p.pending;
    assert Pend(p, signals).pending == x | signals;
    OrBits(x, signals, mask);
  }

  // A signal is pending for a process afterwards exactly when it was before, or it was sent to it now.
  ghost predicate Signalled(r: seq<Proc>, s: seq<Proc>, pid: nat, signals: bv32) {
    && |s| == |r|
    && (forall i :: 0 <= i < |r| ==> s[i].pid == r[i].pid && s[i].regs == r[i].regs)
    && (forall i :: 0 <= i < |r| && r[i].pid != pid ==> s[i] == r[i])
    && (forall i, mask :: 0 <= i < |r| && r[i].pid == pid ==>
          (Has(s[i].pending, mask) <==> Has(r[i].pending, mask) || Has(signals, mask)))
  }

  lemma SendSignals(r: seq<Proc>, pid: nat, signals: bv32)
    ensures Signalled(r, Send(r, pid, signals), pid, signals)
  {
    hide Has, Pend;
    var s := Send(r, pid, signals);
    forall i, mask | 0 <= i < |r| && r[i].pid == pid
      ensures Has(s[i].pending, mask) <==> Has(r[i].pending, mask) || Has(signals, mask)
    {
      PendBits(r[i], signals, mask);
    }
  }

  // ---------- The ring is kept ----------

  lemma AdvanceKeepsRing(r: seq<Proc>)
    requires Ring(r)
    ensures Ring(Advance(r))
  {
    var k :| 0 <= k < |r| && r[k].pid == 0;
    var a := Advance(r);
    assert a[if k == 0 then |r| - 1 else k - 1].pid == 0;
    assert forall i :: 0 <= i < |a| ==> a[i] == if i == |r| - 1 then r[0] else r[i + 1];
  }

  lemma RestKeepsRing(r: seq<Proc>)
    requires Ring(r) && r[0].pid != 0
    ensures Ring(r[1..])
  {
  }

  lemma ClearKeepsRing(r: seq<Proc>)
    requires Ring(r)
    ensures Ring(r[0 := r[0].(pending := 0)])
  {
    var k :| 0 <= k < |r| && r[k].pid == 0;
    assert r[0 := r[0].(pending := 0)][k].pid == 0;
  }

  lemma SaveKeepsRing(r: seq<Proc>, frame: Frame)
    requires Ring(r)
    ensures Ring(r[0 := r[0].(regs := frame)])
  {
    var k :| 0 <= k < |r| && r[k].pid == 0;
    assert r[0 := r[0].(regs := frame)][k].pid == 0;
  }

  lemma AddKeepsRing(r: seq<Proc>, pid: nat, frame: Frame)
    requires Ring(r) && forall i :: 0 <= i < |r| ==> r[i].pid != pid
    ensures Ring(Add(r, pid, frame))
  {
    var k :| 0 <= k < |r| && r[k].pid == 0;
    var a := Add(r, pid, frame);
    assert a[if k == 0 then 0 else k + 1].pid == 0;
    assert forall i :: 0 <= i < |a| ==> a[i] == if i == 0 then r[0] else if i == 1 then Proc(pid, frame, 0) else r[i - 1];
  }

  lemma SendKeepsRing(r: seq<Proc>, pid: nat, signals: bv32)
    requires Ring(r)
    ensures Ring(Send(r, pid, signals))
  {
    var k :| 0 <= k < |r| && r[k].pid == 0;
    assert Send(r, pid, signals)[k].pid == 0;
  }

  lemma QuitKeepsRing(r: seq<Proc>)
    requires Ring(r)
    ensures Ring(Quit(r)) && forall p :: p in Quit(r) ==> p in r
  {
    if r[0].pid != 0 { RestKeepsRing(r); }
  }

  // ---------- What a selection does ----------

  // The chosen process was not doomed and only its pending signals are gone; everyone else in the
  // new ring is exactly as before; whoever left the ring was doomed.
  ghost predicate Selected(r: seq<Proc>, s: seq<Proc>, chosen: Proc) {
    && |s| > 0 && chosen in r && !Doomed(chosen) && s[0] == chosen.(pending := 0)
    && (forall p :: p in s[1..] ==> p in r)
    && (forall p :: p in r ==> p == chosen || p in s[1..] || Doomed(p))
  }

  lemma {:induction false} SelectEffect(r: seq<Proc>) returns (chosen: Proc)
    requires Ring(r)
    ensures Selected(r, Select(r), chosen)
    decreases |r|
  {
    hide Doomed;
    var a := Advance(r);
    AdvanceKeepsRing(r);
    assert forall p :: p in a <==> p in r;
    if Doomed(a[0]) {
      KernelIsNotDoomed(a[0]);
      RestKeepsRing(a);
      chosen := SelectEffect(a[1..]);
      assert Select(r) == Select(a[1..]);
      assert a == [a[0]] + a[1..];
    } else {
      chosen := a[0];
      var s := a[0 := a[0].(pending := 0)];
      assert s[1..] == a[1..] && a == [a[0]] + a[1..];
    }
  }

  lemma KernelIsNotDoomed(p: Proc)
    ensures Doomed(p) ==> p.pid != 0
  {
  }

  // ---------- Fairness ----------

  ghost function Pids(r: seq<Proc>): seq<nat> {
    seq(|r|, i requires 0 <= i < |r| => r[i].pid)
  }

  // The order in which processes would be looked at if all were doomed: a killed process's successor
  // becomes the place to advance from, so it is passed over.
  ghost function Order(r: seq<Proc>): (o: seq<Proc>)
    decreases |r|
  {
    if r == [] then [] else [Advance(r)[0]] + Order(Advance(r)[1..])
  }

  // The process chosen is the first in that order that is not doomed.
  lemma {:induction false} SelectsFirst(r: seq<Proc>) returns (k: nat)
    requires Ring(r)
    ensures k < |Order(r)| && !Doomed(Order(r)[k]) && forall j :: 0 <= j < k ==> Doomed(Order(r)[j])
    ensures |Select(r)| > 0 && Select(r)[0] == Order(r)[k].(pending := 0)
    decreases |r|
  {
    hide Doomed;
    var a := Advance(r);
    AdvanceKeepsRing(r);
    var rest := Order(a[1..]);
    assert Order(r) == [a[0]] + rest;
    if Doomed(a[0]) {
      KernelIsNotDoomed(a[0]);
      RestKeepsRing(a);
      var j := SelectsFirst(a[1..]);
      k := j + 1;
    } else {
      k := 0;
    }
  }

  // Up to the end of the ring that order takes every second process.
  lemma {:induction false} OrderSkips(r: seq<Proc>, k: nat)
    requires 2 * k + 1 < |r|
    ensures k < |Order(r)| && Order(r)[k] == r[2 * k + 1]
    decreases k
  {
    var a := Advance(r);
    var next := a[1..];
    assert Order(r) == [a[0]] + Order(next);
    if k > 0 {
      OrderSkips(next, k - 1);
      assert next[2 * k - 1] == a[2 * k] == r[2 * k + 1];
    }
  }

  // Every process has its place in it, once.
  lemma {:induction false} OrderIsAll(r: seq<Proc>)
    ensures multiset(Order(r)) == multiset(r)
    decreases |r|
  {
    hide Advance;
    if r != [] {
      var a := Advance(r);
      OrderIsAll(a[1..]);
      AdvanceIsAll(r);
      assert a == [a[0]] + a[1..];
      assert multiset(a) == multiset([a[0]]) + multiset(a[1..]);
      assert multiset(Order(r)) == multiset([a[0]]) + multiset(Order(a[1..]));
    }
  }

  lemma AdvanceIsAll(r: seq<Proc>)
    requires r != []
    ensures multiset(Advance(r)) == multiset(r)
  {
    assert r == [r[0]] + r[1..];
  }

  // After one kill the process behind the killed one is passed over, well or not.
  lemma PassedOver(r: seq<Proc>)
    requires Ring(r) && |r| > 3 && Doomed(r[1]) && !Doomed(r[3])
    ensures |Select(r)| > 0 && Select(r)[0] == r[3].(pending := 0)
  {
    hide Doomed, Select, Order;
    var k := SelectsFirst(r);
    OrderSkips(r, 0);
    OrderSkips(r, 1);
    assert k == 1;
  }

  ghost predicate Quiet(r: seq<Proc>) {
    forall i :: 0 <= i < |r| ==> !Doomed(r[i])
  }

  ghost function Ticks(r: seq<Proc>, frames: seq<Frame>): (r': seq<Proc>)
    requires Ring(r)
    ensures Ring(r')
    decreases |frames|
  {
    if frames == [] then r else Ticks(Tick(r, frames[0]), frames[1..])
  }

  lemma QuietTick(r: seq<Proc>, frame: Frame)
    requires Ring(r) && Quiet(r)
    ensures Quiet(Tick(r, frame)) && Pids(Tick(r, frame)) == Pids(r)[1..] + [Pids(r)[0]]
  {
  }

  // Without adds and kills, the k-th tick selects the k-th process after the current one: n ticks
  // select each of n processes exactly once and end where they began.
  lemma {:induction false} TicksRotate(r: seq<Proc>, frames: seq<Frame>)
    requires Ring(r) && Quiet(r) && |frames| <= |r|
    ensures Quiet(Ticks(r, frames))
    ensures Pids(Ticks(r, frames)) == Pids(r)[|frames|..] + Pids(r)[..|frames|]
    decreases |frames|
  {
    if frames != [] {
      var k := |frames| - 1;
      TicksSnoc(r, frames);
      TicksRotate(r, frames[..k]);
      var t := Ticks(r, frames[..k]);
      QuietTick(t, frames[k]);
      var p := Pids(r);
      assert (p[k..] + p[..k])[1..] + [p[k]] == p[k + 1..] + p[..k + 1];
    }
  }

  lemma {:induction false} TicksSnoc(r: seq<Proc>, frames: seq<Frame>)
    requires Ring(r) && |frames| > 0
    ensures Ticks(r, frames) == Tick(Ticks(r, frames[..|frames| - 1]), frames[|frames| - 1])
    decreases |frames|
  {
    hide Tick, Ring;
    if |frames| > 1 {
      TicksSnoc(Tick(r, frames[0]), frames[1..]);
      assert frames[1..][..|frames| - 2] == frames[..|frames| - 1][1..];
    } else {
      assert frames[..0] == [] && frames[1..] == [];
      assert Ticks(Tick(r, frames[0]), []) == Tick(r, frames[0]);
    }
  }

  // ---------- Runs ----------

  datatype Op = Preempt(frame: Frame) | Spawn(frame: Frame) | Signal(pid: nat, signals: bv32) | Exit

  // `saved` records, apart from the ring, the frame each process was last preempted with, or the
  // frame it was created with.
  datatype World = World(ring: seq<Proc>, highest: nat, saved: map<nat, Frame>)

  const PID_LIMIT := 0x1_0000_0000

  // Pids are 32-bit words, and the counter wraps.
  function NextPid(highest: nat): nat {
    (highest + 1) % PID_LIMIT
  }

  predicate Allowed(w: World, op: Op) {
    op.Spawn? ==> w.highest + 1 < PID_LIMIT
  }

  // The 2^32nd process gets the kernel's pid: exactly then the ring stops being one.
  lemma AddKeepsRingIff(r: seq<Proc>, highest: nat, frame: Frame)
    requires Ring(r) && highest < PID_LIMIT && forall p :: p in r ==> p.pid <= highest
    ensures Ring(Add(r, NextPid(highest), frame)) <==> highest + 1 < PID_LIMIT
  {
    var pid, a := NextPid(highest), Add(r, NextPid(highest), frame);
    if highest + 1 < PID_LIMIT {
      assert forall i :: 0 <= i < |r| ==> r[i] in r;
      AddKeepsRing(r, pid, frame);
    } else {
      var k :| 0 <= k < |r| && r[k].pid == 0;
      assert a[if k == 0 then 0 else k + 1].pid == 0 && a[1].pid == 0;
    }
  }

  lemma SpawnKeepsRingIff(w: World, frame: Frame)
    requires Good(w) && w.highest < PID_LIMIT
    ensures Ring(Exec(w, Spawn(frame)).ring) <==> Allowed(w, Spawn(frame))
  {
    hide Ring, Add, NextPid;
    AddKeepsRingIff(w.ring, w.highest, frame);
  }

  // The kernel alone, after 2^32 - 1 processes: the next one has the kernel's pid.
  lemma SecondKernel(frame: Frame)
    ensures var w := World([Proc(0, 0, 0)], PID_LIMIT - 1, map[0 := 0]);
            && Good(w) && Exec(w, Spawn(frame)).ring == [Proc(0, 0, 0), Proc(0, frame, 0)] && !Ring(Exec(w, Spawn(frame)).ring)
  {
    var w := World([Proc(0, 0, 0)], PID_LIMIT - 1, map[0 := 0]);
    assert w.ring[0].pid == 0;
    assert Exec(w, Spawn(frame)).ring == [Proc(0, 0, 0), Proc(0, frame, 0)];
    SpawnKeepsRingIff(w, frame);
  }

  ghost predicate Good(w: World) {
    && Ring(w.ring)
    && (forall p :: p in w.ring ==> p.pid <= w.highest && p.pid in w.saved && p.regs == w.saved[p.pid])
  }

  ghost function Exec(w: World, op: Op): World
    requires Ring(w.ring)
  {
    match op
    case Preempt(frame) => w.(ring := Tick(w.ring, frame), saved := w.saved[w.ring[0].pid := frame])
    case Spawn(frame) =>
      var pid := NextPid(w.highest);
      World(Add(w.ring, pid, frame), pid, w.saved[pid := frame])
    case Signal(pid, signals) => w.(ring := Send(w.ring, pid, signals))
    case Exit => w.(ring := Quit(w.ring))
  }

  lemma TickKeepsFrames(w: World, frame: Frame)
    requires Good(w)
    ensures Good(Exec(w, Preempt(frame)))
  {
    hide Doomed;
    var r := w.ring;
    var s := r[0 := r[0].(regs := frame)];
    SaveKeepsRing(r, frame);
    var chosen := SelectEffect(s);
    var t := Select(s);
    var saved := w.saved[r[0].pid := frame];
    forall p | p in s
      ensures p.pid <= w.highest && p.pid in saved && p.regs == saved[p.pid]
    {
      var i :| 0 <= i < |s| && s[i] == p;
      if i > 0 { assert r[0].pid != r[i].pid && r[i] in r; } else { assert r[0] in r; }
    }
    assert t == [t[0]] + t[1..];
  }

  lemma SignalKeepsFrames(w: World, pid: nat, signals: bv32)
    requires Good(w)
    ensures Good(Exec(w, Signal(pid, signals)))
  {
    hide Pend;
    SendKeepsRing(w.ring, pid, signals);
    var s := Send(w.ring, pid, signals);
    forall p | p in s
      ensures p.pid <= w.highest && p.pid in w.saved && p.regs == w.saved[p.pid]
    {
      var i :| 0 <= i < |s| && s[i] == p;
      assert w.ring[i] in w.ring;
    }
  }

  lemma StepIsGood(w: World, op: Op)
    requires Good(w) && Allowed(w, op)
    ensures Good(Exec(w, op))
  {
    match op
    case Preempt(frame) => TickKeepsFrames(w, frame);
    case Spawn(frame) =>
      assert forall i :: 0 <= i < |w.ring| ==> w.ring[i] in w.ring;
      AddKeepsRing(w.ring, w.highest + 1, frame);
      assert forall p :: p in w.ring[1..] ==> p in w.ring;
    case Signal(pid, signals) => SignalKeepsFrames(w, pid, signals);
    case Exit => QuitKeepsRing(w.ring);
  }

  ghost predicate AllowedRun(w: World, ops: seq<Op>)
    requires Good(w)
    decreases |ops|
  {
    ops != [] ==> Allowed(w, ops[0]) && (StepIsGood(w, ops[0]); AllowedRun(Exec(w, ops[0]), ops[1..]))
  }

  ghost function Run(w: World, ops: seq<Op>): World
    requires Good(w) && AllowedRun(w, ops)
    decreases |ops|
  {
    if ops == [] then w else StepIsGood(w, ops[0]); Run(Exec(w, ops[0]), ops[1..])
  }

  // In every reachable state the ring holds the kernel and distinct pids, and each process would
  // resume with exactly the frame of its last preemption; a tick never selects a doomed process.
  lemma {:induction false} RunIsGood(w: World, ops: seq<Op>, frame: Frame) returns (chosen: Proc)
    requires Good(w) && AllowedRun(w, ops)
    ensures var v := Run(w, ops);
            && Good(v)
            && var after := Exec(v, Preempt(frame));
               && Good(after) && after.ring[0].regs == after.saved[after.ring[0].pid]
               && chosen in v.ring[0 := v.ring[0].(regs := frame)]
               && chosen.pid == after.ring[0].pid && (chosen.pid == 0 || !Fatal(chosen.pending))
    decreases |ops|
  {
    if ops == [] {
      StepIsGood(w, Preempt(frame));
      SaveKeepsRing(w.ring, frame);
      chosen := SelectEffect(w.ring[0 := w.ring[0].(regs := frame)]);
      assert Exec(w, Preempt(frame)).ring[0] in Exec(w, Preempt(frame)).ring;
    } else {
      StepIsGood(w, ops[0]);
      chosen := RunIsGood(Exec(w, ops[0]), ops[1..], frame);
    }
  }

  // A process just added is the next to run, with the frame it was added with; the one it was added
  // behind is then the last in line.
  lemma SpawnRunsNext(r: seq<Proc>, pid: nat, frame: Frame, saved: Frame)
    requires r != [] && Ring(Add(r, pid, frame))
    ensures var t := Tick(Add(r, pid, frame), saved);
            && |t| == |r| + 1 && t[0] == Proc(pid, frame, 0) && t[|r|] == r[0].(regs := saved)
            && t[1..|r|] == r[1..]
  {
    var a := Add(r, pid, frame);
    SaveKeepsRing(a, saved);
    var s := a[0 := a[0].(regs := saved)];
    assert Advance(s)[0] == Proc(pid, frame, 0);
  }

  // ---------- A fatal signal is final ----------

  // Whoever in the ring has this pid, not the kernel's and not one to be given out again, has a fatal
  // signal pending.
  ghost predicate Condemned(w: World, pid: nat) {
    && 0 < pid <= w.highest
    && forall p :: p in w.ring && p.pid == pid ==> p.pending & 0x120 != 0
  }

  lemma HasFatal(signals: bv32)
    ensures Has(signals, 0x120) <==> signals & 0x120 != 0
  {
  }

  lemma SignalCondemns(w: World, pid: nat, signals: bv32)
    requires Good(w) && pid != 0 && (exists p :: p in w.ring && p.pid == pid) && signals & 0x120 != 0
    ensures Condemned(Exec(w, Signal(pid, signals)), pid)
  {
    hide Send, Ring, Has;
    HasFatal(signals);
    SendSignals(w.ring, pid, signals);
    var s := Send(w.ring, pid, signals);
    forall p | p in s && p.pid == pid
      ensures p.pending & 0x120 != 0
    {
      var i :| 0 <= i < |s| && s[i] == p;
      HasFatal(p.pending);
    }
  }

  lemma SignalKeepsCondemned(w: World, pid: nat, target: nat, signals: bv32)
    requires Good(w) && Condemned(w, pid)
    ensures Condemned(Exec(w, Signal(target, signals)), pid)
  {
    hide Send, Ring, Has;
    SendSignals(w.ring, target, signals);
    var s := Send(w.ring, target, signals);
    forall p | p in s && p.pid == pid
      ensures p.pending & 0x120 != 0
    {
      var i :| 0 <= i < |s| && s[i] == p;
      assert w.ring[i] in w.ring;
      HasFatal(w.ring[i].pending);
      HasFatal(p.pending);
    }
  }

  // A tick does not select it.
  lemma TickPassesCondemned(w: World, pid: nat, frame: Frame)
    requires Good(w) && Condemned(w, pid)
    ensures var t := Exec(w, Preempt(frame)); t.ring != [] && t.ring[0].pid != pid && Condemned(t, pid)
  {
    hide Select, Ring;
    var r := w.ring;
    SaveKeepsRing(r, frame);
    FirstInRing(r);
    var s := r[0 := r[0].(regs := frame)];
    var chosen := SelectEffect(s);
    var t := Select(s);
    forall p | p in s && p.pid == pid
      ensures p.pending & 0x120 != 0 && Doomed(p)
    {
      var i :| 0 <= i < |s| && s[i] == p;
      assert r[i] in r;
      FatalIff(p.pending);
    }
    assert t == [t[0]] + t[1..];
  }

  lemma FirstInRing(r: seq<Proc>)
    requires Ring(r)
    ensures |r| > 0 && r[0] in r
  {
  }

  lemma StepKeepsCondemned(w: World, op: Op, pid: nat)
    requires Good(w) && Allowed(w, op) && Condemned(w, pid)
    ensures Condemned(Exec(w, op), pid)
  {
    match op
    case Preempt(frame) => TickPassesCondemned(w, pid, frame);
    case Spawn(frame) => assert forall p :: p in w.ring[1..] ==> p in w.ring;
    case Signal(target, signals) => SignalKeepsCondemned(w, pid, target, signals);
    case Exit => QuitKeepsRing(w.ring);
  }

  lemma {:induction false} RunKeepsCondemned(w: World, ops: seq<Op>, pid: nat)
    requires Good(w) && AllowedRun(w, ops) && Condemned(w, pid)
    ensures Condemned(Run(w, ops), pid) && Good(Run(w, ops))
    decreases |ops|
  {
    if ops != [] {
      StepIsGood(w, ops[0]);
      StepKeepsCondemned(w, ops[0], pid);
      RunKeepsCondemned(Exec(w, ops[0]), ops[1..], pid);
    }
  }

  // Once a fatal signal was sent to a process other than the kernel, no tick of any later run selects
  // it, whatever else is sent, added or exits meanwhile.
  lemma KilledNeverSelected(w: World, pid: nat, signals: bv32, ops: seq<Op>, frame: Frame)
    requires Good(w) && pid != 0 && (exists p :: p in w.ring && p.pid == pid) && signals & 0x120 != 0
    requires var s := Exec(w, Signal(pid, signals)); Good(s) && AllowedRun(s, ops)
    ensures var v := Run(Exec(w, Signal(pid, signals)), ops);
            && (forall p :: p in v.ring && p.pid == pid ==> p.pending & 0x120 != 0)
            && Ring(v.ring) && Tick(v.ring, frame) != [] && Tick(v.ring, frame)[0].pid != pid
  {
    RingOfGood(w);
    hide Ring, Good, Tick;
    SignalCondemns(w, pid, signals);
    var s := Exec(w, Signal(pid, signals));
    RunKeepsCondemned(s, ops, pid);
    RingOfGood(Run(s, ops));
    TickPassesCondemned(Run(s, ops), pid, frame);
  }

  lemma RingOfGood(w: World)
    requires Good(w)
    ensures Ring(w.ring)
  {
  }

  // An exit looks at nobody's signals: a process goes on with a fatal one pending after it exactly
  // when it stood right behind the process that exits.
  lemma ExitRunsDoomedIff(w: World)
    requires Good(w) && w.ring[0].pid != 0
    ensures |w.ring| > 1
    ensures Doomed(Exec(w, Exit).ring[0]) <==> Doomed(w.ring[1])
    ensures Exec(w, Exit).ring[0] == w.ring[1]
  {
    QuitKeepsRing(w.ring);
  }
}
