/**
 The scheduler as it runs: process records in memory, linked in a circle through their addresses,
 a pointer to the current one, and searches that go once around. Every method is proved against
 RoundRobin.
 */
module ProcessScheduler {
  import opened RoundRobin

  datatype Record = Record(pid: nat, regs: Frame, pending: bv32, next: nat)

  type Memory = map<nat, Record>

  function WithSignals(x: Record, signals: bv32): (y: Record)
    ensures y.next == x.next
    ensures Proc(y.pid, y.regs, y.pending) == Pend(Proc(x.pid, x.regs, x.pending), signals)
  {
    x.(pending := x.pending | signals)
  }

  // The element after index i of a circle.
  ghost function After<T>(s: seq<T>, i: nat): T
    requires i < |s|
  {
    if i + 1 < |s| then s[i + 1] else s[0]
  }

  ghost predicate Linked(m: Memory, nodes: seq<nat>, i: nat)
    requires i < |nodes|
  {
    nodes[i] in m && m[nodes[i]].next == After(nodes, i)
  }

  // The addresses `nodes`, in order, are one cycle of next pointers.
  ghost predicate Circle(m: Memory, nodes: seq<nat>) {
    && |nodes| > 0
    && (forall i, j :: 0 <= i < j < |nodes| ==> nodes[i] != nodes[j])
    && (forall i :: 0 <= i < |nodes| ==> Linked(m, nodes, i))
  }

  ghost function ProcAt(m: Memory, a: nat): Proc {
    if a in m then Proc(m[a].pid, m[a].regs, m[a].pending) else Proc(0, 0, 0)
  }

  ghost function View(m: Memory, nodes: seq<nat>): (r: seq<Proc>)
    ensures |r| == |nodes|
  {
    seq(|nodes|, i requires 0 <= i < |nodes| => ProcAt(m, nodes[i]))
  }

  // The same circle seen from its next node.
  lemma CircleAdvance(m: Memory, nodes: seq<nat>)
    requires Circle(m, nodes)
    ensures Circle(m, nodes[1..] + [nodes[0]]) && View(m, nodes[1..] + [nodes[0]]) == Advance(View(m, nodes))
    ensures nodes[0] in m && m[nodes[0]].next == (nodes[1..] + [nodes[0]])[0]
  {
    var a := nodes[1..] + [nodes[0]];
    forall i | 0 <= i < |a|
      ensures Linked(m, a, i)
    {
      assert Linked(m, nodes, if i == |a| - 1 then 0 else i + 1);
    }
    assert Linked(m, nodes, 0);
  }

  // The same circle seen from its k-th node.
  ghost function Turned<T>(s: seq<T>, k: nat): seq<T>
    requires k <= |s|
  {
    s[k..] + s[..k]
  }

  lemma {:induction false} CircleTurned(m: Memory, nodes: seq<nat>, k: nat)
    requires Circle(m, nodes) && k < |nodes|
    ensures Circle(m, Turned(nodes, k)) && View(m, Turned(nodes, k)) == Turned(View(m, nodes), k)
  {
    if k == 0 {
      assert Turned(nodes, 0) == nodes && Turned(View(m, nodes), 0) == View(m, nodes);
    } else {
      CircleTurned(m, nodes, k - 1);
      CircleAdvance(m, Turned(nodes, k - 1));
      var t := Turned(nodes, k - 1);
      assert t[1..] + [t[0]] == Turned(nodes, k);
      var v := Turned(View(m, nodes), k - 1);
      assert Advance(v) == Turned(View(m, nodes), k);
    }
  }

  // Writing a record's contents, but not its link.
  lemma CircleWrite(m: Memory, nodes: seq<nat>, k: nat, x: Record)
    requires Circle(m, nodes) && k < |nodes| && nodes[k] in m && x.next == m[nodes[k]].next
    ensures var m' := m[nodes[k] := x];
            Circle(m', nodes) && View(m', nodes) == View(m, nodes)[k := Proc(x.pid, x.regs, x.pending)]
  {
    var m' := m[nodes[k] := x];
    forall i | 0 <= i < |nodes|
      ensures Linked(m', nodes, i)
    {
      assert Linked(m, nodes, i);
    }
  }

  lemma CircleInsert(m: Memory, nodes: seq<nat>, a: nat, x: Record)
    requires Circle(m, nodes) && a !in m
    ensures |nodes| > 0 && nodes[0] in m
    ensures var m1 := m[a := x.(next := m[nodes[0]].next)];
            var m2 := m1[nodes[0] := m1[nodes[0]].(next := a)];
            && Circle(m2, [nodes[0], a] + nodes[1..])
            && View(m2, [nodes[0], a] + nodes[1..]) == [View(m, nodes)[0], Proc(x.pid, x.regs, x.pending)] + View(m, nodes)[1..]
  {
    assert Linked(m, nodes, 0);
    var m1 := m[a := x.(next := m[nodes[0]].next)];
    var m2 := m1[nodes[0] := m1[nodes[0]].(next := a)];
    var n := [nodes[0], a] + nodes[1..];
    forall i | 0 <= i < |nodes|
      ensures nodes[i] in m && nodes[i] != a && (i > 0 ==> m2[nodes[i]] == m[nodes[i]])
    {
      assert Linked(m, nodes, i);
    }
    forall i | 0 <= i < |n|
      ensures Linked(m2, n, i)
    {
      if i >= 2 { assert Linked(m, nodes, i - 1) && n[i] == nodes[i - 1]; }
    }
  }

  // Unlinking the second node of the circle.
  lemma CircleRemove(m: Memory, nodes: seq<nat>)
    requires Circle(m, nodes) && |nodes| > 1
    ensures nodes[0] in m && nodes[1] in m && m[nodes[0]].next == nodes[1]
    ensures var m' := m[nodes[0] := m[nodes[0]].(next := m[nodes[1]].next)] - {nodes[1]};
            && Circle(m', [nodes[0]] + nodes[2..])
            && View(m', [nodes[0]] + nodes[2..]) == [View(m, nodes)[0]] + View(m, nodes)[2..]
  {
    assert Linked(m, nodes, 0) && Linked(m, nodes, 1);
    var m' := m[nodes[0] := m[nodes[0]].(next := m[nodes[1]].next)] - {nodes[1]};
    var n := [nodes[0]] + nodes[2..];
    forall i | 0 <= i < |n|
      ensures Linked(m', n, i)
    {
      if i >= 1 { assert Linked(m, nodes, i + 1) && n[i] == nodes[i + 1]; }
    }
  }

  // Everyone but the node after index j, from the one after it round to j.
  ghost function Without<T>(s: seq<T>, j: nat): (r: seq<T>)
    requires j < |s| && |s| > 1
  {
    Turned(s, j)[2..] + [Turned(s, j)[0]]
  }

  lemma CircleExcise(m: Memory, nodes: seq<nat>, j: nat)
    requires Circle(m, nodes) && |nodes| > 1 && j < |nodes|
    ensures var p, x := nodes[j], After(nodes, j);
            && p in m && x in m && m[p].next == x && m[x].next == Without(nodes, j)[0]
            && var m' := m[p := m[p].(next := m[x].next)] - {x};
               Circle(m', Without(nodes, j)) && View(m', Without(nodes, j)) == Without(View(m, nodes), j)
  {
    hide Circle, Linked;
    var t := Turned(nodes, j);
    CircleTurned(m, nodes, j);
    CircleRemove(m, t);
    var p, x := nodes[j], After(nodes, j);
    assert t[0] == p && t[1] == x;
    var m' := m[p := m[p].(next := m[x].next)] - {x};
    var n := [t[0]] + t[2..];
    CircleAdvance(m', n);
    assert n[1..] + [n[0]] == Without(nodes, j);
    var v := Turned(View(m, nodes), j);
    assert Advance([v[0]] + v[2..]) == Without(View(m, nodes), j);
    NextOfSecond(m, t);
  }

  lemma NextOfSecond(m: Memory, t: seq<nat>)
    requires Circle(m, t) && |t| > 1
    ensures t[1] in m && m[t[1]].next == (t[2..] + [t[0]])[0]
  {
    assert Linked(m, t, 1);
  }

  lemma WithoutKeepsRing(r: seq<Proc>, j: nat)
    requires Ring(r) && j < |r| && |r| > 1 && (if j + 1 < |r| then r[j + 1] else r[0]).pid != 0
    ensures Ring(Without(r, j))
  {
    var k :| 0 <= k < |r| && r[k].pid == 0;
    var w := Without(r, j);
    assert forall i :: 0 <= i < |w| ==> w[i] == if i + j + 2 < |r| then r[i + j + 2] else r[i + j + 2 - |r|];
    assert w[if k >= j + 2 then k - j - 2 else k - j - 2 + |r|].pid == 0;
  }

  class Scheduler {
    var procs: Memory
    var current: nat
    var highest: nat
    ghost var nodes: seq<nat>

    ghost predicate Valid()
      reads this
    {
      && Circle(procs, nodes) && current == nodes[0]
      && Ring(View(procs, nodes)) && highest < PID_LIMIT
      && forall p :: p in View(procs, nodes) ==> p.pid <= highest
    }

    ghost function State(): seq<Proc>
      reads this
    {
      View(procs, nodes)
    }

    constructor (address: nat)
      ensures Valid() && State() == [Proc(0, 0, 0)] && highest == 0
    {
      procs := map[address := Record(0, 0, 0, address)];
      current, highest, nodes := address, 0, [address];
      new;
      assert Linked(procs, nodes, 0);
      assert State()[0].pid == 0;
    }

    // The record goes in right after the current process. `address` is where it was allocated. Only
    // the 2^32nd process, which takes pid 0, spoils the ring.
    method AddProcess(address: nat, frame: Frame) returns (pid: nat)
      requires Valid() && address !in procs
      modifies this
      ensures Circle(procs, nodes) && current == nodes[0]
      ensures pid == highest == if old(highest) + 1 < 0x1_0000_0000 then old(highest) + 1 else 0
      ensures State() == Add(old(State()), pid, frame)
      ensures Valid() <==> old(highest) + 1 < PID_LIMIT
    {
      hide Circle, View, Ring;
      ghost var r := State();
      AddKeepsRingIff(r, highest, frame);
      highest := NextPid(highest);
      pid := highest;
      CircleInsert(procs, nodes, address, Record(pid, frame, 0, 0));
      procs := procs[address := Record(pid, frame, 0, procs[current].next)];
      procs := procs[current := procs[current].(next := address)];
      nodes := [nodes[0], address] + nodes[1..];
      assert forall p :: p in Add(r, pid, frame) ==> p in r || p == Proc(pid, frame, 0);
    }

    // Once around from the current process.
    method FindProcess(pid: nat) returns (found: bool, process: nat, ghost k: nat)
      requires Valid()
      ensures found <==> exists p :: p in State() && p.pid == pid
      ensures found ==> k < |nodes| && process == nodes[k] && State()[k].pid == pid && process in procs
    {
      hide Ring;
      process := current;
      k := 0;
      assert Linked(procs, nodes, 0);
      while procs[process].pid != pid
        invariant k < |nodes| && process == nodes[k] && process in procs
        invariant forall i :: 0 <= i < k ==> State()[i].pid != pid
        decreases |nodes| - k
      {
        assert Linked(procs, nodes, k) && State()[k].pid != pid;
        process := procs[process].next;
        if process == current {
          return false, process, k;
        }
        k := k + 1;
        assert Linked(procs, nodes, k);
      }
      assert State()[k] in State();
      return true, process, k;
    }

    method FindPrevious(pid: nat) returns (found: bool, process: nat, ghost k: nat)
      requires Valid()
      ensures found <==> exists p :: p in State() && p.pid == pid
      ensures found ==> k < |nodes| && process == nodes[k] && ProcAt(procs, After(nodes, k)).pid == pid
    {
      hide Ring;
      process := current;
      k := 0;
      LinkedTwice(procs, nodes, 0);
      while procs[procs[process].next].pid != pid
        invariant k < |nodes| && process == nodes[k] && process in procs
        invariant procs[process].next == After(nodes, k) && After(nodes, k) in procs
        invariant forall i :: 0 <= i < k ==> ProcAt(procs, After(nodes, i)).pid != pid
        decreases |nodes| - k
      {
        process := procs[process].next;
        if process == current {
          NobodyAround(procs, nodes, k, pid);
          return false, process, k;
        }
        k := k + 1;
        LinkedTwice(procs, nodes, k);
      }
      SomebodyAround(procs, nodes, k);
      return true, process, k;
    }

    method SendSignals(pid: nat, signals: bv32)
      requires Valid()
      modifies this
      ensures Valid() && highest == old(highest) && State() == Send(old(State()), pid, signals)
      ensures Signalled(old(State()), State(), pid, signals)
    {
      hide Circle, View, Ring, Send, Pend, WithSignals, Signalled;
      ghost var r := State();
      RoundRobin.SendSignals(r, pid, signals);
      SendKeepsRing(r, pid, signals);
      var found, process, k := FindProcess(pid);
      SendAt(r, pid, signals, found, k);
      if found {
        var x := WithSignals(procs[process], signals);
        CircleWrite(procs, nodes, k, x);
        ViewAt(procs, nodes, k);
        procs := procs[process := x];
      }
      SendBounded(r, pid, signals, highest);
    }

    // Takes one non-kernel process out of the ring; the one after it becomes the current one.
    method RemoveProcess(pid: nat) returns (removed: bool, ghost j: nat)
      requires Valid()
      modifies this
      ensures Valid() && highest == old(highest)
      ensures removed <==> pid != 0 && exists p :: p in old(State()) && p.pid == pid
      ensures removed ==> j < |old(State())| && |old(State())| > 1 && After(old(State()), j).pid == pid
                          && State() == Without(old(State()), j)
      ensures removed ==> forall p :: p in State() <==> p in old(State()) && p.pid != pid
      ensures !removed ==> procs == old(procs) && nodes == old(nodes) && current == old(current)
    {
      hide Circle, View, Ring;
      if pid == 0 { return false, 0; }
      var found, prev, k := FindPrevious(pid);
      if !found { return false, 0; }
      j := k;
      ghost var r := State();
      NotAlone(r, procs, nodes, j, pid);
      CircleExcise(procs, nodes, j);
      WithoutKeepsRing(r, j);
      WithoutMembers(r, j, pid);
      var process := procs[prev].next;
      var nextNext := procs[process].next;
      procs := procs[prev := procs[prev].(next := nextNext)] - {process};
      current := nextNext;
      nodes := Without(nodes, j);
      return true, j;
    }

    // Clears the pending signals of the current process, and kills it if one of them was fatal.
    method HandleSignals() returns (killed: bool)
      requires Valid()
      modifies this
      ensures Valid() && highest == old(highest)
      ensures killed <==> Doomed(old(State())[0])
      ensures killed ==> |old(State())| > 1 && State() == old(State())[1..]
      ensures !killed ==> State() == old(State())[0 := old(State())[0].(pending := 0)]
    {
      hide Circle, View, Ring;
      ghost var r := State();
      CurrentRecord(procs, nodes);
      var signals, pid := procs[current].pending, procs[current].pid;
      ClearPending();
      ghost var r1 := State();
      FirstIsMember(r1);
      killed := false;
      if signals & SIG_ABRT != 0 {
        ghost var j;
        killed, j := RemoveProcess(pid);
        if killed { HeadExcised(r, r1, j, pid); return; }
      }
      if signals & SIG_KILL != 0 {
        ghost var j;
        killed, j := RemoveProcess(pid);
        if killed { HeadExcised(r, r1, j, pid); }
      }
    }

    // The current process ends and the one after it goes on; the kernel stays.
    method Exit() returns (resumed: Frame)
      requires Valid()
      modifies this
      ensures Valid() && highest == old(highest)
      ensures State() == Quit(old(State())) && resumed == State()[0].regs
    {
      hide Circle, View, Ring;
      ghost var r := State();
      CurrentRecord(procs, nodes);
      FirstIsMember(r);
      var removed, j := RemoveProcess(procs[current].pid);
      if removed {
        HeadGone(r, j, r[0].pid);
      }
      CurrentRecord(procs, nodes);
      resumed := procs[current].regs;
    }

    method ClearPending()
      requires Valid()
      modifies this
      ensures Valid() && highest == old(highest) && State() == old(State())[0 := old(State())[0].(pending := 0)]
    {
      hide Circle, View, Ring;
      ghost var r := State();
      CurrentRecord(procs, nodes);
      var x := procs[current].(pending := 0);
      CircleWrite(procs, nodes, 0, x);
      ClearKeepsRing(r);
      FirstIsMember(r);
      procs := procs[current := x];
    }

    // A timer tick: save, select, resume.
    method NextProcess(frame: Frame) returns (resumed: Frame)
      requires Valid()
      modifies this
      ensures Valid() && highest == old(highest)
      ensures State() == Tick(old(State()), frame) && resumed == State()[0].regs
    {
      hide Circle, View, Ring, Doomed;
      Save(frame);
      ghost var r := State();
      var killed := true;
      while killed
        invariant Valid() && highest == old(highest)
        invariant killed ==> Select(State()) == Select(r)
        invariant !killed ==> State() == Select(r)
        decreases |State()|, killed
      {
        Step();
        killed := HandleSignals();
      }
      CurrentRecord(procs, nodes);
      resumed := procs[current].regs;
    }

    method Save(frame: Frame)
      requires Valid()
      modifies this
      ensures Valid() && highest == old(highest) && State() == old(State())[0 := old(State())[0].(regs := frame)]
    {
      hide Circle, View, Ring;
      ghost var r := State();
      CurrentRecord(procs, nodes);
      var x := procs[current].(regs := frame);
      CircleWrite(procs, nodes, 0, x);
      SaveKeepsRing(r, frame);
      FirstIsMember(r);
      procs := procs[current := x];
    }

    method Step()
      requires Valid()
      modifies this`current, this`nodes
      ensures Valid() && State() == Advance(old(State()))
    {
      hide Circle, View, Ring;
      CircleAdvance(procs, nodes);
      AdvanceKeepsRing(State());
      AdvanceMembers(State());
      CurrentRecord(procs, nodes);
      nodes := nodes[1..] + [nodes[0]];
      current := procs[current].next;
    }
  }

  // ---------- Facts the methods use ----------

  lemma CurrentRecord(m: Memory, nodes: seq<nat>)
    requires Circle(m, nodes)
    ensures |nodes| > 0 && nodes[0] in m
    ensures View(m, nodes)[0] == Proc(m[nodes[0]].pid, m[nodes[0]].regs, m[nodes[0]].pending)
  {
    assert Linked(m, nodes, 0);
  }

  lemma FirstIsMember(r: seq<Proc>)
    requires |r| > 0
    ensures r[0] in r
  {
  }

  lemma AdvanceMembers(r: seq<Proc>)
    requires |r| > 0
    ensures forall p :: p in Advance(r) ==> p in r
  {
  }

  lemma WithoutMembers(r: seq<Proc>, j: nat, pid: nat)
    requires Ring(r) && j < |r| && |r| > 1 && After(r, j).pid == pid
    ensures forall p :: p in Without(r, j) <==> p in r && p.pid != pid
  {
    var w := Without(r, j);
    assert forall i :: 0 <= i < |w| ==> w[i] == if i + j + 2 < |r| then r[i + j + 2] else r[i + j + 2 - |r|];
    var x := if j + 1 < |r| then j + 1 else 0;
    forall i | 0 <= i < |r| && i != x
      ensures r[i] in w && r[i].pid != pid
    {
      assert w[if i >= j + 2 then i - j - 2 else i - j - 2 + |r|] == r[i];
    }
  }

  // A process to be removed is not the kernel, so it is not alone.
  lemma NotAlone(r: seq<Proc>, m: Memory, nodes: seq<nat>, j: nat, pid: nat)
    requires Ring(r) && r == View(m, nodes) && j < |nodes| && pid != 0 && ProcAt(m, After(nodes, j)).pid == pid
    ensures |r| > 1 && After(r, j).pid == pid
  {
  }

  // Excising the head of the ring leaves the rest in order.
  lemma HeadExcised(r: seq<Proc>, r1: seq<Proc>, j: nat, pid: nat)
    requires Ring(r) && r1 == r[0 := r[0].(pending := 0)] && r[0].pid == pid
    requires j < |r1| && |r1| > 1 && After(r1, j).pid == pid
    ensures Without(r1, j) == r[1..]
  {
  }

  lemma HeadGone(r: seq<Proc>, j: nat, pid: nat)
    requires Ring(r) && r[0].pid == pid && j < |r| && |r| > 1 && After(r, j).pid == pid
    ensures Without(r, j) == r[1..]
  {
  }

  lemma LinkedTwice(m: Memory, nodes: seq<nat>, k: nat)
    requires Circle(m, nodes) && k < |nodes|
    ensures nodes[k] in m && m[nodes[k]].next == After(nodes, k) && After(nodes, k) in m
  {
    assert Linked(m, nodes, k);
    assert Linked(m, nodes, if k + 1 < |nodes| then k + 1 else 0);
  }

  lemma NobodyAround(m: Memory, nodes: seq<nat>, k: nat, pid: nat)
    requires Circle(m, nodes) && k < |nodes| && After(nodes, k) == nodes[0]
    requires forall i :: 0 <= i <= k ==> ProcAt(m, After(nodes, i)).pid != pid
    ensures forall p :: p in View(m, nodes) ==> p.pid != pid
  {
    forall j | 0 <= j < |nodes|
      ensures View(m, nodes)[j].pid != pid
    {
      assert nodes[j] == After(nodes, if j == 0 then |nodes| - 1 else j - 1);
    }
  }

  lemma SomebodyAround(m: Memory, nodes: seq<nat>, k: nat)
    requires k < |nodes|
    ensures ProcAt(m, After(nodes, k)) in View(m, nodes)
  {
    assert View(m, nodes)[if k + 1 < |nodes| then k + 1 else 0] == ProcAt(m, After(nodes, k));
  }

  lemma ViewAt(m: Memory, nodes: seq<nat>, k: nat)
    requires k < |nodes| && nodes[k] in m
    ensures View(m, nodes)[k] == Proc(m[nodes[k]].pid, m[nodes[k]].regs, m[nodes[k]].pending)
  {
  }

  lemma SendAt(r: seq<Proc>, pid: nat, signals: bv32, found: bool, k: nat)
    requires Ring(r) && (found <==> exists p :: p in r && p.pid == pid)
    requires found ==> k < |r| && r[k].pid == pid
    ensures Send(r, pid, signals) == if found then r[k := Pend(r[k], signals)] else r
  {
  }

  lemma SendBounded(r: seq<Proc>, pid: nat, signals: bv32, highest: nat)
    requires forall p :: p in r ==> p.pid <= highest
    ensures forall p :: p in Send(r, pid, signals) ==> p.pid <= highest
  {
  }
}
