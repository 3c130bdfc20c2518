/**
 The allocator as it runs: block headers in memory, the free blocks linked through `next` in
 address order. Each method is proved to do to the tiles what HeapTiles.Step does.
 */
module HeapAllocator {
  import opened HeapTiles

  datatype Header = Header(size: nat, next: nat)

  type Headers = map<nat, Header>

  // ---------- The linked list ----------

  ghost function First(f: seq<Tile>): nat {
    if f == [] then 0 else f[0].addr
  }

  // Addresses are non-null and ascend.
  ghost predicate Ascending(f: seq<Tile>) {
    && (forall i :: 0 <= i < |f| ==> f[i].addr > 0)
    && (forall i, j :: 0 <= i < j < |f| ==> f[i].addr < f[j].addr)
  }

  ghost predicate Node(h: Headers, f: seq<Tile>, i: nat)
    requires i < |f|
  {
    f[i].addr in h && h[f[i].addr] == Header(f[i].size, First(f[i + 1..]))
  }

  // `head` starts a null-terminated list whose nodes are exactly f.
  ghost predicate List(h: Headers, head: nat, f: seq<Tile>) {
    Ascending(f) && head == First(f) && forall i :: 0 <= i < |f| ==> Node(h, f, i)
  }

  // Makes the list enter at `p` after the nodes `before`.
  function Enter(h: Headers, before: nat, p: nat): Headers
    requires before != 0 ==> before in h
  {
    if before == 0 then h else h[before := h[before].(next := p)]
  }

  ghost function Last(f: seq<Tile>): nat {
    if f == [] then 0 else f[|f| - 1].addr
  }

  lemma AscendingSplit(a: seq<Tile>, b: seq<Tile>)
    requires Ascending(a + b)
    ensures Ascending(a) && Ascending(b) && (a != [] && b != [] ==> Last(a) < First(b))
  {
    var f := a + b;
    assert forall i :: 0 <= i < |a| ==> f[i] == a[i];
    assert forall i :: 0 <= i < |b| ==> f[|a| + i] == b[i];
  }

  lemma AscendingJoin(a: seq<Tile>, b: seq<Tile>)
    requires Ascending(a) && Ascending(b) && (a != [] && b != [] ==> Last(a) < First(b))
    ensures Ascending(a + b)
  {
  }

  lemma AscendingOne(y: Tile)
    requires y.addr > 0
    ensures Ascending([y])
  {
  }

  // Replacing the tail b of the list a + b by the list c.
  lemma ListSplice(h: Headers, head: nat, a: seq<Tile>, b: seq<Tile>, h': Headers, c: seq<Tile>)
    requires List(h, head, a + b) && Ascending(a + c)
    requires forall i :: 0 <= i < |c| ==> Node(h', c, i)
    requires forall i :: 0 <= i < |a| ==> a[i].addr in h && a[i].addr in h' && h'[a[i].addr] == h[a[i].addr]
    requires First(c) == 0 || First(c) in h'
    ensures Last(a) != 0 ==> Last(a) in h'
    ensures List(Enter(h', Last(a), First(c)), if a == [] then First(c) else head, a + c)
  {
    var h2, f, f2 := Enter(h', Last(a), First(c)), a + b, a + c;
    if a != [] { assert a[|a| - 1].addr in h'; }
    forall i | 0 <= i < |f2|
      ensures Node(h2, f2, i)
    {
      if i < |a| {
        assert f[i] == a[i] == f2[i];
        assert Node(h, f, i);
        if i + 1 < |a| {
          assert f[i + 1..][0] == a[i + 1] == f2[i + 1..][0];
          assert a[i].addr != Last(a) by { assert f[i].addr < f[|a| - 1].addr; }
        } else {
          assert f2[i + 1..] == c;
        }
      } else {
        assert f2[i] == c[i - |a|] && f2[i + 1..] == c[i - |a| + 1..];
        assert Node(h', c, i - |a|);
        if a != [] { assert f2[|a| - 1].addr < f2[i].addr; }
      }
    }
    if a != [] { assert f[0] == a[0] == f2[0]; }
  }

  lemma ListSuffix(h: Headers, head: nat, a: seq<Tile>, b: seq<Tile>)
    requires List(h, head, a + b)
    ensures Ascending(a + b) && forall i :: 0 <= i < |b| ==> Node(h, b, i)
    ensures forall i :: 0 <= i < |a| ==> a[i].addr in h
  {
    var f := a + b;
    forall i | 0 <= i < |b|
      ensures Node(h, b, i)
    {
      assert Node(h, f, |a| + i);
      assert f[|a| + i..][1..] == b[i + 1..] && f[|a| + i + 1..] == b[i + 1..];
    }
    forall i | 0 <= i < |a|
      ensures a[i].addr in h
    {
      assert Node(h, f, i) && f[i] == a[i];
    }
  }

  // ---------- The list and the tiles ----------

  ghost function IfFree(x: Tile): seq<Tile> {
    if x.free then [x] else []
  }

  ghost function Frees(t: seq<Tile>): seq<Tile> {
    if t == [] then [] else IfFree(t[0]) + Frees(t[1..])
  }

  lemma Assoc(a: seq<Tile>, b: seq<Tile>, c: seq<Tile>)
    ensures (a + b) + c == a + (b + c)
  {
  }

  lemma {:induction false} FreesConcat(a: seq<Tile>, b: seq<Tile>)
    ensures Frees(a + b) == Frees(a) + Frees(b)
  {
    hide IfFree;
    if a == [] {
      assert a + b == b;
    } else {
      FreesConcat(a[1..], b);
      assert (a + b)[0] == a[0] && (a + b)[1..] == a[1..] + b;
      Assoc(IfFree(a[0]), Frees(a[1..]), Frees(b));
    }
  }

  lemma FreesAround(t: seq<Tile>, i: nat)
    requires i < |t|
    ensures Frees(t) == Frees(t[..i]) + (IfFree(t[i]) + Frees(t[i + 1..]))
  {
    hide IfFree;
    assert t == t[..i] + t[i..] && t[i..][0] == t[i] && t[i..][1..] == t[i + 1..];
    FreesConcat(t[..i], t[i..]);
  }

  lemma {:induction false} FreesAscend(t: seq<Tile>)
    requires Ascending(t)
    ensures Ascending(Frees(t))
    ensures forall x :: x in Frees(t) ==> x in t && x.free
  {
    if t != [] {
      FreesAscend(t[1..]);
    }
  }

  // Where in the tiles the p-th free tile is.
  lemma {:induction false} FreeTileAt(t: seq<Tile>, p: nat) returns (i: nat)
    requires p < |Frees(t)|
    ensures i < |t| && t[i].free && t[i] == Frees(t)[p] && Frees(t[..i]) == Frees(t)[..p]
  {
    if t[0].free && p == 0 {
      i := 0;
      assert t[..0] == [];
    } else {
      var q := if t[0].free then p - 1 else p;
      var j := FreeTileAt(t[1..], q);
      i := j + 1;
      assert t[..i][1..] == t[1..][..j];
      assert Frees(t)[..p] == IfFree(t[0]) + Frees(t[1..])[..q];
    }
  }

  ghost predicate Represents(h: Headers, head: nat, t: seq<Tile>) {
    Ascending(t) && List(h, head, Frees(t)) && SizesOf(h, t)
  }

  lemma {:induction false} TilingAscends(t: seq<Tile>, base: nat, limit: nat)
    requires Tiling(t, base, limit) && base > 0
    ensures Ascending(t)
  {
    forall i, j | 0 <= i < j < |t|
      ensures t[i].addr < t[j].addr
    {
      TilesApart(t, base, limit, i, j);
    }
    forall i | 0 <= i < |t|
      ensures t[i].addr > 0
    {
      if i > 0 { TilesApart(t, base, limit, 0, i); }
    }
  }

  lemma {:induction false} FreesContain(t: seq<Tile>, j: nat)
    requires j < |t| && t[j].free
    ensures t[j] in Frees(t)
  {
    FreesAround(t, j);
  }

  // The first list node that fits is the first tile that fits.
  lemma FirstFitIs(t: seq<Tile>, i: nat, need: nat)
    requires i <= |t| && (i < |t| ==> t[i].free && t[i].size >= need)
    requires forall x :: x in Frees(t[..i]) ==> x.size < need
    ensures FirstFit(t, 0, need) == i
  {
    forall j | 0 <= j < i
      ensures !(t[j].free && t[j].size >= need)
    {
      if t[j].free { FreesContain(t[..i], j); }
    }
  }

  // A header write at an address that is no tile's, or a size write at a live tile, keeps the list.
  lemma ListIgnores(h: Headers, head: nat, f: seq<Tile>, a: nat, x: Header)
    requires List(h, head, f) && forall y :: y in f ==> y.addr != a
    ensures List(h[a := x], head, f)
  {
    var h' := h[a := x];
    forall i | 0 <= i < |f|
      ensures Node(h', f, i)
    {
      assert Node(h, f, i) && f[i] in f;
    }
  }

  lemma NodesSuffix(h: Headers, d: seq<Tile>, k: nat)
    requires Ascending(d) && k <= |d| && forall i :: 0 <= i < |d| ==> Node(h, d, i)
    ensures Ascending(d[k..]) && forall i :: 0 <= i < |d[k..]| ==> Node(h, d[k..], i)
    ensures First(d[k..]) == 0 || First(d[k..]) in h
  {
    var b := d[k..];
    forall i | 0 <= i < |b|
      ensures Node(h, b, i)
    {
      assert Node(h, d, k + i) && d[k + i + 1..] == b[i + 1..];
    }
    if b != [] { assert Node(h, b, 0); }
  }

  // The list a + d loses the first k nodes of d.
  lemma ListDrop(h: Headers, head: nat, a: seq<Tile>, d: seq<Tile>, k: nat)
    requires List(h, head, a + d) && k <= |d|
    ensures a != [] ==> Last(a) in h
    ensures List(Enter(h, Last(a), First(d[k..])), if a == [] then First(d[k..]) else head, a + d[k..])
  {
    hide Node, Enter;
    ListSuffix(h, head, a, d);
    AscendingSplit(a, d);
    NodesSuffix(h, d, k);
    AscendingJoin(a, d[k..]);
    ListSplice(h, head, a, d, h, d[k..]);
  }

  // A node put in front of a list that follows it in memory.
  lemma ConsNode(h: Headers, y: Tile, b: seq<Tile>)
    requires Ascending([y] + b) && forall i :: 0 <= i < |b| ==> Node(h, b, i)
    ensures var h', c := h[y.addr := Header(y.size, First(b))], [y] + b;
            forall i :: 0 <= i < |c| ==> Node(h', c, i)
  {
    var h', c := h[y.addr := Header(y.size, First(b))], [y] + b;
    forall i | 0 <= i < |c|
      ensures Node(h', c, i)
    {
      if i > 0 {
        assert Node(h, b, i - 1) && c[i + 1..] == b[i - 1 + 1..] && c[i] == b[i - 1];
        assert c[0].addr < c[i].addr;
      } else {
        assert c[1..] == b;
      }
    }
  }

  // The list a + d gets y in place of the first k nodes of d.
  lemma ListInsert(h: Headers, head: nat, a: seq<Tile>, d: seq<Tile>, k: nat, y: Tile)
    requires List(h, head, a + d) && k <= |d| && y.addr > 0
    requires (a != [] ==> Last(a) < y.addr) && (k < |d| ==> y.addr < d[k].addr)
    ensures a != [] ==> Last(a) in h
    ensures var b := d[k..];
            var h' := h[y.addr := Header(y.size, First(b))];
            List(Enter(h', Last(a), y.addr), if a == [] then y.addr else head, a + ([y] + b))
  {
    hide Node, Enter, List, Ascending;
    var b := d[k..];
    ListSuffix(h, head, a, d);
    AscendingSplit(a, d);
    NodesSuffix(h, d, k);
    AscendingOne(y);
    var h', c := h[y.addr := Header(y.size, First(b))], [y] + b;
    AscendingJoin([y], b);
    AscendingJoin(a, c);
    ConsNode(h, y, b);
    InFront(a, c);
    ListSplice(h, head, a, d, h', c);
  }

  lemma InFront(a: seq<Tile>, c: seq<Tile>)
    requires Ascending(a + c) && c != []
    ensures forall i :: 0 <= i < |a| ==> a[i].addr < c[0].addr
  {
    var f := a + c;
    assert f[|a|] == c[0] && forall i :: 0 <= i < |a| ==> f[i] == a[i];
  }

  // ---------- The effect of each splice on the tiles ----------

  lemma FreesOne(x: Tile)
    ensures Frees([x]) == IfFree(x)
  {
  }

  ghost predicate SizesOf(h: Headers, t: seq<Tile>) {
    forall i :: 0 <= i < |t| ==> t[i].addr in h && h[t[i].addr].size == t[i].size
  }

  lemma EnterKeepsSizes(h: Headers, before: nat, p: nat, t: seq<Tile>)
    requires SizesOf(h, t) && (before != 0 ==> before in h)
    ensures SizesOf(Enter(h, before, p), t)
  {
  }

  // Taking a whole free block off the list.
  lemma TakeWhole(h: Headers, head: nat, t: seq<Tile>, i: nat)
    requires Represents(h, head, t) && i < |t| && t[i].free
    ensures var a := Frees(t[..i]);
            var t' := t[i := t[i].(free := false)];
            && t[i].addr in h && (a != [] ==> Last(a) in h) && (a == [] <==> Last(a) == 0)
            && var p := h[t[i].addr].next;
               Represents(Enter(h, Last(a), p), if a == [] then p else head, t')
  {
    hide List, Enter, Frees, SizesOf, Ascending;
    var a, b := Frees(t[..i]), Frees(t[i + 1..]);
    var t' := t[i := t[i].(free := false)];
    FreesAround(t, i);
    FreesAround(t', i);
    assert t'[..i] == t[..i] && t'[i + 1..] == t[i + 1..] && [] + b == b;
    NextOf(h, head, a, t[i], b);
    ListDrop(h, head, a, [t[i]] + b, 1);
    assert ([t[i]] + b)[1..] == b;
    LastInHeaders(a);
    LastBefore(t, i);
    EnterKeepsSizes(h, Last(a), First(b), t);
    SameShape(t, t', Enter(h, Last(a), First(b)));
  }

  lemma LastInHeaders(a: seq<Tile>)
    ensures a == [] ==> Last(a) == 0
  {
  }

  lemma SameShape(t: seq<Tile>, t': seq<Tile>, h: Headers)
    requires |t| == |t'| && forall i :: 0 <= i < |t| ==> t[i].addr == t'[i].addr && t[i].size == t'[i].size
    requires Ascending(t) && SizesOf(h, t)
    ensures Ascending(t') && SizesOf(h, t')
  {
  }

  lemma NextOf(h: Headers, head: nat, a: seq<Tile>, x: Tile, b: seq<Tile>)
    requires List(h, head, a + ([x] + b))
    ensures x.addr in h && h[x.addr] == Header(x.size, First(b)) && (a != [] ==> Last(a) in h)
  {
    ListSuffix(h, head, a, [x] + b);
    assert Node(h, [x] + b, 0) && ([x] + b)[1..] == b;
  }

  // Splitting: the rest of the block takes its place on the list, and the block shrinks.
  lemma TakeSplit(h: Headers, head: nat, t: seq<Tile>, i: nat, need: nat)
    requires Represents(h, head, t) && i < |t| && t[i].free && 0 < need <= t[i].size - MIN_BLOCK
    requires Ascending(Take(t, i, need))
    ensures var a := Frees(t[..i]);
            && t[i].addr in h && h[t[i].addr].size == t[i].size && (a != [] ==> Last(a) in h && Last(a) != t[i].addr)
            && (a == [] <==> Last(a) == 0)
            && var rest := t[i].addr + need;
               var h1 := Enter(h[rest := Header(t[i].size - need, h[t[i].addr].next)], Last(a), rest);
               && t[i].addr in h1
               && Represents(h1[t[i].addr := h1[t[i].addr].(size := need)], if a == [] then rest else head, Take(t, i, need))
  {
    hide List, Frees, SizesOf, Ascending;
    var a, b, x := Frees(t[..i]), Frees(t[i + 1..]), t[i];
    var y := Tile(x.addr + need, x.size - need, true);
    var taken := Tile(x.addr, need, false);
    var t' := Take(t, i, need);
    FreesAround(t, i);
    NextOf(h, head, a, x, b);
    BetweenNeighbours(t, i, need);
    ListInsert(h, head, a, [x] + b, 1, y);
    assert ([x] + b)[1..] == b;
    LastInHeaders(a);
    var h0 := h[y.addr := Header(y.size, First(b))];
    var h1 := Enter(h0, Last(a), y.addr);
    var head' := if a == [] then y.addr else head;
    FreesOfTake(t, i, need);
    NotListed(t', i);
    ListIgnores(h1, head', a + ([y] + b), x.addr, h1[x.addr].(size := need));
    SizesAfterSplit(h, t, i, need, Last(a), First(b));
  }

  lemma FreesOfTake(t: seq<Tile>, i: nat, need: nat)
    requires i < |t| && t[i].free && 0 < need <= t[i].size - MIN_BLOCK
    ensures Frees(Take(t, i, need)) == Frees(t[..i]) + ([Tile(t[i].addr + need, t[i].size - need, true)] + Frees(t[i + 1..]))
  {
    var t' := Take(t, i, need);
    FreesAround(t', i);
    assert t'[..i] == t[..i];
    var r := t'[i + 1..];
    assert r[0] == Tile(t[i].addr + need, t[i].size - need, true) && r[1..] == t[i + 1..];
    assert Frees(r) == IfFree(r[0]) + Frees(r[1..]);
    assert [] + Frees(r) == Frees(r);
  }

  // A live tile's address is not on the list.
  lemma NotListed(t: seq<Tile>, i: nat)
    requires Ascending(t) && i < |t| && !t[i].free
    ensures forall y :: y in Frees(t) ==> y.addr != t[i].addr
  {
    hide Ascending;
    FreesAscend(t);
    forall y | y in Frees(t)
      ensures y.addr != t[i].addr
    {
      var j :| 0 <= j < |t| && t[j] == y;
      AddressesDiffer(t, i, j);
    }
  }

  lemma AddressesDiffer(t: seq<Tile>, i: nat, j: nat)
    requires Ascending(t) && i < |t| && j < |t| && i != j
    ensures t[i].addr != t[j].addr
  {
  }

  lemma AddressOrder(t: seq<Tile>, i: nat, j: nat)
    requires Ascending(t) && i <= j < |t|
    ensures 0 < t[i].addr <= t[j].addr
  {
  }

  lemma {:induction false} FreesMembers(t: seq<Tile>)
    ensures forall x :: x in Frees(t) ==> x in t && x.free
  {
    if t != [] { FreesMembers(t[1..]); }
  }

  lemma MembersAround(t: seq<Tile>, i: nat, x: Tile)
    requires Ascending(t) && i < |t|
    ensures x in t[..i] ==> 0 < x.addr < t[i].addr
    ensures x in t[i + 1..] ==> x.addr > t[i].addr
  {
  }

  lemma LastBefore(t: seq<Tile>, i: nat)
    requires Ascending(t) && i < |t|
    ensures Frees(t[..i]) != [] ==> 0 < Last(Frees(t[..i])) < t[i].addr
    ensures Frees(t[i + 1..]) != [] ==> First(Frees(t[i + 1..])) > t[i].addr
  {
    hide Ascending, Frees;
    var a, b := Frees(t[..i]), Frees(t[i + 1..]);
    FreesMembers(t[..i]);
    FreesMembers(t[i + 1..]);
    if a != [] { MembersAround(t, i, a[|a| - 1]); }
    if b != [] { MembersAround(t, i, b[0]); }
  }

  lemma BetweenNeighbours(t: seq<Tile>, i: nat, need: nat)
    requires Ascending(t) && i < |t| && t[i].free && 0 < need <= t[i].size - MIN_BLOCK && Ascending(Take(t, i, need))
    ensures var a, b, y := Frees(t[..i]), Frees(t[i + 1..]), t[i].addr + need;
            y > 0 && (a != [] ==> 0 < Last(a) < t[i].addr) && (b != [] ==> y < First(b))
  {
    hide Frees, First, Last;
    var t' := Take(t, i, need);
    LastBefore(t, i);
    LastBefore(t', i + 1);
    assert t'[i + 2..] == t[i + 1..];
  }

  lemma SizesAfterSplit(h: Headers, t: seq<Tile>, i: nat, need: nat, before: nat, next: nat)
    requires SizesOf(h, t) && i < |t| && t[i].free && 0 < need <= t[i].size - MIN_BLOCK
    requires Ascending(t) && Ascending(Take(t, i, need)) && (before != 0 ==> before in h && before != t[i].addr)
    ensures var y := t[i].addr + need;
            var h1 := Enter(h[y := Header(t[i].size - need, next)], before, y);
            t[i].addr in h1 && SizesOf(h1[t[i].addr := h1[t[i].addr].(size := need)], Take(t, i, need))
  {
    hide Ascending, Enter;
    var x, y := t[i].addr, t[i].addr + need;
    var h0 := h[y := Header(t[i].size - need, next)];
    var h1 := Enter(h0, before, y);
    EnterSizes(h0, before, y);
    var h2 := h1[x := h1[x].(size := need)];
    var t' := Take(t, i, need);
    forall j | 0 <= j < |t'|
      ensures t'[j].addr in h2 && h2[t'[j].addr].size == t'[j].size
    {
      if j > i + 1 { assert t'[j] == t[j - 1]; }
      if j != i { AddressesDiffer(t', i, j); }
      if j != i + 1 { AddressesDiffer(t', i + 1, j); }
    }
  }

  lemma EnterSizes(h: Headers, before: nat, p: nat)
    requires before != 0 ==> before in h
    ensures Enter(h, before, p).Keys == h.Keys && forall a :: a in h ==> Enter(h, before, p)[a].size == h[a].size
  {
  }

  // Freeing, first step: the block enters the list between its neighbours.
  lemma InsertBlock(h: Headers, head: nat, t: seq<Tile>, i: nat)
    requires Represents(h, head, t) && i < |t| && !t[i].free
    ensures var a, b := Frees(t[..i]), Frees(t[i + 1..]);
            var h0 := h[t[i].addr := Header(t[i].size, First(b))];
            && (a != [] ==> Last(a) in h0 && Last(a) != t[i].addr) && (a == [] <==> Last(a) == 0)
            && Represents(Enter(h0, Last(a), t[i].addr), if a == [] then t[i].addr else head, t[i := t[i].(free := true)])
  {
    hide List, Frees, SizesOf, Ascending;
    var a, b := Frees(t[..i]), Frees(t[i + 1..]);
    var t' := t[i := t[i].(free := true)];
    var h0 := h[t[i].addr := Header(t[i].size, First(b))];
    FreesAround(t, i);
    FreesAround(t', i);
    assert t'[..i] == t[..i] && t'[i + 1..] == t[i + 1..] && [] + b == b && b[0..] == b;
    LastBefore(t, i);
    AddressOrder(t, i, i);
    ListInsert(h, head, a, b, 0, t'[i]);
    LastInHeaders(a);
    RewriteKeepsSizes(h, t, i, First(b));
    EnterKeepsSizes(h0, Last(a), t[i].addr, t);
    SameShape(t, t', Enter(h0, Last(a), t[i].addr));
  }

  lemma RewriteKeepsSizes(h: Headers, t: seq<Tile>, i: nat, next: nat)
    requires SizesOf(h, t) && i < |t|
    ensures SizesOf(h[t[i].addr := Header(t[i].size, next)], t)
  {
  }

  // Freeing, later steps: two free neighbours become one node.
  lemma MergeBlocks(h: Headers, head: nat, t: seq<Tile>, i: nat)
    requires Represents(h, head, t) && i + 1 < |t| && t[i].free && t[i + 1].free && Ascending(Merge(t, i))
    ensures var x, y := t[i].addr, t[i + 1].addr;
            x in h && y in h && Represents(h[x := Header(h[x].size + h[y].size, h[y].next)], head, Merge(t, i))
  {
    hide List, SizesOf, Ascending, IfFree, Merge;
    var x, y, a, b := t[i], t[i + 1], Frees(t[..i]), Frees(t[i + 2..]);
    var d := [x] + ([y] + b);
    FreesOfPair(t, i);
    NextOf(h, head, a, x, [y] + b);
    Assoc(a, [x], [y] + b);
    NextOf(h, head, a + [x], y, b);
    var xy := Tile(x.addr, x.size + y.size, true);
    LastBefore(t, i);
    AddressOrder(t, i, i);
    MergedBelow(t, i);
    ListInsert(h, head, a, d, 2, xy);
    assert d[2..] == b;
    EnterAgain(h, head, a, d, Header(x.size + y.size, First(b)));
    SizesAfterMerge(h, t, i, First(b));
  }

  lemma FreesOfPair(t: seq<Tile>, i: nat)
    requires i + 1 < |t| && t[i].free && t[i + 1].free
    ensures var x, y, a, b := t[i], t[i + 1], Frees(t[..i]), Frees(t[i + 2..]);
            && Frees(t) == a + ([x] + ([y] + b))
            && Frees(Merge(t, i)) == a + ([Tile(x.addr, x.size + y.size, true)] + b)
  {
    FreesAround(t, i);
    var r := t[i + 1..];
    assert r[0] == t[i + 1] && r[1..] == t[i + 2..];
    assert Frees(r) == IfFree(r[0]) + Frees(r[1..]);
    var m := Merge(t, i);
    FreesAround(m, i);
    assert m[..i] == t[..i] && m[i + 1..] == t[i + 2..];
  }

  lemma MergedBelow(t: seq<Tile>, i: nat)
    requires Ascending(t) && i + 1 < |t|
    ensures Frees(t[i + 2..]) != [] ==> First(Frees(t[i + 2..])) > t[i].addr
  {
    hide Ascending, Frees, First;
    LastBefore(t, i + 1);
    AddressOrder(t, i, i + 1);
  }

  // Entering where the list already enters changes nothing.
  lemma EnterAgain(h: Headers, head: nat, a: seq<Tile>, d: seq<Tile>, z: Header)
    requires List(h, head, a + d) && d != [] && (a != [] ==> Last(a) < d[0].addr)
    ensures a != [] ==> Last(a) in h
    ensures Enter(h[d[0].addr := z], Last(a), d[0].addr) == h[d[0].addr := z]
    ensures head == if a == [] then d[0].addr else head
  {
    var f := a + d;
    if a != [] {
      assert f[|a| - 1] == a[|a| - 1] && f[|a|..] == d;
      assert Node(h, f, |a| - 1);
    }
  }

  lemma SizesAfterMerge(h: Headers, t: seq<Tile>, i: nat, next: nat)
    requires SizesOf(h, t) && i + 1 < |t| && Ascending(Merge(t, i))
    ensures SizesOf(h[t[i].addr := Header(t[i].size + t[i + 1].size, next)], Merge(t, i))
  {
    var h', m := h[t[i].addr := Header(t[i].size + t[i + 1].size, next)], Merge(t, i);
    forall j | 0 <= j < |m|
      ensures m[j].addr in h' && h'[m[j].addr].size == m[j].size
    {
      if j != i {
        AddressesDiffer(m, i, j);
        assert m[j] == if j < i then t[j] else t[j + 1];
      }
    }
  }

  // ---------- Walking the list ----------

  lemma ListStart(h: Headers, head: nat, f: seq<Tile>)
    requires List(h, head, f)
    ensures head == First(f[0..]) && Last(f[..0]) == 0
  {
  }

  lemma ListAt(h: Headers, head: nat, f: seq<Tile>, p: nat)
    requires List(h, head, f) && p <= |f|
    ensures First(f[p..]) == 0 <==> p == |f|
    ensures p < |f| ==> && First(f[p..]) == f[p].addr && f[p].addr in h
                        && h[f[p].addr] == Header(f[p].size, First(f[p + 1..]))
                        && Last(f[..p + 1]) == f[p].addr && f[..p + 1] == f[..p] + [f[p]]
  {
    if p < |f| { assert Node(h, f, p); }
  }

  // The list order is the tile order: what precedes address a on the list precedes it in memory.
  lemma SplitAt(t: seq<Tile>, i: nat, p: nat)
    requires Ascending(t) && i < |t| && !t[i].free && p <= |Frees(t)|
    requires forall x :: x in Frees(t)[..p] ==> x.addr < t[i].addr
    requires p < |Frees(t)| ==> Frees(t)[p].addr >= t[i].addr
    ensures Frees(t)[..p] == Frees(t[..i]) && Frees(t)[p..] == Frees(t[i + 1..])
  {
    hide Frees, Ascending;
    var a, b, f := Frees(t[..i]), Frees(t[i + 1..]), Frees(t);
    FreesAround(t, i);
    assert [] + b == b;
    FreesMembers(t[..i]);
    FreesMembers(t[i + 1..]);
    if p < |a| {
      assert f[p] == a[p];
      MembersAround(t, i, a[p]);
    } else if p > |a| {
      assert f[|a|] == b[0] && f[|a|] in f[..p];
      MembersAround(t, i, b[0]);
    }
  }

  // ---------- The allocator ----------

  class Allocator {
    const base: nat
    const limit: nat
    var headers: Headers
    var head: nat
    ghost var tiles: seq<Tile>

    ghost predicate Valid()
      reads this
    {
      base > 0 && Heap(tiles, base, limit) && Represents(headers, head, tiles)
    }

    // The state between the steps of a free: tiled and linked, but perhaps not coalesced.
    ghost predicate Loose()
      reads this
    {
      base > 0 && Tiling(tiles, base, limit) && Represents(headers, head, tiles)
    }

    // allocator_heap_init leaves one free block that covers the heap.
    constructor (start: nat, size: nat)
      requires start > 0 && start % 8 == 0 && size % 8 == 0 && size >= 24
      ensures Valid() && tiles == [Tile(start, size, true)] && base == start && limit == start + size
    {
      base, limit := start, start + size;
      headers, head := map[start := Header(size, 0)], start;
      tiles := [Tile(start, size, true)];
      new;
      FreesOne(tiles[0]);
      assert Frees(tiles) == [Tile(start, size, true)];
      assert Node(headers, Frees(tiles), 0);
    }

    // First fit along the list, splitting the block when the rest can hold another.
    method Malloc(size: nat) returns (ptr: nat)
      requires Valid() && size + HEADER + ALIGN - 1 < WORD
      modifies this
      ensures Valid() && (tiles, ptr) == Step(old(tiles), HeapTiles.Malloc(size))
    {
      hide List, Ascending, Frees, SizesOf, Heap, Need, Take, First, Last;
      if size == 0 { return 0; }
      var need := Need(size);
      NeedCoversRequest(size);
      ghost var f := Frees(tiles);
      ListStart(headers, head, f);
      var prev, curr := 0, head;
      ghost var p := 0;
      while curr != 0
        invariant Valid() && tiles == old(tiles) && headers == old(headers) && head == old(head)
        invariant p <= |f| && curr == First(f[p..]) && prev == Last(f[..p])
        invariant forall x :: x in f[..p] ==> x.size < need
        decreases |f| - p
      {
        ListAt(headers, head, f, p);
        if headers[curr].size >= need {
          ghost var i := FreeTileAt(tiles, p);
          FirstFitIs(tiles, i, need);
          TakeFrom(i, need, prev, curr);
          return curr + HEADER;
        }
        prev, curr := curr, headers[curr].next;
        p := p + 1;
      }
      ListAt(headers, head, f, p);
      assert tiles[..|tiles|] == tiles && f[..p] == f;
      FirstFitIs(tiles, |tiles|, need);
      return 0;
    }

    method TakeFrom(ghost i: nat, need: nat, prev: nat, curr: nat)
      requires Valid() && i < |tiles| && tiles[i].free && curr == tiles[i].addr && prev == Last(Frees(tiles[..i]))
      requires need % ALIGN == 0 && need >= MIN_BLOCK && tiles[i].size >= need
      requires curr in headers && headers[curr].size == tiles[i].size
      modifies this
      ensures Valid() && tiles == Take(old(tiles), i, need)
    {
      hide List, Ascending, Frees, SizesOf, First, Last, Tiling, Coalesced;
      TakeKeepsHeap(tiles, base, limit, i, need);
      TilingAscends(Take(tiles, i, need), base, limit);
      if headers[curr].size - need >= MIN_BLOCK {
        TakeSplit(headers, head, tiles, i, need);
        var next := curr + need;
        headers := headers[next := Header(headers[curr].size - need, headers[curr].next)];
        if prev != 0 { headers := headers[prev := headers[prev].(next := next)]; } else { head := next; }
        headers := headers[curr := headers[curr].(size := need)];
      } else {
        TakeWhole(headers, head, tiles, i);
        if prev != 0 { headers := headers[prev := headers[prev].(next := headers[curr].next)]; } else { head := headers[curr].next; }
      }
      tiles := Take(tiles, i, need);
    }

    // Back into the list in address order, then merged with the free neighbours.
    method Free(ptr: nat)
      requires Valid() && Allowed(tiles, HeapTiles.Free(ptr))
      modifies this
      ensures Valid() && tiles == Step(old(tiles), HeapTiles.Free(ptr)).0
    {
      hide List, Ascending, Frees, SizesOf, First, Last, Tiling, Coalesced, Merge;
      if ptr == 0 { return; }
      ghost var i := Find(tiles, ptr);
      ReleaseKeepsHeap(tiles, base, limit, i);
      ghost var was := tiles;
      var blk := ptr - HEADER;
      ghost var f := Frees(tiles);
      ListStart(headers, head, f);
      var prev, curr := 0, head;
      ghost var p := 0;
      while curr != 0 && curr < blk
        invariant Valid() && tiles == old(tiles) && headers == old(headers) && head == old(head)
        invariant p <= |f| && curr == First(f[p..]) && prev == Last(f[..p])
        invariant forall x :: x in f[..p] ==> x.addr < blk
        decreases |f| - p
      {
        ListAt(headers, head, f, p);
        prev, curr := curr, headers[curr].next;
        p := p + 1;
      }
      ListAt(headers, head, f, p);
      SplitAt(tiles, i, p);
      Insert(i, blk, prev, curr);
      CoalesceNext(i, blk);
      CoalescePrev(i, prev, blk);
      assert tiles == Release(was, i);
    }

    method Insert(ghost i: nat, blk: nat, prev: nat, curr: nat)
      requires Loose() && i < |tiles| && !tiles[i].free && blk == tiles[i].addr
      requires prev == Last(Frees(tiles[..i])) && curr == First(Frees(tiles[i + 1..]))
      modifies this
      ensures Loose() && tiles == old(tiles)[i := old(tiles)[i].(free := true)]
      ensures Frees(tiles[..i]) == old(Frees(tiles[..i]))
    {
      hide List, Ascending, Frees, First, Last, Tiling;
      assert blk in headers && headers[blk].size == tiles[i].size;
      InsertBlock(headers, head, tiles, i);
      FlipKeepsTiling(tiles, base, limit, i, true);
      headers := headers[blk := headers[blk].(next := curr)];
      if prev != 0 { headers := headers[prev := headers[prev].(next := blk)]; } else { head := blk; }
      tiles := tiles[i := tiles[i].(free := true)];
      assert tiles[..i] == old(tiles)[..i];
    }

    method CoalesceNext(ghost i: nat, blk: nat)
      requires Loose() && i < |tiles| && tiles[i].free && blk == tiles[i].addr
      modifies this
      ensures Loose() && i < |tiles| && tiles[i].free && blk == tiles[i].addr && tiles[..i] == old(tiles)[..i]
      ensures tiles == if i + 1 < |old(tiles)| && old(tiles)[i + 1].free then Merge(old(tiles), i) else old(tiles)
    {
      hide List, Ascending, Frees, First, Last, Tiling;
      NextAdjacent(headers, head, tiles, base, limit, i);
      if headers[blk].next != 0 && blk + headers[blk].size == headers[blk].next {
        MergeKeepsTiling(tiles, base, limit, i);
        TilingAscends(Merge(tiles, i), base, limit);
        MergeBlocks(headers, head, tiles, i);
        var next := headers[blk].next;
        headers := headers[blk := Header(headers[blk].size + headers[next].size, headers[next].next)];
        tiles := Merge(tiles, i);
      }
    }

    method CoalescePrev(ghost i: nat, prev: nat, blk: nat)
      requires Loose() && i < |tiles| && tiles[i].free && blk == tiles[i].addr && prev == Last(Frees(tiles[..i]))
      modifies this
      ensures Loose()
      ensures tiles == if i > 0 && old(tiles)[i - 1].free then Merge(old(tiles), i - 1) else old(tiles)
    {
      hide List, Ascending, Frees, First, Last, Tiling;
      PrevAdjacent(headers, head, tiles, base, limit, i);
      if prev != 0 && prev + headers[prev].size == blk {
        MergeKeepsTiling(tiles, base, limit, i - 1);
        TilingAscends(Merge(tiles, i - 1), base, limit);
        MergeBlocks(headers, head, tiles, i - 1);
        headers := headers[prev := Header(headers[prev].size + headers[blk].size, headers[blk].next)];
        tiles := Merge(tiles, i - 1);
      }
    }
  }

  // The next node starts where the block ends exactly when the next tile is free.
  lemma NextAdjacent(h: Headers, head: nat, t: seq<Tile>, base: nat, limit: nat, i: nat)
    requires Tiling(t, base, limit) && Represents(h, head, t) && i < |t| && t[i].free
    ensures var blk := t[i].addr;
            && blk in h
            && (h[blk].next != 0 && blk + h[blk].size == h[blk].next <==> i + 1 < |t| && t[i + 1].free)
            && (i + 1 < |t| && t[i + 1].free ==> h[blk].next == t[i + 1].addr && h[blk].next in h)
  {
    hide List, Ascending, Sized;
    FreesAround(t, i);
    NextOf(h, head, Frees(t[..i]), t[i], Frees(t[i + 1..]));
    var r := t[i + 1..];
    if r != [] {
      assert Frees(r) == IfFree(r[0]) + Frees(r[1..]) && r[1..] == t[i + 2..];
      AddressOrder(t, i + 1, i + 1);
      if !r[0].free {
        assert Frees(r) == Frees(t[i + 2..]);
        LastBefore(t, i + 1);
      }
    }
  }

  // The previous node ends where the block starts exactly when the previous tile is free.
  lemma PrevAdjacent(h: Headers, head: nat, t: seq<Tile>, base: nat, limit: nat, i: nat)
    requires Tiling(t, base, limit) && Represents(h, head, t) && i < |t|
    ensures var blk, prev := t[i].addr, Last(Frees(t[..i]));
            && (prev != 0 ==> prev in h) && blk in h
            && (prev != 0 && prev + h[prev].size == blk <==> i > 0 && t[i - 1].free)
            && (i > 0 && t[i - 1].free ==> prev == t[i - 1].addr)
  {
    hide List, Ascending, Sized, Frees, Last;
    AddressOrder(t, i, i);
    if Frees(t[..i]) != [] {
      var j := LastAmong(t, i);
      AddressOrder(t, j, j);
      if j + 1 < i {
        TilesApart(t, base, limit, j, i - 1);
        AddressOrder(t, i - 1, i);
        AddressesDiffer(t, i - 1, i);
      }
    } else {
      assert Last([]) == 0 by { NoneLast(); }
    }
    if i > 0 && t[i - 1].free {
      LastFree(t, i);
      AddressOrder(t, i - 1, i - 1);
    }
  }

  lemma NoneLast()
    ensures Last([]) == 0
  {
  }

  lemma LastAmong(t: seq<Tile>, i: nat) returns (j: nat)
    requires i <= |t| && Frees(t[..i]) != []
    ensures j < i && t[j].free && Last(Frees(t[..i])) == t[j].addr
  {
    hide Frees;
    var a := Frees(t[..i]);
    FreesMembers(t[..i]);
    var x := a[|a| - 1];
    assert x in t[..i];
    j :| 0 <= j < i && t[..i][j] == x;
  }

  lemma LastFree(t: seq<Tile>, i: nat)
    requires 0 < i <= |t| && t[i - 1].free
    ensures Last(Frees(t[..i])) == t[i - 1].addr
  {
    FreesAround(t[..i], i - 1);
    assert t[..i][i..] == [];
  }
}
