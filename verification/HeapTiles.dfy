/**
 The heap as a row of tiles: in address order, free and live blocks that cover the heap without
 gap or overlap, never two free ones side by side. First-fit allocation splits a tile; freeing
 merges with the free neighbours.
 */
module HeapTiles {
  const HEADER := 16
  const ALIGN := 8
  const MIN_BLOCK := 24
  const WORD := 0x1_0000_0000_0000_0000

  datatype Tile = Tile(addr: nat, size: nat, free: bool)

  predicate Sized(t: Tile) {
    t.addr % ALIGN == 0 && t.size % ALIGN == 0 && t.size >= MIN_BLOCK
  }

  // Every byte of [base, limit) is in exactly one tile.
  ghost predicate Tiling(t: seq<Tile>, base: nat, limit: nat) {
    && |t| > 0 && t[0].addr == base && t[|t| - 1].addr + t[|t| - 1].size == limit
    && (forall i :: 0 <= i < |t| ==> Sized(t[i]))
    && (forall i, j :: 0 <= i < j < |t| && j == i + 1 ==> t[i].addr + t[i].size == t[j].addr)
  }

  ghost predicate Coalesced(t: seq<Tile>) {
    forall i, j :: 0 <= i < j < |t| && j == i + 1 ==> !(t[i].free && t[j].free)
  }

  ghost predicate Heap(t: seq<Tile>, base: nat, limit: nat) {
    Tiling(t, base, limit) && Coalesced(t)
  }

  lemma NotBothFree(t: seq<Tile>, i: nat)
    requires Coalesced(t) && i + 1 < |t|
    ensures !(t[i].free && t[i + 1].free)
  {
  }

  // ---------- Request sizes ----------

  // Header plus request, rounded up to the alignment, in 64-bit arithmetic.
  function Need(size: nat): nat {
    ((size + HEADER) % WORD + ALIGN - 1) % WORD / ALIGN * ALIGN
  }

  // The rounded request covers header and payload exactly when it does not wrap.
  lemma NeedCoversRequest(size: nat)
    requires 0 < size < WORD
    ensures Need(size) >= size + 16 <==> size + 23 < WORD
    ensures size + 23 < WORD ==> Need(size) % 8 == 0 && 24 <= Need(size) < size + 24
  {
  }

  // Then a whole number of words holds it exactly when it holds header and payload.
  lemma NeedLeast(size: nat, n: nat)
    requires 0 < size && size + 23 < WORD && n % 8 == 0
    ensures n >= Need(size) <==> n >= size + 16
  {
    hide Need;
    NeedCoversRequest(size);
  }

  // A request just below 2^64 asks for a block of no bytes at all.
  lemma NeedWraps()
    ensures Need(WORD - HEADER) == 0
  {
  }

  // ---------- Allocation ----------

  // The first free tile at or after i that is large enough, or |t|.
  function FirstFit(t: seq<Tile>, i: nat, need: nat): (k: nat)
    requires i <= |t|
    ensures i <= k <= |t|
    ensures k < |t| ==> t[k].free && t[k].size >= need
    ensures forall j :: i <= j < k ==> !(t[j].free && t[j].size >= need)
    decreases |t| - i
  {
    if i == |t| || (t[i].free && t[i].size >= need) then i else FirstFit(t, i + 1, need)
  }

  function Take(t: seq<Tile>, i: nat, need: nat): (r: seq<Tile>)
    requires i < |t| && t[i].size >= need
    ensures |r| == |t| + if t[i].size - need >= MIN_BLOCK then 1 else 0
    ensures forall j :: 0 <= j < i ==> r[j] == t[j]
    ensures forall j :: i + 1 <= j < |t| ==> r[j + |r| - |t|] == t[j]
  {
    if t[i].size - need >= MIN_BLOCK then
      t[..i] + [Tile(t[i].addr, need, false), Tile(t[i].addr + need, t[i].size - need, true)] + t[i + 1..]
    else t[i := t[i].(free := false)]
  }

  lemma TakeKeepsHeap(t: seq<Tile>, base: nat, limit: nat, i: nat, need: nat)
    requires Heap(t, base, limit) && i < |t| && t[i].free && t[i].size >= need
    requires need % ALIGN == 0 && need >= MIN_BLOCK
    ensures Heap(Take(t, i, need), base, limit)
    ensures Take(t, i, need)[i].addr == t[i].addr && !Take(t, i, need)[i].free && Take(t, i, need)[i].size >= need
  {
    hide Coalesced, Sized;
    TakeKeepsTiling(t, base, limit, i, need);
    TakeCoalesced(t, i, need);
  }

  lemma TakeCoalesced(t: seq<Tile>, i: nat, need: nat)
    requires Coalesced(t) && i < |t| && t[i].free && t[i].size >= need
    ensures Coalesced(Take(t, i, need))
  {
  }

  lemma TakeKeepsTiling(t: seq<Tile>, base: nat, limit: nat, i: nat, need: nat)
    requires Tiling(t, base, limit) && i < |t| && Sized(t[i]) && t[i].size >= need
    requires need % ALIGN == 0 && need >= MIN_BLOCK
    ensures Tiling(Take(t, i, need), base, limit)
  {
    hide Sized, Tiling;
    if t[i].size - need >= MIN_BLOCK {
      SizedParts(t[i], need);
      SplitKeepsTiling(t, base, limit, i, Tile(t[i].addr, need, false), Tile(t[i].addr + need, t[i].size - need, true));
    } else {
      FlipKeepsTiling(t, base, limit, i, false);
    }
  }

  lemma FlipKeepsTiling(t: seq<Tile>, base: nat, limit: nat, i: nat, free: bool)
    requires Tiling(t, base, limit) && i < |t|
    ensures Tiling(t[i := t[i].(free := free)], base, limit)
  {
  }

  lemma SplitKeepsTiling(t: seq<Tile>, base: nat, limit: nat, i: nat, a: Tile, b: Tile)
    requires Tiling(t, base, limit) && i < |t| && Sized(a) && Sized(b)
    requires a.addr == t[i].addr && a.addr + a.size == b.addr && b.addr + b.size == t[i].addr + t[i].size
    ensures Tiling(t[..i] + [a, b] + t[i + 1..], base, limit)
  {
  }

  lemma SizedParts(t: Tile, need: nat)
    requires Sized(t) && need % ALIGN == 0 && MIN_BLOCK <= need <= t.size - MIN_BLOCK
    ensures Sized(Tile(t.addr, need, false)) && Sized(Tile(t.addr + need, t.size - need, true))
  {
  }

  lemma SizedSum(s: Tile, t: Tile)
    requires Sized(s) && Sized(t)
    ensures Sized(Tile(s.addr, s.size + t.size, true))
  {
  }

  // ---------- Freeing ----------

  function Merge(t: seq<Tile>, i: nat): (r: seq<Tile>)
    requires i + 1 < |t|
    ensures |r| == |t| - 1
    ensures forall j :: 0 <= j < i ==> r[j] == t[j]
    ensures forall j :: i < j < |r| ==> r[j] == t[j + 1]
  {
    t[..i] + [Tile(t[i].addr, t[i].size + t[i + 1].size, true)] + t[i + 2..]
  }

  function Release(t: seq<Tile>, i: nat): (r: seq<Tile>)
    requires i < |t|
  {
    var t1 := t[i := t[i].(free := true)];
    var t2 := if i + 1 < |t| && t[i + 1].free then Merge(t1, i) else t1;
    if i > 0 && t[i - 1].free then Merge(t2, i - 1) else t2
  }

  lemma MergeKeepsTiling(t: seq<Tile>, base: nat, limit: nat, i: nat)
    requires Tiling(t, base, limit) && i + 1 < |t|
    ensures Tiling(Merge(t, i), base, limit)
  {
    hide Sized;
    SizedSum(t[i], t[i + 1]);
    var r := Merge(t, i);
    assert r[i].addr == t[i].addr && r[i].addr + r[i].size == t[i + 1].addr + t[i + 1].size;
  }

  lemma ReleaseKeepsHeap(t: seq<Tile>, base: nat, limit: nat, i: nat)
    requires Heap(t, base, limit) && i < |t| && !t[i].free
    ensures Heap(Release(t, i), base, limit)
  {
    hide Sized, Coalesced, Merge;
    var t1 := t[i := t[i].(free := true)];
    var t2 := if i + 1 < |t| && t[i + 1].free then Merge(t1, i) else t1;
    FlipKeepsTiling(t, base, limit, i, true);
    if i + 1 < |t| && t[i + 1].free { MergeKeepsTiling(t1, base, limit, i); }
    if i > 0 && t[i - 1].free { MergeKeepsTiling(t2, base, limit, i - 1); }
    ReleaseCoalesced(t, i);
  }

  lemma ReleaseCoalesced(t: seq<Tile>, i: nat)
    requires Coalesced(t) && i < |t|
    ensures Coalesced(Release(t, i))
  {
  }

  // Freeing what was just allocated gives back the very same tiles.
  lemma ReleaseUndoesTake(t: seq<Tile>, base: nat, limit: nat, i: nat, need: nat)
    requires Heap(t, base, limit) && i < |t| && t[i].free && t[i].size >= need
    ensures Release(Take(t, i, need), i) == t
  {
    hide Sized;
    var r := Take(t, i, need);
    if i > 0 { assert !t[i - 1].free; }
    if t[i].size - need >= MIN_BLOCK {
      assert Merge(r[i := r[i].(free := true)], i) == t;
    } else {
      if i + 1 < |t| { assert !t[i + 1].free; }
      assert r[i := r[i].(free := true)] == t;
    }
  }

  // ---------- Consequences of the shape ----------

  lemma {:induction false} TilesApart(t: seq<Tile>, base: nat, limit: nat, i: nat, j: nat)
    requires Tiling(t, base, limit) && i < j < |t|
    ensures t[i].addr + t[i].size <= t[j].addr
    decreases j
  {
    if i + 1 < j { TilesApart(t, base, limit, i, j - 1); }
  }

  // With nothing live, one free tile covers the whole heap.
  lemma AllFreeIsOneTile(t: seq<Tile>, base: nat, limit: nat)
    requires Heap(t, base, limit) && forall i :: 0 <= i < |t| ==> t[i].free
    ensures base < limit && t == [Tile(base, limit - base, true)]
  {
    if |t| > 1 { NotBothFree(t, 0); }
  }

  // ---------- Runs ----------

  datatype Op = Malloc(size: nat) | Free(ptr: nat)

  // The tile whose payload starts at ptr, or |t|.
  function Find(t: seq<Tile>, ptr: nat): (i: nat)
    ensures i <= |t|
    ensures i < |t| ==> t[i].addr + HEADER == ptr
    ensures i == |t| ==> forall j :: 0 <= j < |t| ==> t[j].addr + HEADER != ptr
  {
    if t == [] then 0
    else if t[0].addr + HEADER == ptr then 0
    else Find(t[1..], ptr) + 1
  }

  // What callers owe: requests that do not wrap, and only live blocks (or null) freed.
  predicate Allowed(t: seq<Tile>, op: Op) {
    match op
    case Malloc(size) => size + HEADER + ALIGN - 1 < WORD
    case Free(ptr) => ptr == 0 || (Find(t, ptr) < |t| && !t[Find(t, ptr)].free)
  }

  // New tiles and the pointer returned; 0 is null.
  function Step(t: seq<Tile>, op: Op): (r: (seq<Tile>, nat))
    requires Allowed(t, op)
  {
    match op
    case Malloc(size) =>
      var i := FirstFit(t, 0, Need(size));
      if size == 0 || i == |t| then (t, 0) else (Take(t, i, Need(size)), t[i].addr + HEADER)
    case Free(ptr) => if ptr == 0 then (t, 0) else (Release(t, Find(t, ptr)), 0)
  }

  lemma StepKeepsHeap(t: seq<Tile>, base: nat, limit: nat, op: Op)
    requires Heap(t, base, limit) && Allowed(t, op)
    ensures Heap(Step(t, op).0, base, limit)
  {
    hide Heap, Take, Release, Need;
    match op
    case Malloc(size) =>
      var i := FirstFit(t, 0, Need(size));
      if size != 0 && i < |t| {
        NeedCoversRequest(size);
        TakeKeepsHeap(t, base, limit, i, Need(size));
      }
    case Free(ptr) =>
      if ptr != 0 { ReleaseKeepsHeap(t, base, limit, Find(t, ptr)); }
  }

  // ---------- Live blocks ----------

  // The blocks callers hold: address and size of every tile that is not free.
  ghost function Lives(t: seq<Tile>): set<Tile> {
    set x | x in t && !x.free
  }

  ghost predicate Apart(x: Tile, y: Tile) {
    x.addr + x.size <= y.addr || y.addr + y.size <= x.addr
  }

  lemma TilesDistinct(t: seq<Tile>, base: nat, limit: nat, i: nat, j: nat)
    requires Tiling(t, base, limit) && i < |t| && j < |t| && i != j
    ensures t[i].addr != t[j].addr && Apart(t[i], t[j]) && t[i].size > 0
  {
    if i < j { TilesApart(t, base, limit, i, j); } else { TilesApart(t, base, limit, j, i); }
  }

  // Taking a free tile makes one block live that overlaps no block that was; the others stay.
  lemma LivesTake(t: seq<Tile>, base: nat, limit: nat, i: nat, need: nat)
    requires Tiling(t, base, limit) && i < |t| && t[i].free && t[i].size >= need
    ensures var b := Take(t, i, need)[i];
            && Lives(Take(t, i, need)) == Lives(t) + {b}
            && b.addr == t[i].addr && need <= b.size <= t[i].size && b.size < need + 24 && !b.free
            && forall x :: x in Lives(t) ==> Apart(x, b) && x.addr != b.addr
  {
    hide Tiling, Take;
    var r := Take(t, i, need);
    TakenFrom(t, i, need);
    forall x | x in Lives(t)
      ensures x in r && Apart(x, r[i]) && x.addr != r[i].addr
    {
      var j :| 0 <= j < |t| && t[j] == x;
      TilesDistinct(t, base, limit, j, i);
      assert r[if j < i then j else j + |r| - |t|] == x;
    }
  }

  lemma TakenFrom(t: seq<Tile>, i: nat, need: nat)
    requires i < |t| && t[i].free && t[i].size >= need
    ensures forall x :: x in Take(t, i, need) && !x.free ==> x in t || x == Take(t, i, need)[i]
    ensures var b := Take(t, i, need)[i]; b.addr == t[i].addr && need <= b.size <= t[i].size && b.size < need + 24 && !b.free
  {
  }

  // Freeing takes exactly that block out.
  lemma LivesRelease(t: seq<Tile>, base: nat, limit: nat, i: nat)
    requires Tiling(t, base, limit) && i < |t| && !t[i].free
    ensures Lives(Release(t, i)) == Lives(t) - {t[i]}
  {
    hide Tiling;
    var t1 := t[i := t[i].(free := true)];
    var t2 := if i + 1 < |t| && t[i + 1].free then Merge(t1, i) else t1;
    LivesFlip(t, base, limit, i);
    if i + 1 < |t| && t[i + 1].free { LivesMerge(t1, i); }
    if i > 0 && t[i - 1].free { LivesMerge(t2, i - 1); }
  }

  lemma LivesFlip(t: seq<Tile>, base: nat, limit: nat, i: nat)
    requires Tiling(t, base, limit) && i < |t| && !t[i].free
    ensures Lives(t[i := t[i].(free := true)]) == Lives(t) - {t[i]}
  {
    hide Tiling;
    var r := t[i := t[i].(free := true)];
    forall x | x in Lives(t) - {t[i]}
      ensures x in r
    {
      var j :| 0 <= j < |t| && t[j] == x;
      assert r[j] == x;
    }
    forall x | x in Lives(r)
      ensures x in t && x != t[i]
    {
      var j :| 0 <= j < |r| && r[j] == x;
      TilesDistinct(t, base, limit, i, j);
    }
  }

  lemma LivesMerge(t: seq<Tile>, i: nat)
    requires i + 1 < |t| && t[i].free && t[i + 1].free
    ensures Lives(Merge(t, i)) == Lives(t)
  {
    var r := Merge(t, i);
    forall x | x in Lives(t)
      ensures x in r
    {
      var j :| 0 <= j < |t| && t[j] == x;
      assert r[if j < i then j else j - 1] == x;
    }
    forall x | x in Lives(r)
      ensures x in t
    {
      var j :| 0 <= j < |r| && r[j] == x;
      assert t[if j < i then j else j + 1] == x;
    }
  }

  // The live block whose payload starts at a pointer.
  ghost predicate Holds(t: seq<Tile>, ptr: nat, b: Tile) {
    b in Lives(t) && b.addr + HEADER == ptr
  }

  lemma HeldIsFound(t: seq<Tile>, base: nat, limit: nat, ptr: nat, b: Tile)
    requires Tiling(t, base, limit) && Holds(t, ptr, b)
    ensures Find(t, ptr) < |t| && t[Find(t, ptr)] == b && Allowed(t, Free(ptr))
  {
    hide Tiling;
    var j :| 0 <= j < |t| && t[j] == b;
    var i := Find(t, ptr);
    if i != j { TilesDistinct(t, base, limit, i, j); }
  }

  // malloc fails for a size of 0 or when no free block has room; or else it adds one block that
  // holds the request with less than 48 bytes to spare for header and rounding, at the lowest
  // address with room, and overlaps no live one. free takes out the block it is given. Every other
  // block stays live where it is.
  lemma StepLives(t: seq<Tile>, base: nat, limit: nat, op: Op) returns (b: Tile)
    requires Heap(t, base, limit) && base > 0 && Allowed(t, op)
    ensures var (r, ptr) := Step(t, op);
            match op
            case Malloc(size) =>
              && (ptr == 0 <==> size == 0 || forall x :: x in t && x.free ==> x.size < size + 16)
              && if ptr == 0 then r == t
              else
                && Lives(r) == Lives(t) + {b} && b !in Lives(t)
                && b.addr + 16 == ptr && size + 16 <= b.size < size + 48
                && (forall x :: x in t && x.free && x.size >= size + 16 ==> b.addr <= x.addr)
                && base <= b.addr && b.addr + b.size <= limit && forall x :: x in Lives(t) ==> Apart(x, b)
            case Free(p) => if p == 0 then r == t else Holds(t, p, b) && Lives(r) == Lives(t) - {b}
  {
    hide Take, Release, Need, Coalesced;
    b := Tile(0, 0, false);
    match op
    case Malloc(size) =>
      var i := FirstFit(t, 0, Need(size));
      if size != 0 {
        NeedCoversRequest(size);
        FitsFirst(t, base, limit, size);
        if i < |t| {
          LivesTake(t, base, limit, i, Need(size));
          TileInside(t, base, limit, i);
          b := Take(t, i, Need(size))[i];
        }
      }
    case Free(p) =>
      if p != 0 {
        b := t[Find(t, p)];
        LivesRelease(t, base, limit, Find(t, p));
      }
  }

  // The first fit is the lowest free block with room for header and payload.
  lemma FitsFirst(t: seq<Tile>, base: nat, limit: nat, size: nat)
    requires Tiling(t, base, limit) && 0 < size && size + 23 < WORD
    ensures var i := FirstFit(t, 0, Need(size));
            && (i == |t| <==> forall x :: x in t && x.free ==> x.size < size + 16)
            && (i < |t| ==> forall x :: x in t && x.free && x.size >= size + 16 ==> t[i].addr <= x.addr)
  {
    hide Need;
    var i := FirstFit(t, 0, Need(size));
    forall j | 0 <= j < |t|
      ensures t[j].size >= Need(size) <==> t[j].size >= size + 16
      ensures i < j ==> t[i].addr <= t[j].addr
    {
      assert Sized(t[j]);
      NeedLeast(size, t[j].size);
      if i < j { TilesApart(t, base, limit, i, j); }
    }
    if i < |t| { assert t[i] in t; }
  }

  lemma TileInside(t: seq<Tile>, base: nat, limit: nat, i: nat)
    requires Tiling(t, base, limit) && i < |t|
    ensures base <= t[i].addr && t[i].addr + t[i].size <= limit
  {
    if 0 < i { TilesApart(t, base, limit, 0, i); }
    if i < |t| - 1 { TilesApart(t, base, limit, i, |t| - 1); }
  }

  // malloc of a non-zero size fails exactly when no free run of bytes is long enough, where a
  // free run is any stretch of consecutive free tiles.
  lemma MallocFailsOnlyWhenFull(t: seq<Tile>, base: nat, limit: nat, size: nat)
    requires Heap(t, base, limit) && base > 0 && 0 < size && size + HEADER + ALIGN - 1 < WORD
    ensures Step(t, Malloc(size)).1 == 0 <==> forall i, j :: FreeRun(t, i, j) ==> RunBytes(t, i, j) < Need(size)
  {
    hide Need;
    NeedCoversRequest(size);
    var k := FirstFit(t, 0, Need(size));
    if k < |t| {
      assert FreeRun(t, k, k) && RunBytes(t, k, k) == t[k].size;
    } else {
      forall i, j | FreeRun(t, i, j)
        ensures RunBytes(t, i, j) < Need(size)
      {
        if i < j { NotBothFree(t, i); }
      }
    }
  }

  // Tiles i to j are all free.
  ghost predicate FreeRun(t: seq<Tile>, i: int, j: int) {
    0 <= i <= j < |t| && forall k :: i <= k <= j ==> t[k].free
  }

  ghost function RunBytes(t: seq<Tile>, i: int, j: int): int
    requires 0 <= i <= j < |t|
  {
    t[j].addr + t[j].size - t[i].addr
  }

  ghost predicate AllowedRun(t: seq<Tile>, ops: seq<Op>)
    decreases |ops|
  {
    ops != [] ==> Allowed(t, ops[0]) && AllowedRun(Step(t, ops[0]).0, ops[1..])
  }

  ghost function Run(t: seq<Tile>, ops: seq<Op>): seq<Tile>
    requires AllowedRun(t, ops)
    decreases |ops|
  {
    if ops == [] then t else Run(Step(t, ops[0]).0, ops[1..])
  }

  // Blocks stand apart, and if none is live there is one free block over the whole heap.
  ghost predicate InOrder(t: seq<Tile>, base: nat, limit: nat) {
    && (forall i, j :: 0 <= i < j < |t| ==> t[i].addr + t[i].size <= t[j].addr)
    && ((forall i :: 0 <= i < |t| ==> t[i].free) ==> base < limit && t == [Tile(base, limit - base, true)])
  }

  lemma HeapInOrder(t: seq<Tile>, base: nat, limit: nat)
    requires Heap(t, base, limit)
    ensures InOrder(t, base, limit)
  {
    hide Tiling, Coalesced;
    forall i, j | 0 <= i < j < |t|
      ensures t[i].addr + t[i].size <= t[j].addr
    {
      TilesApart(t, base, limit, i, j);
    }
    if forall i :: 0 <= i < |t| ==> t[i].free { AllFreeIsOneTile(t, base, limit); }
  }

  // In every reachable state the heap is tiled, live payloads are apart, and if nothing is live the
  // heap is one free block again, whatever the order of the calls.
  lemma {:induction false} RunKeepsHeap(t: seq<Tile>, base: nat, limit: nat, ops: seq<Op>)
    requires Heap(t, base, limit) && AllowedRun(t, ops)
    ensures Heap(Run(t, ops), base, limit) && InOrder(Run(t, ops), base, limit)
    decreases |ops|
  {
    hide Heap, Allowed, Step, InOrder;
    if ops == [] {
      HeapInOrder(t, base, limit);
    } else {
      StepKeepsHeap(t, base, limit, ops[0]);
      RunKeepsHeap(Step(t, ops[0]).0, base, limit, ops[1..]);
    }
  }

  // A block that no call of the run frees is live at its end, at its address and with its size.
  lemma {:induction false} RunKeepsBlock(t: seq<Tile>, base: nat, limit: nat, ops: seq<Op>, x: Tile)
    requires Heap(t, base, limit) && base > 0 && AllowedRun(t, ops) && x in Lives(t)
    requires forall i :: 0 <= i < |ops| ==> ops[i] != Free(x.addr + HEADER)
    ensures x in Lives(Run(t, ops))
    decreases |ops|
  {
    hide Heap, Allowed, Step, Lives;
    if ops != [] {
      var b := StepLives(t, base, limit, ops[0]);
      StepKeepsHeap(t, base, limit, ops[0]);
      assert ops[0] != Free(x.addr + HEADER);
      RunKeepsBlock(Step(t, ops[0]).0, base, limit, ops[1..], x);
    }
  }

  // One free block over everything.
  function Whole(base: nat, limit: nat): seq<Tile> {
    if base < limit then [Tile(base, limit - base, true)] else []
  }

  // The run is allowed throughout and ends in r.
  ghost predicate Reaches(t: seq<Tile>, ops: seq<Op>, r: seq<Tile>) {
    AllowedRun(t, ops) && Run(t, ops) == r
  }

  lemma ReachesStep(t: seq<Tile>, ops: seq<Op>, r: seq<Tile>)
    requires ops != [] && Allowed(t, ops[0]) && Reaches(Step(t, ops[0]).0, ops[1..], r)
    ensures Reaches(t, ops, r)
  {
    hide Allowed, Step;
  }

  function FreeEach(ptrs: seq<nat>): (ops: seq<Op>)
    ensures |ops| == |ptrs| && forall i :: 0 <= i < |ptrs| ==> ops[i] == Free(ptrs[i])
  {
    seq(|ptrs|, i requires 0 <= i < |ptrs| => Free(ptrs[i]))
  }

  // The pointers callers hold.
  ghost function Pointers(t: seq<Tile>): set<nat> {
    set x | x in Lives(t) :: x.addr + HEADER
  }

  ghost predicate Distinct(ptrs: seq<nat>) {
    forall i, j :: 0 <= i < j < |ptrs| ==> ptrs[i] != ptrs[j]
  }

  ghost function Listed(ptrs: seq<nat>): set<nat> {
    set p | p in ptrs
  }

  // All of them, each once, in any order.
  ghost predicate Orders(t: seq<Tile>, ptrs: seq<nat>) {
    Distinct(ptrs) && Listed(ptrs) == Pointers(t)
  }

  // Freeing all live pointers, in whatever order, is allowed throughout and leaves one free block
  // over the whole heap.
  lemma {:induction false} FreeingAllLeavesOne(t: seq<Tile>, base: nat, limit: nat, ptrs: seq<nat>)
    requires Heap(t, base, limit) && base > 0 && Orders(t, ptrs)
    ensures Reaches(t, FreeEach(ptrs), Whole(base, limit))
    decreases |ptrs|
  {
    hide Tiling, Coalesced, Release, Allowed, Reaches, Orders, Lives;
    if ptrs == [] {
      NothingLive(t, ptrs);
      AllFreeIsOneTile(t, base, limit);
    } else {
      var b := FirstHeld(t, ptrs);
      HeldIsFound(t, base, limit, ptrs[0], b);
      var op := Free(ptrs[0]);
      StepKeepsHeap(t, base, limit, op);
      var r := Step(t, op).0;
      LivesRelease(t, base, limit, Find(t, ptrs[0]));
      OrdersRest(t, base, limit, r, ptrs, b);
      FreeingAllLeavesOne(r, base, limit, ptrs[1..]);
      assert FreeEach(ptrs)[0] == op && FreeEach(ptrs)[1..] == FreeEach(ptrs[1..]);
      ReachesStep(t, FreeEach(ptrs), Whole(base, limit));
    }
  }

  lemma NothingLive(t: seq<Tile>, ptrs: seq<nat>)
    requires Orders(t, ptrs) && ptrs == []
    ensures (forall i :: 0 <= i < |t| ==> t[i].free) && Reaches(t, FreeEach(ptrs), t)
  {
    forall i | 0 <= i < |t|
      ensures t[i].free
    {
      assert t[i] in Lives(t) ==> t[i].addr + HEADER in Pointers(t);
    }
  }

  lemma FirstHeld(t: seq<Tile>, ptrs: seq<nat>) returns (b: Tile)
    requires Orders(t, ptrs) && ptrs != []
    ensures Holds(t, ptrs[0], b) && ptrs[0] != 0 && !b.free
  {
    assert ptrs[0] in Listed(ptrs);
    b :| b in Lives(t) && b.addr + HEADER == ptrs[0];
  }

  lemma OrdersRest(t: seq<Tile>, base: nat, limit: nat, r: seq<Tile>, ptrs: seq<nat>, b: Tile)
    requires Tiling(t, base, limit) && Orders(t, ptrs) && ptrs != [] && Holds(t, ptrs[0], b) && Lives(r) == Lives(t) - {b}
    ensures Orders(r, ptrs[1..])
  {
    hide Tiling, Lives, Pointers, Listed;
    PointersWithout(t, base, limit, r, b);
    ListedRest(ptrs);
  }

  lemma ListedRest(ptrs: seq<nat>)
    requires Distinct(ptrs) && ptrs != []
    ensures Distinct(ptrs[1..]) && Listed(ptrs[1..]) == Listed(ptrs) - {ptrs[0]}
  {
    assert ptrs == [ptrs[0]] + ptrs[1..];
  }

  lemma PointersWithout(t: seq<Tile>, base: nat, limit: nat, r: seq<Tile>, b: Tile)
    requires Tiling(t, base, limit) && b in Lives(t) && Lives(r) == Lives(t) - {b}
    ensures Pointers(r) == Pointers(t) - {b.addr + HEADER}
  {
    hide Tiling, Lives;
    forall x | x in Lives(t) && x != b
      ensures x.addr != b.addr
    {
      if x.addr == b.addr { SameBlock(t, base, limit, x, b); }
    }
  }

  lemma SameBlock(t: seq<Tile>, base: nat, limit: nat, x: Tile, y: Tile)
    requires Tiling(t, base, limit) && x in Lives(t) && y in Lives(t) && x.addr == y.addr
    ensures x == y
  {
    hide Tiling;
    var i :| 0 <= i < |t| && t[i] == x;
    var j :| 0 <= j < |t| && t[j] == y;
    if i != j { TilesDistinct(t, base, limit, i, j); }
  }

  // From any state that a run reaches.
  lemma RunThenFreeAll(t: seq<Tile>, base: nat, limit: nat, ops: seq<Op>, r: seq<Tile>, ptrs: seq<nat>)
    requires Heap(t, base, limit) && base > 0 && Reaches(t, ops, r) && Orders(r, ptrs)
    ensures Reaches(r, FreeEach(ptrs), Whole(base, limit))
  {
    hide Heap, Orders;
    RunKeepsHeap(t, base, limit, ops);
    FreeingAllLeavesOne(r, base, limit, ptrs);
  }
}
