/**
 First-fit placement of files on the disk: the live table slots are sorted by start sector, and
 the first gap between them that is long enough is taken.
 */
module FreeSpace {
  import opened Options

  const SLOTS := 640
  const FIRST := 641
  const SECTOR := 512
  const MAX_SECTORS := 255

  datatype Kind = File | Directory | Root
  datatype Entry = Entry(live: bool, kind: Kind, start: nat, size: nat)

  // Sectors a file of this many bytes takes.
  function Count(size: nat): nat {
    (size + SECTOR - 1) / SECTOR
  }

  // So many that the bytes fit, and no more.
  lemma CountExact(size: nat, n: nat)
    ensures n >= Count(size) <==> n * 512 >= size
  {
  }

  predicate Occupies(e: Entry) {
    e.live && e.size > 0
  }

  function End(e: Entry): nat {
    e.start + Count(e.size)
  }

  // Inside the data area, and short enough for an 8-bit sector count.
  predicate Placed(e: Entry, sectors: nat) {
    Occupies(e) ==> FIRST <= e.start && End(e) < sectors && 1 <= Count(e.size) <= MAX_SECTORS
  }

  predicate Clear(start: nat, n: nat, e: Entry) {
    Occupies(e) ==> start + n <= e.start || End(e) <= start
  }

  // The live extents lie in the data area and do not overlap.
  ghost predicate Laid(table: seq<Entry>, sectors: nat) {
    && |table| == SLOTS
    && (forall i :: 0 <= i < |table| ==> Placed(table[i], sectors))
    && (forall i, j :: 0 <= i < j < |table| && Occupies(table[i]) ==> Clear(table[i].start, Count(table[i].size), table[j]))
  }

  // ---------- Sorting the live slots ----------

  ghost predicate Ordered(table: seq<Entry>, order: seq<nat>) {
    forall i, j :: 0 <= i < j < |order| && order[i] < |table| && order[j] < |table| ==> table[order[i]].start <= table[order[j]].start
  }

  // `order` lists every live slot, once.
  ghost predicate Collects(table: seq<Entry>, order: seq<nat>, upTo: nat) {
    && (forall k :: 0 <= k < |order| ==> order[k] < upTo <= |table| && table[order[k]].live)
    && (forall i, j :: 0 <= i < j < |order| ==> order[i] != order[j])
    && (forall i :: 0 <= i < upTo <= |table| && table[i].live ==> i in order)
  }

  method LiveSlots(table: seq<Entry>) returns (order: array<nat>, n: nat)
    requires |table| == SLOTS
    ensures fresh(order) && n <= order.Length == SLOTS && Collects(table, order[..n], SLOTS)
  {
    order := new nat[SLOTS];
    n := 0;
    var i := 0;
    while i < SLOTS
      invariant n <= i <= SLOTS
      invariant Collects(table, order[..n], i)
    {
      if table[i].live {
        ghost var before := order[..n];
        order[n] := i;
        n := n + 1;
        assert order[..n] == before + [i];
      }
      i := i + 1;
    }
  }

  // Where position k of the moved sequence comes from.
  function Source(p: nat, i: nat, k: nat): nat
    requires p <= i
  {
    if k < p then k else if k == p then i else if k <= i then k - 1 else k
  }

  // s with its element i moved down to position p.
  ghost function Lowered(s: seq<nat>, p: nat, i: nat): (r: seq<nat>)
    requires p <= i < |s|
    ensures |r| == |s| && forall k :: 0 <= k < |s| ==> r[k] == s[Source(p, i, k)]
  {
    s[..p] + [s[i]] + s[p..i] + s[i + 1..]
  }

  lemma LoweredCollects(table: seq<Entry>, s: seq<nat>, p: nat, i: nat, upTo: nat)
    requires p <= i < |s| && Collects(table, s, upTo)
    ensures Collects(table, Lowered(s, p, i), upTo)
  {
  }

  lemma LoweredOrdered(table: seq<Entry>, s: seq<nat>, p: nat, i: nat)
    requires p <= i < |s| && forall k :: 0 <= k < |s| ==> s[k] < |table|
    requires Ordered(table, s[..i])
    requires forall k :: 0 <= k < p ==> table[s[k]].start <= table[s[i]].start
    requires forall k :: p <= k < i ==> table[s[k]].start > table[s[i]].start
    ensures Ordered(table, Lowered(s, p, i)[..i + 1])
  {
  }

  // The insertion sort of the source, in place.
  method SortSlots(table: seq<Entry>, order: array<nat>, n: nat)
    requires |table| == SLOTS && n <= order.Length == SLOTS && Collects(table, order[..n], SLOTS)
    modifies order
    ensures Collects(table, order[..n], SLOTS) && Ordered(table, order[..n])
  {
    var i := 1;
    while i < n
      invariant 1 <= i && (i <= n || n == 0)
      invariant Collects(table, order[..n], SLOTS)
      invariant i <= n ==> Ordered(table, order[..i])
    {
      InsertSlot(table, order, n, i);
      i := i + 1;
    }
  }

  method InsertSlot(table: seq<Entry>, order: array<nat>, n: nat, i: nat)
    requires |table| == SLOTS && i < n <= order.Length == SLOTS && Collects(table, order[..n], SLOTS)
    requires Ordered(table, order[..i])
    modifies order
    ensures Collects(table, order[..n], SLOTS) && Ordered(table, order[..i + 1])
  {
    hide Collects, Ordered, Lowered;
    ghost var s := order[..n];
    ListsInRange(table, s, SLOTS);
    assert s[..i] == order[..i];
    var p := ShiftDown(table, order, n, i);
    BelowKey(table, s, p, i);
    LoweredCollects(table, s, p, i, SLOTS);
    LoweredOrdered(table, s, p, i);
    assert order[..i + 1] == order[..n][..i + 1];
  }

  // Moves entry i down past the later ones.
  method ShiftDown(table: seq<Entry>, order: array<nat>, n: nat, i: nat) returns (p: nat)
    requires i < n <= order.Length && forall k :: 0 <= k < n ==> order[k] < |table|
    modifies order
    ensures p <= i && order[..n] == Lowered(old(order[..n]), p, i)
    ensures p > 0 ==> table[old(order[..n])[p - 1]].start <= table[old(order[..n])[i]].start
    ensures forall k :: p <= k < i ==> table[old(order[..n])[k]].start > table[old(order[..n])[i]].start
  {
    hide Lowered, Gap;
    ghost var s := order[..n];
    var key := order[i];
    p := i;
    GapStarts(s, i);
    while p > 0 && table[order[p - 1]].start > table[key].start
      invariant p <= i && Gap(order[..n], s, p, i) && (p > 0 ==> order[p - 1] == s[p - 1])
      invariant forall k :: p <= k < i ==> table[s[k]].start > table[key].start
    {
      ghost var now := order[..n];
      GapStep(now, s, p, i);
      order[p] := order[p - 1];
      assert order[..n] == now[p := now[p - 1]];
      p := p - 1;
    }
    ghost var now := order[..n];
    GapEnds(now, s, p, i);
    order[p] := key;
    assert order[..n] == now[p := key];
  }

  // The moved sequence, but for position p, which is still open.
  ghost predicate Gap(now: seq<nat>, s: seq<nat>, p: nat, i: nat) {
    p <= i < |s| == |now| && now[..p] == s[..p] && now[p + 1..i + 1] == s[p..i] && now[i + 1..] == s[i + 1..]
  }

  lemma GapStarts(s: seq<nat>, i: nat)
    requires i < |s|
    ensures Gap(s, s, i, i)
  {
  }

  lemma GapStep(now: seq<nat>, s: seq<nat>, p: nat, i: nat)
    requires p > 0 && Gap(now, s, p, i)
    ensures |now| == |s| > p && now[p - 1] == s[p - 1] && (p > 1 ==> now[p - 2] == s[p - 2])
    ensures Gap(now[p := now[p - 1]], s, p - 1, i)
  {
    assert now[..p][p - 1] == s[..p][p - 1];
    assert p > 1 ==> now[..p][p - 2] == s[..p][p - 2];
    var next := now[p := now[p - 1]];
    assert next[p..i + 1] == [next[p]] + now[p + 1..i + 1];
    assert s[p - 1..i] == [s[p - 1]] + s[p..i];
    assert next[..p - 1] == now[..p][..p - 1] && s[..p - 1] == s[..p][..p - 1];
    assert next[i + 1..] == now[i + 1..];
  }

  lemma GapEnds(now: seq<nat>, s: seq<nat>, p: nat, i: nat)
    requires Gap(now, s, p, i)
    ensures |now| == |s| && now[p := s[i]] == Lowered(s, p, i)
  {
    var end := now[p := s[i]];
    assert end == end[..p] + [end[p]] + end[p + 1..i + 1] + end[i + 1..];
    assert end[..p] == now[..p] && end[p + 1..i + 1] == now[p + 1..i + 1] && end[i + 1..] == now[i + 1..];
  }

  lemma ListsInRange(table: seq<Entry>, order: seq<nat>, upTo: nat)
    requires Collects(table, order, upTo)
    ensures forall k :: 0 <= k < |order| ==> order[k] < |table|
  {
  }

  lemma BelowKey(table: seq<Entry>, s: seq<nat>, p: nat, i: nat)
    requires p <= i < |s| && Ordered(table, s[..i]) && forall k :: 0 <= k < |s| ==> s[k] < |table|
    requires p > 0 ==> table[s[p - 1]].start <= table[s[i]].start
    ensures forall k :: 0 <= k < p ==> table[s[k]].start <= table[s[i]].start
  {
  }

  // ---------- The scan ----------

  // n sectors from `start` are inside the data area and meet no live extent.
  ghost predicate Fits(table: seq<Entry>, sectors: nat, start: nat, n: nat) {
    FIRST <= start && start + n < sectors && forall i :: 0 <= i < |table| ==> Clear(start, n, table[i])
  }

  ghost predicate Blocked(table: seq<Entry>, start: nat, n: nat) {
    exists i :: 0 <= i < |table| && !Clear(start, n, table[i])
  }

  // Everything before `limit` has been looked at: extents end there, and no long enough gap starts there.
  ghost predicate Scanned(table: seq<Entry>, order: seq<nat>, k: nat, limit: nat, n: nat)
    requires k <= |order|
  {
    && (forall m :: 0 <= m < k && order[m] < |table| && Occupies(table[order[m]]) ==> End(table[order[m]]) <= limit)
    && (n > 0 ==> forall s: nat :: FIRST <= s < limit ==> Blocked(table, s, n))
    && (limit == FIRST || exists m :: 0 <= m < k && order[m] < |table| && Occupies(table[order[m]]) && End(table[order[m]]) == limit)
  }

  lemma GapFits(table: seq<Entry>, sectors: nat, order: seq<nat>, k: nat, limit: nat, n: nat)
    requires Laid(table, sectors) && Collects(table, order, SLOTS) && Ordered(table, order) && k <= |order|
    requires Scanned(table, order, k, limit, n) && FIRST <= limit && limit + n < sectors
    requires k < |order| ==> limit + n <= table[order[k]].start
    ensures Fits(table, sectors, limit, n)
  {
  }

  lemma LaidIs(table: seq<Entry>, sectors: nat)
    requires Laid(table, sectors)
    ensures |table| == SLOTS && forall i :: 0 <= i < |table| ==> Placed(table[i], sectors)
  {
  }

  lemma GapTooShort(table: seq<Entry>, order: seq<nat>, k: nat, limit: nat, n: nat)
    requires k < |order| && order[k] < |table| && Scanned(table, order, k, limit, n) && Occupies(table[order[k]])
    requires limit <= table[order[k]].start < limit + n
    ensures Scanned(table, order, k + 1, End(table[order[k]]), n)
  {
  }

  lemma ScanStarts(table: seq<Entry>, order: seq<nat>, n: nat)
    ensures Scanned(table, order, 0, FIRST, n)
  {
  }

  lemma SkipEmpty(table: seq<Entry>, order: seq<nat>, k: nat, limit: nat, n: nat)
    requires k < |order| && order[k] < |table| && Scanned(table, order, k, limit, n) && !Occupies(table[order[k]])
    ensures Scanned(table, order, k + 1, limit, n)
  {
  }

  lemma Standing(table: seq<Entry>, sectors: nat, order: seq<nat>, k: nat, limit: nat, n: nat)
    requires Laid(table, sectors) && Collects(table, order, SLOTS) && Ordered(table, order) && k < |order|
    requires Scanned(table, order, k, limit, n) && table[order[k]].size > 0
    ensures Occupies(table[order[k]]) && limit <= table[order[k]].start && End(table[order[k]]) < sectors
  {
  }

  lemma NoRoom(table: seq<Entry>, sectors: nat, order: seq<nat>, k: nat, limit: nat, size: nat)
    requires k <= |order| && Scanned(table, order, k, limit, Count(size)) && limit < sectors <= limit + Count(size)
    ensures size > 0 && forall s: nat :: FIRST <= s && s + Count(size) < sectors ==> Blocked(table, s, Count(size))
  {
  }

  // ---------- First fit ----------

  // The first start at or after s that fits.
  ghost function FirstFrom(table: seq<Entry>, sectors: nat, s: nat, n: nat): (r: Option<nat>)
    ensures r.Some? ==> s <= r.value && Fits(table, sectors, r.value, n) && forall t: nat :: s <= t < r.value ==> !Fits(table, sectors, t, n)
    ensures r.None? ==> forall t: nat :: s <= t ==> !Fits(table, sectors, t, n)
    decreases sectors - s
  {
    if s >= sectors then None
    else if Fits(table, sectors, s, n) then Some(s)
    else FirstFrom(table, sectors, s + 1, n)
  }

  // Where a file of so many bytes goes: the lowest place in the data area.
  ghost function Place(table: seq<Entry>, sectors: nat, size: nat): (r: Option<nat>) {
    FirstFrom(table, sectors, FIRST, Count(size))
  }

  lemma PlaceIs(table: seq<Entry>, sectors: nat, size: nat, start: nat)
    requires Fits(table, sectors, start, Count(size))
    requires start == FIRST || (size > 0 && forall s: nat :: FIRST <= s < start ==> Blocked(table, s, Count(size)))
    ensures Place(table, sectors, size) == Some(start)
  {
    hide Clear, Count;
    var n := Count(size);
    assert forall s: nat :: Blocked(table, s, n) ==> !Fits(table, sectors, s, n);
  }

  lemma NoPlace(table: seq<Entry>, sectors: nat, size: nat)
    requires forall s: nat :: FIRST <= s && s + Count(size) < sectors ==> Blocked(table, s, Count(size))
    ensures Place(table, sectors, size) == None
  {
    hide Clear, Count;
    var n := Count(size);
    assert forall s: nat :: Blocked(table, s, n) ==> !Fits(table, sectors, s, n);
  }

  lemma ScannedBlocked(table: seq<Entry>, order: seq<nat>, k: nat, limit: nat, size: nat)
    requires k <= |order| && Scanned(table, order, k, limit, Count(size)) && (size == 0 ==> limit == FIRST)
    ensures limit == FIRST || (size > 0 && forall s: nat :: FIRST <= s < limit ==> Blocked(table, s, Count(size)))
  {
  }

  lemma CountZero(size: nat)
    ensures Count(size) == 0 <==> size == 0
  {
  }

  // The sorted scan finds the lowest place, or none when there is none.
  method FindSpace(table: seq<Entry>, sectors: nat, size: nat) returns (r: Option<nat>)
    requires Laid(table, sectors) && FIRST < sectors
    ensures r == Place(table, sectors, size)
    ensures r.Some? ==> Fits(table, sectors, r.value, Count(size))
  {
    hide Count, Collects, Ordered, Laid, Scanned, Fits, Blocked, Place;
    CountZero(size);
    LaidIs(table, sectors);
    var order, n := LiveSlots(table);
    SortSlots(table, order, n);
    ghost var o := order[..n];
    ListsInRange(table, o, SLOTS);
    var needed := Count(size);
    var prevEnd := FIRST;
    ScanStarts(table, o, needed);
    var k := 0;
    while k < n
      invariant k <= n && FIRST <= prevEnd < sectors && order[..n] == o
      invariant Scanned(table, o, k, prevEnd, needed) && (size == 0 ==> prevEnd == FIRST)
    {
      var e := table[order[k]];
      assert order[k] == o[k];
      if e.size != 0 {
        Standing(table, sectors, o, k, prevEnd, needed);
        var gap := if e.start > prevEnd then e.start - prevEnd else 0;
        if gap >= needed {
          GapFits(table, sectors, o, k, prevEnd, needed);
          ScannedBlocked(table, o, k, prevEnd, size);
          PlaceIs(table, sectors, size, prevEnd);
          return Some(prevEnd);
        }
        GapTooShort(table, o, k, prevEnd, needed);
        prevEnd := e.start + Count(e.size);
      } else {
        SkipEmpty(table, o, k, prevEnd, needed);
      }
      k := k + 1;
    }
    var trailing := sectors - 1 - prevEnd;
    if trailing >= needed {
      GapFits(table, sectors, o, k, prevEnd, needed);
      ScannedBlocked(table, o, k, prevEnd, size);
      PlaceIs(table, sectors, size, prevEnd);
      return Some(prevEnd);
    }
    NoRoom(table, sectors, o, k, prevEnd, size);
    NoPlace(table, sectors, size);
    return None;
  }
}
