/**
 Disks whose files all lie below some sector: whatever still fits behind it is done, and what the
 disk holds afterwards is known exactly.
 */
module RoomyDisks {
  import opened Options
  import opened FreeSpace
  import opened FileStore
  import opened Directories
  import opened Namespace
  import opened FileEffects
  import opened FileTree
  import opened FileOps

  ghost predicate Ends(table: seq<Entry>, t: nat) {
    FIRST <= t && forall i :: 0 <= i < |table| && Occupies(table[i]) ==> End(table[i]) <= t
  }

  lemma PlaceBelow(table: seq<Entry>, sectors: nat, size: nat, t: nat)
    requires Ends(table, t) && t + Count(size) < sectors
    ensures var p := Place(table, sectors, size); p.Some? && FIRST <= p.value <= t && Fits(table, sectors, p.value, Count(size))
  {
    hide Count;
    assert Fits(table, sectors, t, Count(size));
  }

  lemma HiddenEnds(table: seq<Entry>, slot: nat, t: nat)
    requires Ends(table, t) && slot < |table|
    ensures Ends(Hidden(table, slot), t)
  {
  }

  lemma EditEnds(s: Store, slot: nat, data: seq<Byte>, t: nat)
    requires FileStore.Valid(s) && slot < SLOTS && s.table[slot].live && Count(|data|) <= MAX_SECTORS
    requires Ends(s.table, t) && t + Count(|data|) < s.sectors
    ensures Edit(s, slot, data).Some? && Edited(s, Edit(s, slot, data).value, slot, data)
    ensures Ends(Edit(s, slot, data).value.table, t + Count(|data|))
  {
    hide Laid, Count, View, Edited, ReadSectors, Place, WriteSectors;
    SlotsOf(s);
    EditEffect(s, slot, data);
    HiddenEnds(s.table, slot, t);
    PlaceBelow(Hidden(s.table, slot), s.sectors, |data|, t);
  }

  lemma FirstFree(s: Store, slot: nat)
    requires FileStore.Valid(s) && slot < SLOTS && slot !in View(s) && forall i :: 0 <= i < slot ==> i in View(s)
    ensures FreeSlot(s.table, 0) == Some(slot) && !s.table[slot].live
  {
    hide Laid, View, FreeSlot;
    InView(s);
  }

  // What a view becomes when a slot is added, its record at the end of the parent's file.
  function Grown(v: Nodes, d: nat, name: Name, slot: nat, node: Node): Nodes
    requires d in v && Recordable(DirEntry(Stored(name), slot))
  {
    v[d := Node(v[d].kind, WithRecord(v[d].bytes, name, slot))][slot := node]
  }

  // A new file: the first free slot, and a record more in the parent.
  lemma WriteAt(s: Store, root: nat, front: seq<Name>, name: Name, kind: Kind, data: seq<Byte>, d: nat, slot: nat, t: nat)
    requires Good(s, root) && Ends(s.table, t) && Count(|data|) <= MAX_SECTORS && 0 !in name
    requires Resolve(View(s), root, front + [name]).None? && Resolve(View(s), root, front) == Some(d) && d in View(s)
    requires slot < SLOTS && slot !in View(s) && forall i :: 0 <= i < slot ==> i in View(s)
    requires |View(s)[d].bytes| + RECORD <= MAX_BYTES
    requires t + Count(|data|) + Count(|View(s)[d].bytes| + RECORD) < s.sectors
    ensures Recordable(DirEntry(Stored(name), slot))
    ensures var s' := Exec(s, root, Write(front + [name], kind, data));
            && View(s') == Grown(View(s), d, name, slot, Node(kind, data)) && s'.sectors == s.sectors
            && Ends(s'.table, t + Count(|data|) + Count(|View(s)[d].bytes| + RECORD))
  {
    hide Wired, Laid, Count, View, Edited, ReadSectors, Place, Resolve, Edit, WithRecord, Recordable, Ends, Fits, WriteSectors;
    var parts := front + [name];
    assert Front(parts) == front && Last(parts) == name;
    Nameable(name, slot);
    FirstFree(s, slot);
    PlaceBelow(s.table, s.sectors, |data|, t);
    var start := Place(s.table, s.sectors, |data|).value;
    EnteringEffect(s, root, d, slot, start, name, kind, data);
    EnteringEnds(s, root, d, slot, start, name, kind, data, t);
  }

  lemma EnteringEnds(s: Store, root: nat, d: nat, slot: nat, start: nat, name: Name, kind: Kind, data: seq<Byte>, t: nat)
    requires FileStore.Valid(s) && d in View(s) && slot < SLOTS && !s.table[slot].live && Count(|data|) <= MAX_SECTORS
    requires Fits(s.table, s.sectors, start, Count(|data|)) && |View(s)[d].bytes| + RECORD <= MAX_BYTES && 0 !in name
    requires Ends(s.table, t) && FIRST <= start <= t && t + Count(|data|) + Count(|View(s)[d].bytes| + RECORD) < s.sectors
    ensures var r := Entering(s, d, slot, start, name, kind, data);
            r.Some? && Ends(r.value.table, t + Count(|data|) + Count(|View(s)[d].bytes| + RECORD))
  {
    hide Laid, Count, View, ReadSectors, Place, Content, Edit, WithRecord, Recordable, Ends, Fits, WriteSectors;
    SlotsOf(s);
    var s1, t1 := Reserve(s, slot, kind, start, |data|), t + Count(|data|);
    Reserved(s, root, d, slot, start, name, kind, data);
    SlotsOf(s1);
    ReserveEnds(s, slot, kind, start, |data|, t);
    Nameable(name, slot);
    AddedEffect(s1, d, slot, name);
    var bytes := WithRecord(Content(s1, d), name, slot);
    CountGrows(|bytes|, |View(s)[d].bytes| + RECORD);
    EditEnds(s1, d, bytes, t1);
    EndsLater(Edit(s1, d, bytes).value.table, t1 + Count(|bytes|), t1 + Count(|View(s)[d].bytes| + RECORD));
    SlotsOf(Edit(s1, d, bytes).value);
  }

  lemma ReserveEnds(s: Store, slot: nat, kind: Kind, start: nat, size: nat, t: nat)
    requires slot < |s.table| && Ends(s.table, t) && FIRST <= start <= t
    ensures Ends(Reserve(s, slot, kind, start, size).table, t + Count(size))
  {
    hide Count;
  }

  lemma EndsLater(table: seq<Entry>, t: nat, u: nat)
    requires Ends(table, t) && t <= u
    ensures Ends(table, u)
  {
  }

  lemma CountGrows(a: nat, b: nat)
    requires a <= b
    ensures Count(a) <= Count(b)
  {
  }

  // A move whose record has room.
  lemma MoveAt(s: Store, root: nat, parts: seq<Name>, to: seq<Name>, p: nat, k: nat, x: nat, d: nat, t: nat)
    requires Good(s, root) && Ends(s.table, t) && Allowed(View(s), root, Move(parts, to)) && to != []
    requires Resolve(View(s), root, parts) == Some(x) && Resolve(View(s), root, Front(parts)) == Some(p) && Lists(View(s), p, k, x)
    requires Resolve(View(s), root, Front(to)) == Some(d) && d in View(s) && IsDir(View(s)[d])
    requires p in View(s) && t + Count(|View(s)[p].bytes|) + Count(|View(s)[d].bytes| + RECORD) < s.sectors
    ensures Recordable(DirEntry(Stored(Last(to)), x))
    ensures var v := View(s);
            var v1 := v[p := Node(v[p].kind, Without(v[p].bytes, x))];
            View(Exec(s, root, Move(parts, to))) == v1[d := Node(v1[d].kind, WithRecord(v1[d].bytes, Last(to), x))]
  {
    hide Wired, Laid, Count, View, ReadSectors, Place, Resolve, Edit, WithRecord, Recordable, Ends, Fits, WriteSectors, Lists, Without,
         Unshadowed, RoomToEnter, Content, DecodeAll, ListsOnly;
    var v := View(s);
    InView(s);
    DirectoryUnlisted(s, root, p, k, x);
    var b := Without(v[p].bytes, x);
    WithoutSize(v[p].bytes, x, k);
    CountGrows(|b|, |v[p].bytes|);
    CountWithin(|b|);
    EditEnds(s, p, b, t);
    var mid := Unlisted(s, p, x).value;
    var t1 := t + Count(|b|);
    MovedMid(s, mid, root, p, k, x, d, b);
    InView(mid);
    SlotsOf(mid);
    Nameable(Last(to), x);
    AddedEffect(mid, d, x, Last(to));
    var bytes := WithRecord(View(mid)[d].bytes, Last(to), x);
    CountGrows(|bytes|, |v[d].bytes| + RECORD);
    EditEnds(mid, d, bytes, t1);
    SlotsOf(Edit(mid, d, bytes).value);
  }

  lemma MovedMid(s: Store, mid: Store, root: nat, p: nat, k: nat, x: nat, d: nat, b: seq<Byte>)
    requires Good(s, root) && p < SLOTS && s.table[p].live && Edited(s, mid, p, b) && Lists(View(s), p, k, x)
    requires p in View(s) && b == Without(View(s)[p].bytes, x) && d in View(s) && IsDir(View(s)[d])
    ensures FileStore.Valid(mid) && d < SLOTS && mid.table[d].live && |View(mid)[d].bytes| <= |View(s)[d].bytes|
    ensures d in View(mid) && |View(mid)[d].bytes| + RECORD <= MAX_BYTES
    ensures View(mid) == View(s)[p := Node(View(s)[p].kind, b)]
  {
    hide Wired, Laid, View, ReadSectors, Content, Lists, Without, DecodeAll;
    InView(s);
    InView(mid);
    DirectoryFits(View(s), root, d);
    ListedOnlyOnce(View(s), root, p, k, x);
    WithoutSize(View(s)[p].bytes, x, k);
  }
}
