/**
 Every file operation as a function from disks to disks. What may fail, and where a file goes, is
 decided by the disk before the operation. Extents stay apart and listings stay a tree over every
 run in which deletions and moves work on the directory that lists the file.
 */
module FileOps {
  import opened Options
  import opened FreeSpace
  import opened FileStore
  import opened Directories
  import opened Namespace
  import opened FileEffects
  import opened FileTree
  import opened FileLaws

  const MAX_BYTES := MAX_SECTORS * SECTOR

  ghost predicate Good(s: Store, root: nat) {
    FileStore.Valid(s) && Wired(View(s), root)
  }

  lemma InView(s: Store)
    requires FileStore.Valid(s)
    ensures |s.table| == SLOTS && |s.disk| == s.sectors * SECTOR && InTable(View(s))
    ensures forall i :: 0 <= i < SLOTS ==> (s.table[i].live <==> i in View(s))
    ensures forall i :: 0 <= i < SLOTS && s.table[i].live ==> View(s)[i] == Node(s.table[i].kind, Content(s, i))
  {
  }

  lemma ContentSize(s: Store, slot: nat)
    requires FileStore.Valid(s) && slot < SLOTS && s.table[slot].live
    ensures |Content(s, slot)| == s.table[slot].size
  {
    assert Placed(s.table[slot], s.sectors);
  }

  lemma CountWithin(size: nat)
    requires size <= MAX_BYTES
    ensures Count(size) <= MAX_SECTORS
  {
  }

  // ---------- Rewriting one file ----------

  // One slot has new contents and perhaps a new extent; the rest of the table is the same.
  ghost predicate Edited(s: Store, s': Store, slot: nat, data: seq<Byte>)
    requires FileStore.Valid(s) && slot < SLOTS
  {
    && FileStore.Valid(s') && s'.sectors == s.sectors
    && s'.table == s.table[slot := s'.table[slot]] && s'.table[slot].live
    && View(s') == View(s)[slot := Node(s.table[slot].kind, data)]
  }

  // No place for so many bytes.
  ghost predicate NoGap(table: seq<Entry>, sectors: nat, size: nat) {
    Place(table, sectors, size).None?
  }

  // The file moves to the lowest place that is free when its own extent is.
  ghost function Edit(s: Store, slot: nat, data: seq<Byte>): Option<Store> {
    if slot >= |s.table| || |s.disk| != s.sectors * SECTOR then None
    else
      match Place(Hidden(s.table, slot), s.sectors, |data|)
      case None => None
      case Some(start) => Some(Fill(Reserve(s, slot, s.table[slot].kind, start, |data|), slot, data))
  }

  lemma EditEffect(s: Store, slot: nat, data: seq<Byte>)
    requires FileStore.Valid(s) && slot < SLOTS && s.table[slot].live && Count(|data|) <= MAX_SECTORS
    ensures Edit(s, slot, data).Some? ==> Edited(s, Edit(s, slot, data).value, slot, data)
    ensures Edit(s, slot, data).None? <==> NoGap(Hidden(s.table, slot), s.sectors, |data|)
    ensures |data| <= s.table[slot].size ==> Edit(s, slot, data).Some?
  {
    hide Laid, Count, Fits, ReadSectors, WriteSectors, View, Blocked;
    InView(s);
    var r := Place(Hidden(s.table, slot), s.sectors, |data|);
    if r.Some? { EditView(s, slot, r.value, data); }
    if |data| <= s.table[slot].size { ShrinkPlaced(s, slot, |data|); }
  }

  lemma EditView(s: Store, slot: nat, start: nat, data: seq<Byte>)
    requires FileStore.Valid(s) && slot < SLOTS && Count(|data|) <= MAX_SECTORS
    requires Fits(Hidden(s.table, slot), s.sectors, start, Count(|data|))
    ensures var s1 := Reserve(s, slot, s.table[slot].kind, start, |data|);
            Edited(s, Fill(s1, slot, data), slot, data)
  {
    hide Laid, Count, Fits, ReadSectors, WriteSectors;
    SlotsOf(s);
    ReserveView(s, slot, s.table[slot].kind, start, |data|);
    FillView(Reserve(s, slot, s.table[slot].kind, start, |data|), slot, data);
  }

  // What is no longer than the file it replaces always has a place.
  lemma ShrinkPlaced(s: Store, slot: nat, size: nat)
    requires FileStore.Valid(s) && slot < SLOTS && s.table[slot].live && size <= s.table[slot].size
    ensures Place(Hidden(s.table, slot), s.sectors, size).Some?
  {
    hide Laid, Count;
    InView(s);
    var h := Hidden(s.table, slot);
    if size == 0 {
      LaidAfterFreeing(s.table, s.sectors, slot);
      EmptyFits(h, s.sectors);
    } else {
      ShrinkFits(s.table, s.sectors, slot, size);
      assert Fits(h, s.sectors, s.table[slot].start, Count(size));
    }
  }

  lemma EmptyFits(table: seq<Entry>, sectors: nat)
    requires Laid(table, sectors) && FIRST < sectors
    ensures Place(table, sectors, 0) == Some(FIRST)
  {
    assert Fits(table, sectors, FIRST, Count(0)) by {
      forall i | 0 <= i < |table|
        ensures Clear(FIRST, Count(0), table[i])
      {
        assert Placed(table[i], sectors);
      }
    }
  }

  // ---------- Records ----------

  // One record more in the file of d.
  ghost function Added(s: Store, d: nat, slot: nat, name: Name): Option<Store> {
    if d >= |s.table| || |s.disk| != s.sectors * SECTOR || !Recordable(DirEntry(Stored(name), slot)) then None
    else Edit(s, d, WithRecord(Content(s, d), name, slot))
  }

  // The records of d but those of the slot.
  ghost function Unlisted(s: Store, d: nat, slot: nat): Option<Store> {
    if d >= |s.table| || |s.disk| != s.sectors * SECTOR then None
    else Edit(s, d, Without(Content(s, d), slot))
  }

  lemma AddedEffect(s: Store, d: nat, slot: nat, name: Name)
    requires FileStore.Valid(s) && d < SLOTS && s.table[d].live && Recordable(DirEntry(Stored(name), slot))
    requires |Content(s, d)| + RECORD <= MAX_BYTES
    ensures var data := WithRecord(Content(s, d), name, slot);
            && Count(|data|) <= MAX_SECTORS && |data| == |Records(Content(s, d))| + RECORD
            && Added(s, d, slot, name) == Edit(s, d, data)
            && (Added(s, d, slot, name).Some? ==> Edited(s, Added(s, d, slot, name).value, d, data))
            && (Added(s, d, slot, name).None? <==> NoGap(Hidden(s.table, d), s.sectors, |data|))
  {
    hide Laid, View, Edited, Records, Encode, Recordable, DecodeAll, Edit, NoGap, Count, ReadSectors;
    InView(s);
    var data := WithRecord(Content(s, d), name, slot);
    WithRecordListing(Content(s, d), name, slot);
    CountWithin(|data|);
    EditEffect(s, d, data);
  }

  // Entry k, and no other, names the slot.
  ghost predicate ListsOnly(l: seq<DirEntry>, slot: nat, k: nat) {
    k < |l| && l[k].slot == slot && forall j :: 0 <= j < |l| && j != k ==> l[j].slot != slot
  }

  lemma WithoutSize(b: seq<Byte>, slot: nat, k: nat)
    requires ListsOnly(DecodeAll(b), slot, k)
    ensures |Without(b, slot)| == (|b| / RECORD - 1) * RECORD
  {
    hide DecodeAll, Dropped, Without;
    WithoutListing(b, slot);
    DroppedCount(DecodeAll(b), slot, k);
  }

  // Taking out the one record of a slot never fails.
  lemma UnlistedEffect(s: Store, d: nat, slot: nat, k: nat)
    requires FileStore.Valid(s) && d < SLOTS && s.table[d].live && |Content(s, d)| <= MAX_BYTES
    requires ListsOnly(DecodeAll(Content(s, d)), slot, k)
    ensures var data := Without(Content(s, d), slot);
            && Count(|data|) <= MAX_SECTORS && |data| <= s.table[d].size
            && Unlisted(s, d, slot) == Edit(s, d, data) && Unlisted(s, d, slot).Some?
            && Edited(s, Unlisted(s, d, slot).value, d, data)
  {
    hide Laid, View, Edited, Without, DecodeAll, Edit, NoGap, Count, ReadSectors, ListsOnly;
    InView(s);
    var data := Without(Content(s, d), slot);
    WithoutSize(Content(s, d), slot, k);
    ContentSize(s, d);
    CountWithin(|data|);
    EditEffect(s, d, data);
  }

  lemma ListedOnlyOnce(v: Nodes, root: nat, p: nat, k: nat, x: nat)
    requires Wired(v, root) && Lists(v, p, k, x)
    ensures ListsOnly(Listing(v, p), x, k)
  {
    hide DecodeAll, Whole;
    var l := Listing(v, p);
    forall j | 0 <= j < |l| && j != k
      ensures l[j].slot != x
    {
      assert Lists(v, p, j, l[j].slot);
    }
  }

  // The record of a slot in the directory that lists it.
  lemma DirectoryUnlisted(s: Store, root: nat, p: nat, k: nat, x: nat)
    requires Good(s, root) && Lists(View(s), p, k, x)
    ensures p < SLOTS && s.table[p].live && x < SLOTS && s.table[x].live && Unlisted(s, p, x).Some?
    ensures |Content(s, p)| <= MAX_BYTES && ListsOnly(DecodeAll(Content(s, p)), x, k)
    ensures Edited(s, Unlisted(s, p, x).value, p, Without(Content(s, p), x))
  {
    hide Wired, Laid, View, Edited, Without, DecodeAll, Lists, ReadSectors, ListsOnly, Unlisted;
    InView(s);
    ListedIsLive(View(s), root, p, k, x);
    DirectoryFits(View(s), root, p);
    ListedOnlyOnce(View(s), root, p, k, x);
    UnlistedEffect(s, p, x, k);
  }

  lemma WithoutRemoved(v: Nodes, v': Nodes, p: nat, x: nat, gone: set<nat>)
    requires p in v && p !in gone
    requires v' == v[p := Node(v[p].kind, Without(v[p].bytes, x))] - gone
    ensures Removed(v, v', p, x, gone)
  {
    hide DecodeAll, Without, Dropped;
    WithoutListing(v[p].bytes, x);
  }

  // ---------- The operations ----------

  datatype Op =
    | Write(parts: seq<Name>, kind: Kind, data: seq<Byte>)
    | Delete(parts: seq<Name>)
    | DeleteTree(parts: seq<Name>)
    | Move(parts: seq<Name>, to: seq<Name>)

  // The first free slot of the table.
  ghost function FreeSlot(table: seq<Entry>, i: nat): (r: Option<nat>)
    ensures r.Some? ==> i <= r.value < |table| && !table[r.value].live
    ensures r.None? ==> forall j :: i <= j < |table| ==> table[j].live
    ensures r.Some? ==> forall j :: i <= j < r.value ==> table[j].live
    decreases |table| - i
  {
    if i >= |table| then None else if !table[i].live then Some(i) else FreeSlot(table, i + 1)
  }

  // A new entry in the first free slot, its record in the parent, then its bytes.
  ghost function Entering(s: Store, d: nat, slot: nat, start: nat, name: Name, kind: Kind, data: seq<Byte>): Option<Store> {
    if slot >= |s.table| then None
    else
      match Added(Reserve(s, slot, kind, start, |data|), d, slot, name)
      case None => None
      case Some(s2) => if slot < |s2.table| && |s2.disk| == s2.sectors * SECTOR then Some(Fill(s2, slot, data)) else None
  }

  ghost function Written(s: Store, root: nat, parts: seq<Name>, kind: Kind, data: seq<Byte>): Option<Store> {
    match Resolve(View(s), root, parts)
    case Some(x) => if x < |s.table| && s.table[x].kind == File then Edit(s, x, data) else None
    case None =>
      var start, slot := Place(s.table, s.sectors, |data|), FreeSlot(s.table, 0);
      if parts == [] || start.None? || slot.None? then None
      else
        match Resolve(View(s), root, Front(parts))
        case None => None
        case Some(d) => Entering(s, d, slot.value, start.value, Last(parts), kind, data)
  }

  ghost function Deleted(s: Store, root: nat, parts: seq<Name>): Option<Store> {
    if parts == [] || Resolve(View(s), root, parts).None? || Resolve(View(s), root, Front(parts)).None? then None
    else
      var x, p := Resolve(View(s), root, parts).value, Resolve(View(s), root, Front(parts)).value;
      match Unlisted(s, p, x)
      case None => None
      case Some(s1) => if x < |s1.table| then Some(Free(s1, x)) else None
  }

  // The store with some slots dead.
  function Killed(s: Store, gone: set<nat>): (r: Store)
    ensures |r.table| == |s.table|
    ensures forall i :: 0 <= i < |s.table| ==> r.table[i] == if i in gone then s.table[i].(live := false) else s.table[i]
  {
    s.(table := seq(|s.table|, i requires 0 <= i < |s.table| => if i in gone then s.table[i].(live := false) else s.table[i]))
  }

  // The tree below the directory dies first; the parent is looked up without it.
  ghost function TreeDeleted(s: Store, root: nat, parts: seq<Name>): Option<Store> {
    if parts == [] || !IsDirectoryAt(View(s), root, parts) then None
    else
      var x := Target(View(s), root, parts);
      var s0 := Killed(s, Descendants(View(s), x) - {x});
      match Resolve(View(s0), root, Front(parts))
      case None => None
      case Some(p) =>
        match Unlisted(s0, p, x)
        case None => None
        case Some(s1) => if x < |s1.table| then Some(Free(s1, x)) else None
  }

  // The store between the two halves of a move, a function of the store before it.
  ghost function MovedOut(s: Store, root: nat, parts: seq<Name>): Option<Store> {
    if parts == [] || Resolve(View(s), root, parts).None? || Resolve(View(s), root, Front(parts)).None? then None
    else Unlisted(s, Resolve(View(s), root, Front(parts)).value, Resolve(View(s), root, parts).value)
  }

  ghost function Moved(s: Store, root: nat, parts: seq<Name>, to: seq<Name>): Option<Store> {
    match Resolve(View(s), root, Home(to))
    case None => None
    case Some(d) =>
      match MovedOut(s, root, parts)
      case None => None
      case Some(mid) =>
        match Added(mid, d, Target(View(s), root, parts), NewName(to))
        case None => Some(mid)
        case Some(s2) => Some(s2)
  }

  // An operation that cannot be done changes nothing.
  ghost function Exec(s: Store, root: nat, op: Op): Store {
    var r :=
      match op
      case Write(parts, kind, data) => Written(s, root, parts, kind, data)
      case Delete(parts) => Deleted(s, root, parts)
      case DeleteTree(parts) => TreeDeleted(s, root, parts)
      case Move(parts, to) => Moved(s, root, parts, to);
    if r.Some? then r.value else s
  }

  // ---------- What callers owe ----------

  ghost predicate Texts(parts: seq<Name>) {
    forall i :: 0 <= i < |parts| ==> 0 !in parts[i]
  }

  // The parent can take a record more: directories always can, a regular file if it is not full.
  ghost predicate RoomToEnter(v: Nodes, root: nat, front: seq<Name>) {
    match Resolve(v, root, front)
    case None => true
    case Some(d) => d in v && (IsDir(v[d]) || |v[d].bytes| + RECORD <= MAX_BYTES)
  }

  // Bounds of the code, and for deletions and moves that the directory of the file is not hidden.
  ghost predicate Allowed(v: Nodes, root: nat, op: Op) {
    match op
    case Write(parts, kind, data) =>
      Writable(kind, data) && Count(|data|) <= MAX_SECTORS && Texts(parts) && RoomToEnter(v, root, Home(parts))
    case Delete(parts) => parts != [] && Unshadowed(v, root, parts)
    case DeleteTree(parts) => Unshadowed(v, root, parts)
    case Move(parts, to) => parts != [] && Unshadowed(v, root, parts) && Texts(to) && RoomToEnter(v, root, Home(to))
  }

  // ---------- Effects: writing ----------

  lemma Enters(v: Nodes, root: nat, front: seq<Name>, d: nat)
    requires Wired(v, root) && InTable(v) && RoomToEnter(v, root, front) && Resolve(v, root, front) == Some(d)
    ensures d in v && |v[d].bytes| + RECORD <= MAX_BYTES
  {
    hide Wired;
    if IsDir(v[d]) { DirectoryFits(v, root, d); }
  }

  lemma Nameable(name: Name, slot: nat)
    requires 0 !in name && slot < SLOTS
    ensures Recordable(DirEntry(Stored(name), slot))
  {
  }

  // The reserved entry: the parent is where it was, and can take the record.
  lemma Reserved(s: Store, root: nat, d: nat, slot: nat, start: nat, name: Name, kind: Kind, data: seq<Byte>)
    requires FileStore.Valid(s) && d in View(s) && slot < SLOTS && !s.table[slot].live && Count(|data|) <= MAX_SECTORS
    requires Fits(s.table, s.sectors, start, Count(|data|)) && |View(s)[d].bytes| + RECORD <= MAX_BYTES
    ensures var s1 := Reserve(s, slot, kind, start, |data|);
            && FileStore.Valid(s1) && View(s1) == View(s)[slot := Node(kind, Content(s1, slot))]
            && d < SLOTS && d != slot && s1.table[d].live && s1.table[d].kind == View(s)[d].kind && Content(s1, d) == View(s)[d].bytes
  {
    hide Laid, Count, Fits, View, ReadSectors;
    InView(s);
    assert Hidden(s.table, slot) == s.table;
    ReserveView(s, slot, kind, start, |data|);
    InView(Reserve(s, slot, kind, start, |data|));
  }

  lemma EnteringEffect(s: Store, root: nat, d: nat, slot: nat, start: nat, name: Name, kind: Kind, data: seq<Byte>)
    requires FileStore.Valid(s) && d in View(s) && slot < SLOTS && !s.table[slot].live && Count(|data|) <= MAX_SECTORS
    requires Fits(s.table, s.sectors, start, Count(|data|)) && |View(s)[d].bytes| + RECORD <= MAX_BYTES && 0 !in name
    ensures var s1, r := Reserve(s, slot, kind, start, |data|), Entering(s, d, slot, start, name, kind, data);
            && d < SLOTS && slot < |s.table|
            && (r.None? <==> NoGap(Hidden(s1.table, d), s.sectors, |Records(View(s)[d].bytes)| + RECORD))
            && (r.Some? ==> FileStore.Valid(r.value) && r.value.sectors == s.sectors
                            && Entered(View(s), View(r.value), d, slot, name, Node(kind, data)))
  {
    hide Laid, Count, Fits, View, Content, WithRecord, Recordable, Records, NoGap, Added;
    InView(s);
    Reserved(s, root, d, slot, start, name, kind, data);
    Nameable(name, slot);
    var s1 := Reserve(s, slot, kind, start, |data|);
    SlotsOf(s1);
    AddedEffect(s1, d, slot, name);
    if Added(s1, d, slot, name).Some? {
      var s2 := Added(s1, d, slot, name).value;
      SlotsOf(s2);
      FillView(s2, slot, data);
    }
  }

  // A write succeeds exactly when the path names a regular file that has a place for the data, or
  // names nothing while a slot is free, the data has a place, the parent is found, and the parent's
  // file with one record more has a place beside the data.
  ghost predicate CanWrite(s: Store, root: nat, parts: seq<Name>, kind: Kind, size: nat) {
    match Resolve(View(s), root, parts)
    case Some(x) => x < |s.table| && s.table[x].kind == File && !NoGap(Hidden(s.table, x), s.sectors, size)
    case None =>
      var start, slot, d := Place(s.table, s.sectors, size), FreeSlot(s.table, 0), if parts == [] then None else Resolve(View(s), root, Front(parts));
      && start.Some? && slot.Some? && d.Some? && d.value < |s.table| && d.value in View(s)
      && !NoGap(Hidden(Reserve(s, slot.value, kind, start.value, size).table, d.value), s.sectors, |Records(View(s)[d.value].bytes)| + RECORD)
  }

  lemma WrittenEffect(s: Store, root: nat, parts: seq<Name>, kind: Kind, data: seq<Byte>)
    requires Good(s, root) && Allowed(View(s), root, Write(parts, kind, data))
    ensures var r := Written(s, root, parts, kind, data);
            && (r.Some? <==> CanWrite(s, root, parts, kind, |data|))
            && (r.Some? ==> FileStore.Valid(r.value) && r.value.sectors == s.sectors
                            && Wrote(View(s), View(r.value), root, parts, kind, data))
  {
    hide Wired, Laid, Count, View, Content, WithRecord, Recordable, Records, NoGap, Resolve, Edit, Entering, RoomToEnter;
    var v := View(s);
    InView(s);
    ResolvedLive(v, root, parts);
    match Resolve(v, root, parts)
    case Some(x) =>
      EditEffect(s, x, data);
    case None =>
      Nothing(v, root);
      var start, slot, d := Place(s.table, s.sectors, |data|), FreeSlot(s.table, 0), Resolve(v, root, Front(parts));
      if start.Some? && slot.Some? && d.Some? {
        Enters(v, root, Front(parts), d.value);
        LastText(parts);
        EnteringEffect(s, root, d.value, slot.value, start.value, Last(parts), kind, data);
      }
  }

  lemma LastText(parts: seq<Name>)
    requires Texts(parts) && parts != []
    ensures 0 !in Last(parts)
  {
  }

  lemma ResolvedLive(v: Nodes, root: nat, parts: seq<Name>)
    requires Wired(v, root)
    ensures Resolve(v, root, parts).Some? ==> Resolve(v, root, parts).value in v
  {
    if Resolve(v, root, parts).Some? { ResolveLive(v, root, parts); }
  }

  lemma WroteWired(v: Nodes, v': Nodes, root: nat, parts: seq<Name>, kind: Kind, data: seq<Byte>)
    requires Wired(v, root) && Writable(kind, data) && Wrote(v, v', root, parts, kind, data)
    ensures Wired(v', root)
  {
    hide Wired, Resolve, WithRecord, Agree, Created;
    match Resolve(v, root, parts)
    case Some(x) => RewriteAgrees(v, root, x, data);
    case None =>
      var d, slot :| Resolve(v, root, Front(parts)) == Some(d) && Entered(v, v', d, slot, Last(parts), Node(kind, data));
      EnteredWired(v, v', root, d, slot, Last(parts), Node(kind, data));
  }

  lemma EnteredWired(v: Nodes, v': Nodes, root: nat, d: nat, slot: nat, name: Name, node: Node)
    requires Wired(v, root) && Entered(v, v', d, slot, name, node) && Writable(node.kind, node.bytes)
    ensures Wired(v', root)
  {
    hide Wired, WithRecord, Agree, Created, Recordable;
    if IsDir(v[d]) {
      EnteredCreated(v, v', d, slot, name, node);
      CreateWired(v, v', root, d, slot, Stored(name), node);
    } else {
      var bytes := WithRecord(v[d].bytes, name, slot);
      RewriteAgrees(v, root, d, bytes);
      ReserveWired(v[d := Node(File, bytes)], root, slot, node);
    }
  }

  // ---------- Effects: deleting ----------

  // The parent that the code works on lists the slot, once, and is not below it.
  lemma Listing1(s: Store, root: nat, parts: seq<Name>) returns (p: nat, k: nat)
    requires Good(s, root) && parts != [] && Unshadowed(View(s), root, parts) && Resolve(View(s), root, parts).Some?
    ensures var v, x := View(s), Resolve(View(s), root, parts).value;
            && Resolve(v, root, Front(parts)) == Some(p) && Lists(v, p, k, x) && Reached(v, root, x) && x in v && x != root
            && Closed(v, Descendants(v, x)) && Detached(v, p, x, Descendants(v, x))
            && p !in Descendants(v, x) && root !in Descendants(v, x) && x in Descendants(v, x)
  {
    hide Wired, Resolve, View, Lists, Unshadowed, Descendants, Reached, Closed, Detached, FileStore.Valid;
    p, k := ParentListsIff(View(s), root, parts);
    ResolvedReached(View(s), root, parts);
    DescendantSets(View(s), root, p, k, Resolve(View(s), root, parts).value);
    BelowItself(View(s), Resolve(View(s), root, parts).value);
  }

  lemma DeletedEffect(s: Store, root: nat, parts: seq<Name>)
    requires Good(s, root) && Allowed(View(s), root, Delete(parts))
    ensures var r := Deleted(s, root, parts);
            && (r.Some? <==> Resolve(View(s), root, parts).Some?)
            && (r.Some? ==> Good(r.value, root) && r.value.sectors == s.sectors
                            && Unlinked(View(s), View(r.value), root, parts, {Target(View(s), root, parts)}))
  {
    hide Wired, Resolve, View, Lists, Unshadowed, Descendants, Reached, Closed, Detached, FileStore.Valid, Unlisted, Without, Removed, Content;
    if Resolve(View(s), root, parts).Some? {
      var x := Resolve(View(s), root, parts).value;
      var p, k := Listing1(s, root, parts);
      DirectoryUnlisted(s, root, p, k, x);
      SlotsOf(s);
      SlotsOf(Unlisted(s, p, x).value);
      InView(s);
      FreeView(Unlisted(s, p, x).value, x);
      WithoutRemoved(View(s), View(Free(Unlisted(s, p, x).value, x)), p, x, {x});
      OnlyParentLists(View(s), root, p, k, x);
      ListedIsLive(View(s), root, p, k, x);
      RemoveWired(View(s), View(Free(Unlisted(s, p, x).value, x)), root, p, x, {x});
    }
  }

  lemma KilledView(s: Store, gone: set<nat>)
    requires FileStore.Valid(s)
    ensures FileStore.Valid(Killed(s, gone)) && View(Killed(s, gone)) == View(s) - gone
  {
    hide ReadSectors, Count;
    assert |s.table| == SLOTS;
  }

  // With the tree below the slot dead, the parent is found as before.
  lemma WipedParent(s: Store, root: nat, parts: seq<Name>, p: nat, k: nat, x: nat)
    requires Good(s, root) && Resolve(View(s), root, parts) == Some(p) && Lists(View(s), p, k, x) && Reached(View(s), root, x)
    ensures var s0 := Killed(s, Descendants(View(s), x) - {x});
            && FileStore.Valid(s0) && s0.sectors == s.sectors && View(s0) == View(s) - (Descendants(View(s), x) - {x})
            && Resolve(View(s0), root, parts) == Some(p)
  {
    hide Wired, Resolve, View, Lists, Descendants, Reached, Closed, Detached, Agree;
    var v, gone := View(s), Descendants(View(s), x);
    KilledView(s, gone - {x});
    DescendantSets(v, root, p, k, x);
    RootLive(v, root);
    EndsOutside(v, gone, root, parts);
    DeadAgrees(v, gone, gone - {x});
    ResolveKept(v, v - (gone - {x}), gone, root, parts);
  }

  lemma TreeUnlisted(s: Store, root: nat, p: nat, k: nat, x: nat)
    requires Good(s, root) && Lists(View(s), p, k, x) && Reached(View(s), root, x)
    ensures var s0 := Killed(s, Descendants(View(s), x) - {x});
            && FileStore.Valid(s0) && p < SLOTS && x < SLOTS && s0.table[p].live && |Content(s0, p)| <= MAX_BYTES
            && ListsOnly(DecodeAll(Content(s0, p)), x, k) && Unlisted(s0, p, x).Some?
            && p in View(s) && Edited(s0, Unlisted(s0, p, x).value, p, Without(View(s)[p].bytes, x))
            && s0.table[p].kind == View(s)[p].kind
  {
    hide Wired, View, Lists, Descendants, Reached, Closed, Detached, Unlisted, Without, DecodeAll, ListsOnly, Edited;
    var s0 := Killed(s, Descendants(View(s), x) - {x});
    InView(s);
    KilledView(s, Descendants(View(s), x) - {x});
    DescendantSets(View(s), root, p, k, x);
    DirectoryUnlisted(s, root, p, k, x);
    assert s0.table[p] == s.table[p] && Content(s0, p) == Content(s, p);
    UnlistedEffect(s0, p, x, k);
  }

  lemma TreeDeletedEffect(s: Store, root: nat, parts: seq<Name>)
    requires Good(s, root) && Allowed(View(s), root, DeleteTree(parts))
    ensures var r := TreeDeleted(s, root, parts);
            && (r.Some? <==> IsDirectoryAt(View(s), root, parts))
            && (r.Some? ==> Good(r.value, root) && r.value.sectors == s.sectors
                            && Unlinked(View(s), View(r.value), root, parts, Descendants(View(s), Target(View(s), root, parts))))
  {
    hide Wired, Resolve, View, Lists, Unshadowed, Descendants, Reached, Closed, Detached, FileStore.Valid, Unlisted, Without, Removed, Content, Killed;
    if IsDirectoryAt(View(s), root, parts) {
      NotTheRoot(View(s), root, parts);
      var v, x := View(s), Resolve(View(s), root, parts).value;
      var gone := Descendants(v, x);
      var s0 := Killed(s, gone - {x});
      var p, k := Listing1(s, root, parts);
      WipedParent(s, root, Front(parts), p, k, x);
      TreeUnlisted(s, root, p, k, x);
      var s1 := Unlisted(s0, p, x).value;
      SlotsOf(s1);
      FreeView(s1, x);
      assert View(Free(s1, x)) == v[p := Node(v[p].kind, Without(v[p].bytes, x))] - gone;
      WithoutRemoved(v, View(Free(s1, x)), p, x, gone);
      ListedIsLive(v, root, p, k, x);
      RemoveWired(v, View(Free(s1, x)), root, p, x, gone);
    }
  }

  lemma NotTheRoot(v: Nodes, root: nat, parts: seq<Name>)
    requires Wired(v, root) && IsDirectoryAt(v, root, parts)
    ensures parts != []
  {
  }

  // ---------- Effects: moving ----------

  lemma MovedOutEffect(s: Store, root: nat, parts: seq<Name>) returns (p: nat, k: nat)
    requires Good(s, root) && parts != [] && Unshadowed(View(s), root, parts) && Resolve(View(s), root, parts).Some?
    ensures MovedOut(s, root, parts).Some?
    ensures var mid, x := MovedOut(s, root, parts).value, Resolve(View(s), root, parts).value;
            && Good(mid, root) && mid.sectors == s.sectors && x in View(s) && x != root && x < SLOTS
            && Resolve(View(s), root, Front(parts)) == Some(p) && Lists(View(s), p, k, x)
            && Removed(View(s), View(mid), p, x, {}) && forall d, i :: !Lists(View(mid), d, i, x)
  {
    hide Wired, Resolve, View, Lists, Unshadowed, Descendants, Reached, Closed, Detached, Unlisted, Without, Removed, Content;
    var x := Resolve(View(s), root, parts).value;
    p, k := Listing1(s, root, parts);
    DirectoryUnlisted(s, root, p, k, x);
    InView(s);
    var v, v1 := View(s), View(Unlisted(s, p, x).value);
    assert v1 == v1 - {};
    WithoutRemoved(v, v1, p, x, {});
    LeaveThenResolve(v, v1, root, p, k, x);
  }

  // The new parent's file after the first half of a move.
  lemma HomeFits(v: Nodes, v1: Nodes, root: nat, p: nat, x: nat, front: seq<Name>, d: nat)
    requires Wired(v, root) && Wired(v1, root) && InTable(v1) && Removed(v, v1, p, x, {})
    requires RoomToEnter(v, root, front) && Resolve(v, root, front) == Some(d) && p in v && IsDir(v[p])
    ensures d in v1 && |v1[d].bytes| + RECORD <= MAX_BYTES
  {
    hide Wired, Listing, Dropped;
    if IsDir(v1[d]) { DirectoryFits(v1, root, d); }
  }

  // The record enters exactly when the new parent's file, one record longer, has a place.
  ghost predicate Crowded(s: Store, d: nat) {
    d < |s.table| && d in View(s) && NoGap(Hidden(s.table, d), s.sectors, |Records(View(s)[d].bytes)| + RECORD)
  }

  lemma MovedEffect(s: Store, root: nat, parts: seq<Name>, to: seq<Name>)
    requires Good(s, root) && Allowed(View(s), root, Move(parts, to))
    ensures var r := Moved(s, root, parts, to);
            && (r.Some? <==> Resolve(View(s), root, parts).Some? && Resolve(View(s), root, Home(to)).Some?)
            && (r.Some? ==>
                  && Good(r.value, root) && r.value.sectors == s.sectors && MovedOut(s, root, parts).Some?
                  && var mid := MovedOut(s, root, parts).value;
                  && Relocated(View(s), View(mid), View(r.value), root, parts, to, !Crowded(mid, Target(View(s), root, Home(to))))
                  && (Crowded(mid, Target(View(s), root, Home(to))) ==> r.value == mid))
  {
    hide Wired, Resolve, View, Lists, Unshadowed, MovedOut, Without, Removed, Content, Added, RoomToEnter, Crowded, WithRecord, Recordable;
    if Resolve(View(s), root, parts).Some? && Resolve(View(s), root, Home(to)).Some? {
      var p, k := MovedOutEffect(s, root, parts);
      MovedIn(s, root, parts, to, p, k);
    }
    if Resolve(View(s), root, parts).None? { NothingOut(s, root, parts); }
  }

  lemma NothingOut(s: Store, root: nat, parts: seq<Name>)
    requires Resolve(View(s), root, parts).None?
    ensures MovedOut(s, root, parts).None?
  {
  }

  lemma MovedIn(s: Store, root: nat, parts: seq<Name>, to: seq<Name>, p: nat, k: nat)
    requires Good(s, root) && Allowed(View(s), root, Move(parts, to))
    requires Resolve(View(s), root, parts).Some? && Resolve(View(s), root, Home(to)).Some? && MovedOut(s, root, parts).Some?
    requires var mid, x := MovedOut(s, root, parts).value, Resolve(View(s), root, parts).value;
             && Good(mid, root) && x in View(s) && x != root && x < SLOTS
             && Resolve(View(s), root, Front(parts)) == Some(p) && Lists(View(s), p, k, x)
             && Removed(View(s), View(mid), p, x, {}) && forall d, i :: !Lists(View(mid), d, i, x)
    ensures var mid, x, d := MovedOut(s, root, parts).value, Resolve(View(s), root, parts).value, Resolve(View(s), root, Home(to)).value;
            var r := Added(mid, d, x, NewName(to));
            && (r.None? <==> Crowded(mid, d))
            && Relocated(View(s), View(mid), View(if r.Some? then r.value else mid), root, parts, to, r.Some?)
            && (r.Some? ==> Good(r.value, root) && r.value.sectors == mid.sectors)
  {
    hide Wired, Resolve, View, Lists, Unshadowed, MovedOut, Without, Removed, Content, Added, RoomToEnter, WithRecord, Recordable, NoGap, Records, Listing;
    var mid, x, d := MovedOut(s, root, parts).value, Resolve(View(s), root, parts).value, Resolve(View(s), root, Home(to)).value;
    var v, v1 := View(s), View(mid);
    InView(mid);
    ListedIsLive(v, root, p, k, x);
    HomeFits(v, v1, root, p, x, Home(to), d);
    SameKinds(v, v1, p, x, x);
    NewText(to);
    Nameable(NewName(to), x);
    AddedEffect(mid, d, x, NewName(to));
    var r := Added(mid, d, x, NewName(to));
    if r.Some? {
      WithRecordListing(Content(mid, d), NewName(to), x);
      WithRecordAppends(v1, View(r.value), d, x, NewName(to));
      AppendWired(v1, View(r.value), root, d, x, Stored(NewName(to)));
    }
  }

  lemma NewText(to: seq<Name>)
    requires Texts(to)
    ensures 0 !in NewName(to)
  {
  }

  lemma WithRecordAppends(v: Nodes, v': Nodes, d: nat, x: nat, name: Name)
    requires d in v && x in v && Recordable(DirEntry(Stored(name), x)) && v' == v[d := Node(v[d].kind, WithRecord(v[d].bytes, name, x))]
    ensures Appended(v, v', d, x, Stored(name))
  {
    hide DecodeAll, WithRecord;
    WithRecordListing(v[d].bytes, name, x);
  }

  // A move leaves the file in no directory exactly when the new parent has no room for its record,
  // or is a regular file.
  lemma MoveLosesIff(s: Store, root: nat, parts: seq<Name>, to: seq<Name>)
    requires Good(s, root) && Allowed(View(s), root, Move(parts, to)) && Moved(s, root, parts, to).Some?
    ensures MovedOut(s, root, parts).Some?
    ensures var v, v', x, d := View(s), View(Moved(s, root, parts, to).value), Target(View(s), root, parts), Target(View(s), root, Home(to));
            (forall e, i :: !Lists(v', e, i, x)) <==> Crowded(MovedOut(s, root, parts).value, d) || (d in v && v[d].kind == File)
  {
    hide Wired, Resolve, View, Lists, Unshadowed, MovedOut, Moved, Removed, Crowded, RoomToEnter, Listing, Appended;
    MovedEffect(s, root, parts, to);
    var p, k := MovedOutEffect(s, root, parts);
    var v, v1, v' := View(s), View(MovedOut(s, root, parts).value), View(Moved(s, root, parts, to).value);
    var x, d := Target(v, root, parts), Target(v, root, Home(to));
    ResolvedLive(v, root, Home(to));
    SameKinds(v, v1, p, x, d);
    if !Crowded(MovedOut(s, root, parts).value, d) {
      EntersFrom(v, v1, v', root, parts, to, x, d);
      if IsDir(v[d]) { AppendedIsListed(v1, v', d, x, Stored(NewName(to))); } else { RecordInFile(v1, v', d, x, Stored(NewName(to))); }
    }
  }

  lemma EntersFrom(v: Nodes, v1: Nodes, v': Nodes, root: nat, parts: seq<Name>, to: seq<Name>, x: nat, d: nat)
    requires Relocated(v, v1, v', root, parts, to, true) && x == Target(v, root, parts) && d == Target(v, root, Home(to))
    ensures Appended(v1, v', d, x, Stored(NewName(to)))
  {
    hide Appended, Removed, Resolve;
  }

  lemma AppendedIsListed(v: Nodes, v': Nodes, d: nat, x: nat, stored: Name)
    requires Appended(v, v', d, x, stored) && IsDir(v[d])
    ensures exists i :: Lists(v', d, i, x)
  {
    hide DecodeAll;
    assert Lists(v', d, |Listing(v, d)|, x);
  }

  // The moved file is found under its new path exactly when the new parent has room, lies outside
  // the moved tree, and the name can be stored and is borne by nothing else there.
  lemma MoveFindsIff(s: Store, root: nat, parts: seq<Name>, to: seq<Name>)
    requires Good(s, root) && Allowed(View(s), root, Move(parts, to)) && to != []
    requires Moved(s, root, parts, to).Some?
    ensures MovedOut(s, root, parts).Some?
    ensures var v, x := View(s), Target(View(s), root, parts);
            Resolve(View(Moved(s, root, parts, to).value), root, to) == Some(x) <==>
              !Crowded(MovedOut(s, root, parts).value, Target(v, root, Front(to))) && Welcome(v, root, to, x)
  {
    hide Wired, Resolve, View, Unshadowed, MovedOut, Moved, Crowded, RoomToEnter, Welcome, Relocated;
    MovedEffect(s, root, parts, to);
    var mid := MovedOut(s, root, parts).value;
    MoveThenFind(View(s), View(mid), View(Moved(s, root, parts, to).value), root, parts, to, !Crowded(mid, Target(View(s), root, Home(to))));
  }

  // ---------- Runs ----------

  // Extents stay apart and every slot stays listed at most once, whatever the names.
  lemma OpKeepsGood(s: Store, root: nat, op: Op)
    requires Good(s, root) && Allowed(View(s), root, op)
    ensures Good(Exec(s, root, op), root) && Exec(s, root, op).sectors == s.sectors
  {
    hide Wired, View, FileStore.Valid, Written, Deleted, TreeDeleted, Moved, Resolve, Wrote, Unlinked, Relocated, CanWrite, Crowded;
    match op
    case Write(parts, kind, data) =>
      WrittenEffect(s, root, parts, kind, data);
      if Written(s, root, parts, kind, data).Some? {
        WroteWired(View(s), View(Written(s, root, parts, kind, data).value), root, parts, kind, data);
      }
    case Delete(parts) => DeletedEffect(s, root, parts);
    case DeleteTree(parts) => TreeDeletedEffect(s, root, parts);
    case Move(parts, to) => MovedEffect(s, root, parts, to);
  }

  // A disk without a root gets an empty table with one.
  function Formatted(sectors: nat, disk: seq<Byte>): (s: Store)
    ensures s.sectors == sectors && s.disk == disk && |s.table| == SLOTS
    ensures forall i :: 0 <= i < SLOTS ==> s.table[i] == if i == 0 then Entry(true, Root, 21, 0) else Entry(false, File, 0, 0)
  {
    Store(sectors, seq(SLOTS, i => if i == 0 then Entry(true, Root, 21, 0) else Entry(false, File, 0, 0)), disk)
  }

  lemma FormattedGood(sectors: nat, disk: seq<Byte>)
    requires FIRST < sectors < 0x10000 && |disk| == sectors * SECTOR
    ensures Good(Formatted(sectors, disk), 0) && Formed(View(Formatted(sectors, disk)), 0)
    ensures View(Formatted(sectors, disk)) == map[0 := Node(Root, [])]
  {
    var s := Formatted(sectors, disk);
    assert View(s) == map[0 := Node(Root, [])];
    assert Formed(View(s), 0);
    IsWired(View(s), 0);
  }

  ghost predicate AllowedRun(s: Store, root: nat, ops: seq<Op>)
    decreases |ops|
  {
    ops != [] ==> Allowed(View(s), root, ops[0]) && AllowedRun(Exec(s, root, ops[0]), root, ops[1..])
  }

  ghost function ExecAll(s: Store, root: nat, ops: seq<Op>): Store
    decreases |ops|
  {
    if ops == [] then s else ExecAll(Exec(s, root, ops[0]), root, ops[1..])
  }

  // Over every run the live extents lie in the data area and do not overlap, and the directories
  // are a tree of listings; names may repeat.
  lemma {:induction false} RunKeepsGood(s: Store, root: nat, ops: seq<Op>)
    requires Good(s, root) && AllowedRun(s, root, ops)
    ensures Good(ExecAll(s, root, ops), root)
    decreases |ops|
  {
    hide Good, Exec, Allowed;
    if ops != [] {
      OpKeepsGood(s, root, ops[0]);
      RunKeepsGood(Exec(s, root, ops[0]), root, ops[1..]);
    }
  }

  lemma RunFromFormat(sectors: nat, disk: seq<Byte>, ops: seq<Op>)
    requires FIRST < sectors < 0x10000 && |disk| == sectors * SECTOR && AllowedRun(Formatted(sectors, disk), 0, ops)
    ensures Laid(ExecAll(Formatted(sectors, disk), 0, ops).table, ExecAll(Formatted(sectors, disk), 0, ops).sectors)
  {
    hide Wired, Laid, View, AllowedRun, ExecAll, Formatted;
    FormattedGood(sectors, disk);
    RunKeepsGood(Formatted(sectors, disk), 0, ops);
  }

  // ---------- Distinct names ----------

  // Whether an operation puts a name twice into a directory, said of the store before it.
  ghost predicate KeepsNames(s: Store, root: nat, op: Op) {
    match op
    case Write(parts, kind, data) => CanWrite(s, root, parts, kind, |data|) ==> NameFree(View(s), root, parts)
    case Delete(_) => true
    case DeleteTree(_) => true
    case Move(parts, to) =>
      Moved(s, root, parts, to).Some? && MovedOut(s, root, parts).Some? ==>
        || Crowded(MovedOut(s, root, parts).value, Target(View(s), root, Home(to)))
        || StaysDistinct(View(s), root, to, Target(View(s), root, parts))
  }

  lemma NamesKeptIff(s: Store, root: nat, op: Op)
    requires Good(s, root) && Formed(View(s), root) && Allowed(View(s), root, op)
    ensures Formed(View(Exec(s, root, op)), root) <==> KeepsNames(s, root, op)
  {
    hide Wired, Formed, View, FileStore.Valid, Written, Deleted, TreeDeleted, Moved, MovedOut, Resolve, Wrote, Relocated, CanWrite, Crowded,
         NameFree, StaysDistinct, Removed, Descendants;
    match op
    case Write(parts, kind, data) =>
      WrittenEffect(s, root, parts, kind, data);
      if Written(s, root, parts, kind, data).Some? {
        WriteThenRead(View(s), View(Written(s, root, parts, kind, data).value), root, parts, kind, data);
      }
    case Delete(parts) =>
      DeletedEffect(s, root, parts);
      if Deleted(s, root, parts).Some? { DeletedFormed(View(s), View(Deleted(s, root, parts).value), root, parts); }
    case DeleteTree(parts) =>
      TreeDeletedEffect(s, root, parts);
      if TreeDeleted(s, root, parts).Some? { TreeDeletedFormed(View(s), View(TreeDeleted(s, root, parts).value), root, parts); }
    case Move(parts, to) =>
      MovedEffect(s, root, parts, to);
      if Moved(s, root, parts, to).Some? {
        var mid := MovedOut(s, root, parts).value;
        MoveFormedIff(View(s), View(mid), View(Moved(s, root, parts, to).value), root, parts, to, !Crowded(mid, Target(View(s), root, Home(to))));
      }
  }

  lemma DeletedFormed(v: Nodes, v': Nodes, root: nat, parts: seq<Name>)
    requires Formed(v, root) && Unlinked(v, v', root, parts, {Target(v, root, parts)})
    ensures Formed(v', root)
  {
    hide Formed, Resolve, Removed, Unshadowed;
    IsWired(v, root);
    FormedUnshadowed(v, root, parts);
    var p, x :| Resolve(v, root, parts) == Some(x) && Resolve(v, root, Front(parts)) == Some(p) && Removed(v, v', p, x, {Target(v, root, parts)});
    DeleteThenResolve(v, v', root, parts, p, x);
  }

  lemma TreeDeletedFormed(v: Nodes, v': Nodes, root: nat, parts: seq<Name>)
    requires Formed(v, root) && IsDirectoryAt(v, root, parts) && Unlinked(v, v', root, parts, Descendants(v, Target(v, root, parts)))
    ensures Formed(v', root)
  {
    hide Formed, Resolve, Removed, Descendants, Unshadowed;
    IsWired(v, root);
    FormedUnshadowed(v, root, parts);
    var gone := Descendants(v, Target(v, root, parts));
    var p, x :| Resolve(v, root, parts) == Some(x) && Resolve(v, root, Front(parts)) == Some(p) && Removed(v, v', p, x, gone);
    DeleteDirectoryThenResolve(v, v', root, parts, p, x);
  }
}
