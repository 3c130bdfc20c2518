/**
 The file operations as the kernel runs them: each loads the table, works on the copy in memory
 and saves it. `saved` is the table on the disk, `table` the copy; both describe extents of the
 same `disk`. Every method is proved to compute the corresponding function on stores.
 */
module FileSystem {
  import opened Options
  import opened FreeSpace
  import opened FileStore
  import opened Directories
  import opened Namespace
  import opened FileEffects
  import opened FileTree
  import opened FileLaws
  import opened FileOps
  import opened Paths

  class FileSystem {
    const sectors: nat
    var saved: seq<Entry>
    var table: seq<Entry>
    var disk: seq<Byte>
    ghost var root: nat

    function OnDisk(): Store
      reads this
    {
      Store(sectors, saved, disk)
    }

    function Loaded(): Store
      reads this
    {
      Store(sectors, table, disk)
    }

    // What the disk holds.
    ghost function Tree(): Nodes
      reads this
    {
      View(OnDisk())
    }

    // Between operations: extents are apart, and the directories form a tree of listings.
    ghost predicate Sound()
      reads this
    {
      Good(OnDisk(), root)
    }

    // During an operation.
    ghost predicate Navigable()
      reads this
    {
      FileStore.Valid(Loaded()) && Indexed(View(Loaded()), root)
    }

    // A disk without a root gets an empty table with one; a disk with a root is left alone.
    constructor (sectors: nat, saved: seq<Entry>, disk: seq<Byte>, ghost root: nat)
      requires FIRST < sectors < 0x10000 && |disk| == sectors * SECTOR && |saved| == SLOTS
      requires HasRoot(saved) ==> Good(Store(sectors, saved, disk), root)
      ensures Sound() && this.sectors == sectors
      ensures OnDisk() == if HasRoot(saved) then Store(sectors, saved, disk) else Formatted(sectors, disk)
    {
      this.sectors, this.disk := sectors, disk;
      var i := 0;
      while i < SLOTS && !(saved[i].live && saved[i].kind == Root)
        invariant i <= SLOTS && forall j :: 0 <= j < i ==> !(saved[j].live && saved[j].kind == Root)
      {
        i := i + 1;
      }
      this.saved := if i < SLOTS then saved else Formatted(sectors, disk).table;
      this.table := saved;
      this.root := if i < SLOTS then root else 0;
      new;
      FormattedGood(sectors, disk);
    }

    method FindRoot() returns (r: Option<nat>)
      requires Navigable()
      ensures r == Some(root)
    {
      hide Content, Laid;
      InView(Loaded());
      var i := 0;
      while i < SLOTS
        invariant i <= root
      {
        if table[i].live && table[i].kind == Root {
          return Some(i);
        }
        i := i + 1;
      }
      return None;
    }

    // The first live entry of a listing with the name; on the way down only directories count.
    method FindIn(l: seq<DirEntry>, name: Name, last: bool) returns (r: Option<nat>)
      requires FileStore.Valid(Loaded()) && forall i :: 0 <= i < |l| ==> l[i].slot < SLOTS
      ensures r == Lookup(View(Loaded()), l, name, last)
    {
      hide Content, Laid, Lookup;
      InView(Loaded());
      ghost var v := View(Loaded());
      var j := 0;
      assert l[0..] == l;
      while j < |l|
        invariant j <= |l| && Lookup(v, l[j..], name, last) == Lookup(v, l, name, last)
      {
        var e := l[j];
        LookupStep(v, l, j, name, last);
        if e.name == name && table[e.slot].live && (table[e.slot].kind == Directory || last) {
          return Some(e.slot);
        }
        j := j + 1;
      }
      LookupStep(v, l, j, name, last);
      return None;
    }

    method ResolvePath(path: Path) returns (r: Option<nat>)
      requires Navigable()
      ensures r == if path != [] && path[0] == SLASH then Resolve(View(Loaded()), root, Tokens(path)) else None
    {
      hide Content, Laid, Tokens, DecodeAll, Lookup;
      if path == [] || path[0] != SLASH {
        return None;
      }
      var parts := Split(path);
      var at := FindRoot();
      var current := at.value;
      InView(Loaded());
      ghost var v := View(Loaded());
      ghost var all := parts[..];
      assert all[0..] == all;
      var i := 0;
      while i < parts.Length
        invariant i <= parts.Length && parts[..] == all && current in v && (IsDir(v[current]) || i == |all|)
        invariant Resolve(v, root, all) == Resolve(v, current, all[i..])
      {
        var l := DecodeAll(Content(Loaded(), current));
        assert forall k :: 0 <= k < |l| ==> Lists(v, current, k, l[k].slot);
        assert all[i..][0] == all[i] && all[i..][1..] == all[i + 1..];
        var next := FindIn(l, parts[i], i == parts.Length - 1);
        if next.None? {
          return None;
        }
        FoundIsListed(v, current, all[i], i == |all| - 1);
        current := next.value;
        i := i + 1;
      }
      return Some(current);
    }

    // ---------- Changing one file ----------

    // The file's own extent counts as free while a place is looked for.
    method EditFile(slot: nat, data: seq<Byte>) returns (ok: bool)
      requires FileStore.Valid(Loaded()) && slot < SLOTS && Count(|data|) <= MAX_SECTORS
      modifies this`saved, this`table, this`disk
      ensures ok == (old(table[slot]).live && Edit(old(Loaded()), slot, data).Some?)
      ensures ok ==> Loaded() == Edit(old(Loaded()), slot, data).value && saved == table
      ensures !ok ==> table == old(table) && saved == old(saved) && disk == old(disk)
    {
      hide Laid, Count, Fits, ReadSectors, WriteSectors, View, Place;
      InView(Loaded());
      if !table[slot].live {
        return false;
      }
      ghost var s := Loaded();
      LaidAfterFreeing(table, sectors, slot);
      var kind := table[slot].kind;
      table := Hidden(table, slot);
      var r := FindSpace(table, sectors, |data|);
      if r.None? {
        table := table[slot := table[slot].(live := true)];
        assert table == s.table;
        return false;
      }
      table := table[slot := Entry(true, kind, r.value, |data|)];
      assert table == s.table[slot := Entry(true, kind, r.value, |data|)];
      disk := WriteSectors(disk, sectors, r.value, data);
      saved := table;
      return true;
    }

    // A new record at the end of a directory's file.
    method AddToDir(d: nat, slot: nat, name: Name) returns (ok: bool)
      requires FileStore.Valid(Loaded()) && d < SLOTS && table[d].live && Recordable(DirEntry(Stored(name), slot))
      requires |Content(Loaded(), d)| + RECORD <= MAX_BYTES
      modifies this`saved, this`table, this`disk
      ensures ok == Added(old(Loaded()), d, slot, name).Some?
      ensures ok ==> Loaded() == Added(old(Loaded()), d, slot, name).value && saved == table
      ensures !ok ==> table == old(table) && saved == old(saved) && disk == old(disk)
    {
      hide Laid, View, Edited, Records, Encode, Recordable, Content, Edit, Added, NoGap, Count;
      InView(Loaded());
      AddedEffect(Loaded(), d, slot, name);
      var entries := Records(Content(Loaded(), d)) + Encode(DirEntry(Stored(name), slot));
      ok := EditFile(d, entries);
    }

    // The records of the directory but the one of the slot; never longer, so it cannot fail.
    method RemoveFromDir(d: nat, slot: nat, ghost k: nat)
      requires FileStore.Valid(Loaded()) && d < SLOTS && table[d].live && |Content(Loaded(), d)| <= MAX_BYTES
      requires ListsOnly(DecodeAll(Content(Loaded(), d)), slot, k)
      modifies this`saved, this`table, this`disk
      ensures Unlisted(old(Loaded()), d, slot).Some? && Loaded() == Unlisted(old(Loaded()), d, slot).value && saved == table
    {
      hide Laid, Count, View, Edited, DecodeAll, Content, Without, NoGap, Edit, Unlisted, ListsOnly;
      InView(Loaded());
      UnlistedEffect(Loaded(), d, slot, k);
      var entries := OtherRecords(Content(Loaded(), d), slot);
      var ok := EditFile(d, entries);
    }

    method FindSlot() returns (r: Option<nat>)
      requires |table| == SLOTS
      ensures r == FreeSlot(table, 0)
    {
      var i := 0;
      while i < SLOTS
        invariant i <= SLOTS && FreeSlot(table, i) == FreeSlot(table, 0)
      {
        if !table[i].live {
          return Some(i);
        }
        i := i + 1;
      }
      return None;
    }

    // ---------- The operations ----------

    method Load()
      requires Sound()
      modifies this`table
      ensures table == saved && Sound() && Navigable()
    {
      hide Wired, View, Laid, Indexed;
      table := saved;
      InView(OnDisk());
      WiredIndexed(View(OnDisk()), root);
    }

    method ReadFile(path: Path) returns (r: Option<seq<Byte>>)
      requires Sound()
      modifies this`table
      ensures Sound()
      ensures r == if !ValidPath(path) then None else ContentAt(Tree(), root, Tokens(path))
    {
      hide Wired, Laid, Indexed, Content, Tokens, ValidPath, Resolve;
      var valid := IsValidPath(path);
      if !valid {
        return None;
      }
      Load();
      InView(Loaded());
      ValidIsAbsolute(path);
      var x := ResolvePath(path);
      ResolvedLive(View(Loaded()), root, Tokens(path));
      if x.None? {
        return None;
      }
      return Some(Content(Loaded(), x.value));
    }

    // Writes a file, or makes one.
    method WriteFile(path: Path, kind: Kind, data: seq<Byte>) returns (ok: bool)
      requires Sound() && 0 !in path && Writable(kind, data) && Count(|data|) <= MAX_SECTORS
      requires RoomToEnter(Tree(), root, Home(Tokens(path)))
      modifies this`saved, this`table, this`disk
      ensures Sound()
      ensures ok <==> ValidPath(path) && CanWrite(old(OnDisk()), root, Tokens(path), kind, |data|)
      ensures OnDisk() == if ok then Exec(old(OnDisk()), root, Write(Tokens(path), kind, data)) else old(OnDisk())
    {
      hide Wired, Laid, Indexed, Content, Tokens, ValidPath, Resolve, Count, Writable, View, RoomToEnter, NoGap, CanWrite, Entering, Edit, FreeSlot;
      var valid := IsValidPath(path);
      if !valid {
        return false;
      }
      Load();
      ghost var s := OnDisk();
      TokensText(path);
      InView(s);
      ValidIsAbsolute(path);
      WrittenEffect(s, root, Tokens(path), kind, data);
      OpKeepsGood(s, root, Write(Tokens(path), kind, data));
      var x := ResolvePath(path);
      ResolvedLive(View(s), root, Tokens(path));
      if x.Some? {
        if table[x.value].kind != File {
          return false;
        }
        ok := EditFile(x.value, data);
      } else {
        ok := WriteNew(path, kind, data);
      }
    }

    // The new entry is made first, then its record, which saves the table, and the data last.
    method WriteNew(path: Path, kind: Kind, data: seq<Byte>) returns (ok: bool)
      requires Sound() && Navigable() && table == saved && ValidPath(path)
      requires Allowed(Tree(), root, Write(Tokens(path), kind, data)) && Resolve(Tree(), root, Tokens(path)).None?
      modifies this`saved, this`table, this`disk
      ensures ok == Written(old(OnDisk()), root, Tokens(path), kind, data).Some?
      ensures OnDisk() == if ok then Written(old(OnDisk()), root, Tokens(path), kind, data).value else old(OnDisk())
    {
      hide Wired, Laid, Indexed, Content, Tokens, ValidPath, Resolve, Count, Writable, View, RoomToEnter, Recordable, WithRecord, Added,
           FreeSlot, Place, Records;
      ghost var v, s, parts := Tree(), Loaded(), Tokens(path);
      InView(s);
      Nothing(v, root);
      var start := FindSpace(table, sectors, |data|);
      if start.None? {
        return false;
      }
      var free := FindSlot();
      if free.None? {
        return false;
      }
      var slot := free.value;
      SlotIsFree(table, slot);
      table := table[slot := Entry(true, kind, start.value, |data|)];
      ghost var s1 := Loaded();
      ValidIsAbsolute(path);
      var dir, name := SplitPath(path);
      SplitValid(path, dir, name);
      ReservedIndexed(s, s1, root, slot, kind, data, start.value, Tokens(dir));
      var d := ResolvePath(dir);
      if d.None? {
        return false;
      }
      Enters(v, root, Front(parts), d.value);
      Reserved(s, root, d.value, slot, start.value, name, kind, data);
      LastText(parts);
      Nameable(name, slot);
      AddedEffect(s1, d.value, slot, name);
      ok := AddToDir(d.value, slot, name);
      if !ok {
        return false;
      }
      SlotsOf(Loaded());
      disk := WriteSectors(disk, sectors, start.value, data);
    }

    // Takes one slot out of its directory and frees it. The root is not a path to delete: it has
    // no record to take out.
    method DeleteFile(path: Path) returns (ok: bool)
      requires Sound() && Allowed(Tree(), root, Delete(Tokens(path)))
      modifies this`saved, this`table, this`disk
      ensures Sound()
      ensures ok <==> ValidPath(path) && Resolve(old(Tree()), root, Tokens(path)).Some?
      ensures OnDisk() == if ok then Exec(old(OnDisk()), root, Delete(Tokens(path))) else old(OnDisk())
    {
      hide Wired, Laid, Indexed, Content, Tokens, ValidPath, Resolve, View, Lists, Unshadowed, Unlisted, Descendants, Reached, Closed, Detached,
           ListsOnly, Unlinked;
      var valid := IsValidPath(path);
      if !valid {
        return false;
      }
      Load();
      ghost var s := OnDisk();
      ValidIsAbsolute(path);
      var found := ResolvePath(path);
      if found.None? {
        return false;
      }
      var x := found.value;
      DeletedEffect(s, root, Tokens(path));
      OpKeepsGood(s, root, Delete(Tokens(path)));
      var dir, name := SplitPath(path);
      SplitValid(path, dir, name);
      var parent := ResolvePath(dir);
      ghost var p, k := Listing1(s, root, Tokens(path));
      DirectoryUnlisted(s, root, p, k, x);
      RemoveFromDir(parent.value, x, k);
      SlotsOf(Loaded());
      table := Hidden(table, x);
      saved := table;
      return true;
    }

    // Frees what the directory lists, and what the directories among it list, in memory only.
    method WipeEntries(d: nat, ghost s: Store, ghost rank: map<nat, nat>, ghost gone: set<nat>) returns (ghost gone': set<nat>)
      requires Good(s, root) && Ranked(View(s), rank) && Loaded() == Killed(s, gone)
      requires d in View(s) && View(s)[d].kind == Directory && d in rank && Downward(View(s), root, rank, gone)
      modifies this`table
      ensures gone' == gone + Under(View(s), root, rank, d) && Loaded() == Killed(s, gone')
      decreases rank[d], 0
    {
      hide Wired, Laid, Ranked, View, Below, Under, Downward, RankedBelow, Subtree, Content, DecodeAll;
      ghost var v := View(s);
      InView(s);
      KilledContent(s, gone, d);
      var l := DecodeAll(Content(Loaded(), d));
      ListingRanked(v, root, rank, d);
      UnderIs(v, root, rank, d);
      gone' := gone;
      var i := 0;
      assert l[0..] == l;
      while i < |l|
        invariant i <= |l| && Loaded() == Killed(s, gone') && RankedBelow(v, rank, l[i..], rank[d])
        invariant Downward(v, root, rank, gone')
        invariant gone' + Below(v, root, rank, l[i..], rank[d]) == gone + Under(v, root, rank, d)
      {
        BelowStep(v, root, rank, l, i, rank[d]);
        gone' := WipeSlot(l[i].slot, s, rank, gone');
        i := i + 1;
      }
      NothingBelow(v, root, rank, l[i..], rank[d]);
    }

    method WipeSlot(x: nat, ghost s: Store, ghost rank: map<nat, nat>, ghost gone: set<nat>) returns (ghost gone': set<nat>)
      requires Good(s, root) && Ranked(View(s), rank) && Loaded() == Killed(s, gone)
      requires x in View(s) && x in rank && Downward(View(s), root, rank, gone)
      modifies this`table
      ensures gone' == gone + Subtree(View(s), root, rank, x) && Loaded() == Killed(s, gone')
      ensures Downward(View(s), root, rank, gone')
      decreases rank[x], 1
    {
      hide Wired, Laid, Ranked, View, Below, Under, Downward, Subtree, Content;
      InView(s);
      gone' := gone;
      if table[x].live {
        if table[x].kind == Directory {
          gone' := WipeEntries(x, s, rank, gone);
        } else {
          NothingUnder(View(s), root, rank, x);
        }
        table := Hidden(table, x);
        gone' := gone' + {x};
        assert Loaded().table == Killed(s, gone').table;
      }
      WipedOne(s, root, rank, gone, gone', x);
    }

    // Frees everything that listings lead to below the directory, and the directory.
    method DeleteDirectory(path: Path) returns (ok: bool)
      requires Sound() && Allowed(Tree(), root, Op.DeleteTree(Tokens(path)))
      modifies this`saved, this`table, this`disk
      ensures Sound()
      ensures ok <==> ValidPath(path) && IsDirectoryAt(old(Tree()), root, Tokens(path))
      ensures OnDisk() == if ok then Exec(old(OnDisk()), root, Op.DeleteTree(Tokens(path))) else old(OnDisk())
    {
      hide Wired, Laid, Indexed, Content, Tokens, ValidPath, Resolve, View, Unlinked, Unshadowed, TreeDeleted, Descendants;
      var valid := IsValidPath(path);
      if !valid {
        return false;
      }
      Load();
      InView(Loaded());
      ValidIsAbsolute(path);
      TreeDeletedEffect(OnDisk(), root, Tokens(path));
      OpKeepsGood(OnDisk(), root, Op.DeleteTree(Tokens(path)));
      var found := ResolvePath(path);
      ResolvedLive(Tree(), root, Tokens(path));
      if found.None? || table[found.value].kind != Directory {
        return false;
      }
      WipeAndUnlink(path, found.value);
      return true;
    }

    method WipeAndUnlink(path: Path, x: nat)
      requires Sound() && Navigable() && table == saved && ValidPath(path) && Unshadowed(Tree(), root, Tokens(path))
      requires Resolve(Tree(), root, Tokens(path)) == Some(x) && x in Tree() && Tree()[x].kind == Directory
      modifies this`saved, this`table, this`disk
      ensures TreeDeleted(old(OnDisk()), root, Tokens(path)) == Some(OnDisk())
    {
      hide Wired, Laid, Indexed, Content, Tokens, ValidPath, Resolve, View, Ranked, Downward, Under, Subtree, Lists, Unshadowed, Descendants,
           Closed, Detached, Reached, TreeDeleted;
      ghost var s := Loaded();
      ghost var rank := Rankable(View(s), root);
      NotTheRoot(View(s), root, Tokens(path));
      ghost var p, k := Listing1(s, root, Tokens(path));
      assert Loaded().table == Killed(s, {}).table;
      NoneGone(View(s), root, rank);
      ghost var gone := WipeEntries(x, s, rank, {});
      SubtreeIsDescendants(View(s), root, rank, p, k, x);
      UnderApart(View(s), root, rank, x);
      assert {} + gone == gone;
      Unlink(path, x, s, p, k);
    }

    // With everything below the directory freed, takes it out of its parent and frees it.
    method Unlink(path: Path, x: nat, ghost s: Store, ghost p: nat, ghost k: nat)
      requires Good(s, root) && ValidPath(path) && Tokens(path) != [] && Reached(View(s), root, x)
      requires Resolve(View(s), root, Tokens(path)) == Some(x) && x in View(s) && View(s)[x].kind == Directory
      requires Resolve(View(s), root, Front(Tokens(path))) == Some(p) && Lists(View(s), p, k, x)
      requires Loaded() == Killed(s, Descendants(View(s), x) - {x})
      modifies this`saved, this`table, this`disk
      ensures TreeDeleted(s, root, Tokens(path)) == Some(OnDisk())
    {
      hide Wired, Laid, Indexed, Content, Tokens, ValidPath, Resolve, View, ListsOnly, Without, Lists, Reached, Descendants, Edited, Hidden,
           Killed, Closed, Detached, Unlisted;
      ValidIsAbsolute(path);
      var dir, name := SplitPath(path);
      SplitValid(path, dir, name);
      WipedParent(s, root, Front(Tokens(path)), p, k, x);
      WipedIndexed(s, root, p, k, x);
      TreeUnlisted(s, root, p, k, x);
      var parent := ResolvePath(dir);
      RemoveFromDir(parent.value, x, k);
      EditedSlots(Killed(s, Descendants(View(s), x) - {x}), Loaded(), p, Without(View(s)[p].bytes, x));
      table := Hidden(table, x);
      saved := table;
    }

    // Takes the record out of one directory and puts one into another. Whether the second step
    // found room is not looked at: the move succeeds either way.
    method MoveFile(path: Path, to: Path) returns (ok: bool)
      requires Sound() && 0 !in to && Allowed(Tree(), root, Move(Tokens(path), Tokens(to)))
      modifies this`saved, this`table, this`disk
      ensures Sound()
      ensures ok <==> && ValidPath(path) && ValidPath(to)
                      && Resolve(old(Tree()), root, Tokens(path)).Some? && Resolve(old(Tree()), root, Home(Tokens(to))).Some?
      ensures OnDisk() == if ok then Exec(old(OnDisk()), root, Move(Tokens(path), Tokens(to))) else old(OnDisk())
    {
      hide Wired, Laid, Indexed, Content, Tokens, ValidPath, Resolve, View, ListsOnly, Without, Lists, RoomToEnter, Unlisted, Unshadowed,
           NoGap, Recordable, WithRecord, Relocated, Crowded, Edited, Removed, InTable, Added, Texts, Records;
      var valid := IsValidPath(path);
      var validTo := IsValidPath(to);
      if !valid || !validTo {
        return false;
      }
      ValidIsAbsolute(path);
      ValidIsAbsolute(to);
      var dir, name := SplitPath(path);
      var newDir, newName := SplitPath(to);
      SplitValid(path, dir, name);
      SplitValid(to, newDir, newName);
      Load();
      ghost var s := OnDisk();
      MovedEffect(s, root, Tokens(path), Tokens(to));
      OpKeepsGood(s, root, Move(Tokens(path), Tokens(to)));
      var found := ResolvePath(path);
      if found.None? {
        return false;
      }
      var x := found.value;
      var parent := ResolvePath(dir);
      var newParent := ResolvePath(newDir);
      if newParent.None? {
        return false;
      }
      ghost var p, k := MovedOutEffect(s, root, Tokens(path));
      DirectoryUnlisted(s, root, p, k, x);
      RemoveFromDir(parent.value, x, k);
      HomeReady(s, Loaded(), root, Tokens(to), p, k, x, newParent.value);
      var added := AddToDir(newParent.value, x, newName);
      return true;
    }
  }

  ghost predicate HasRoot(table: seq<Entry>) {
    exists i :: 0 <= i < |table| && table[i].live && table[i].kind == Root
  }

  lemma LookupStep(v: Nodes, l: seq<DirEntry>, j: nat, name: Name, last: bool)
    requires j <= |l|
    ensures Lookup(v, l[j..], name, last) ==
            if j == |l| then None
            else if Matches(v, l[j], name, last) then Some(l[j].slot) else Lookup(v, l[j + 1..], name, last)
  {
    assert j < |l| ==> l[j..][0] == l[j] && l[j..][1..] == l[j + 1..];
  }

  method OtherRecords(b: seq<Byte>, slot: nat) returns (entries: seq<Byte>)
    ensures entries == Without(b, slot)
  {
    hide Without, Decode;
    entries := [];
    var at := 0;
    assert b[0..] == b;
    while at + RECORD <= |b|
      invariant at <= |b| && entries + Without(b[at..], slot) == Without(b, slot)
    {
      WithoutStep(b, at, slot);
      var record := b[at..at + RECORD];
      if Decode(record).slot != slot {
        entries := entries + record;
      }
      at := at + RECORD;
    }
    NothingLeft(b[at..], slot);
  }

  lemma WithoutStep(b: seq<Byte>, at: nat, slot: nat)
    requires at + RECORD <= |b|
    ensures Without(b[at..], slot) == KeptRecord(b[at..at + RECORD], slot) + Without(b[at + RECORD..], slot)
  {
  }

  lemma NothingLeft(b: seq<Byte>, slot: nat)
    requires |b| < RECORD
    ensures Without(b, slot) == []
  {
  }

  lemma ValidIsAbsolute(path: Path)
    requires ValidPath(path)
    ensures path != [] && path[0] == SLASH && SLASH in path
  {
  }

  lemma {:induction false} TokensText(path: Path)
    requires 0 !in path
    ensures Texts(Tokens(path))
    decreases |path|
  {
    hide Components;
    if path != [] {
      if path[0] == SLASH {
        TokensText(path[1..]);
      } else {
        TokensText(path[Stretch(path)..]);
      }
    }
  }

  lemma SlotIsFree(table: seq<Entry>, slot: nat)
    requires FreeSlot(table, 0) == Some(slot)
    ensures slot < |table| && !table[slot].live
  {
  }

  // A path is followed with the new entry as without it.
  lemma ReservedIndexed(s: Store, s1: Store, root: nat, slot: nat, kind: Kind, data: seq<Byte>, start: nat, parts: seq<Name>)
    requires Good(s, root) && slot < SLOTS && !s.table[slot].live && Writable(kind, data) && Count(|data|) <= MAX_SECTORS
    requires Fits(s.table, s.sectors, start, Count(|data|)) && s1 == Reserve(s, slot, kind, start, |data|)
    ensures FileStore.Valid(s1) && Indexed(View(s1), root) && Resolve(View(s1), root, parts) == Resolve(View(s), root, parts)
  {
    hide Wired, Indexed, View, Fits, Laid, Count;
    InView(s);
    assert Hidden(s.table, slot) == s.table;
    ReserveView(s, slot, kind, start, |data|);
    RootLive(View(s), root);
    WiredIndexed(View(s), root);
    if data == [] { EmptyContent(s1, slot); }
    ReserveIndexed(View(s), root, slot, Node(kind, Content(s1, slot)));
    ReserveResolve(View(s), root, slot, Node(kind, Content(s1, slot)), root, parts);
  }

  lemma EmptyContent(s: Store, slot: nat)
    requires FileStore.Valid(s) && slot < SLOTS && s.table[slot].size == 0
    ensures Content(s, slot) == []
  {
  }

  lemma KilledContent(s: Store, gone: set<nat>, d: nat)
    requires FileStore.Valid(s) && d in View(s)
    ensures d < SLOTS && Content(Killed(s, gone), d) == View(s)[d].bytes
  {
  }

  lemma UnderIs(v: Nodes, root: nat, rank: map<nat, nat>, d: nat)
    requires Wired(v, root) && Ranked(v, rank) && d in v && d in rank && v[d].kind == Directory
    ensures RankedBelow(v, rank, Listing(v, d), rank[d])
    ensures Under(v, root, rank, d) == Below(v, root, rank, Listing(v, d), rank[d])
  {
    hide Wired, Ranked, RankedBelow;
    ListingRanked(v, root, rank, d);
  }

  lemma BelowStep(v: Nodes, root: nat, rank: map<nat, nat>, l: seq<DirEntry>, i: nat, r: nat)
    requires Wired(v, root) && Ranked(v, rank) && i < |l| && RankedBelow(v, rank, l[i..], r)
    ensures var x := l[i].slot; x in v && x in rank && rank[x] < r
    ensures RankedBelow(v, rank, l[i + 1..], r)
    ensures Below(v, root, rank, l[i..], r) == Subtree(v, root, rank, l[i].slot) + Below(v, root, rank, l[i + 1..], r)
  {
    hide Wired, Ranked;
    assert l[i..][0] == l[i] && l[i..][1..] == l[i + 1..];
  }

  lemma NothingBelow(v: Nodes, root: nat, rank: map<nat, nat>, l: seq<DirEntry>, r: nat)
    requires Wired(v, root) && Ranked(v, rank) && l == [] && RankedBelow(v, rank, l, r)
    ensures Below(v, root, rank, l, r) == {}
  {
  }

  lemma NothingUnder(v: Nodes, root: nat, rank: map<nat, nat>, x: nat)
    requires Wired(v, root) && Ranked(v, rank) && x in v && x in rank && v[x].kind != Directory
    ensures Under(v, root, rank, x) == {}
  {
  }

  lemma NoneGone(v: Nodes, root: nat, rank: map<nat, nat>)
    requires Wired(v, root) && Ranked(v, rank)
    ensures Downward(v, root, rank, {})
  {
  }

  // One entry wiped, or found already dead: its whole subtree is dead.
  lemma WipedOne(s: Store, root: nat, rank: map<nat, nat>, gone: set<nat>, gone': set<nat>, x: nat)
    requires Good(s, root) && Ranked(View(s), rank) && x in View(s) && x in rank
    requires Downward(View(s), root, rank, gone)
    requires gone' == if x in gone then gone else gone + Under(View(s), root, rank, x) + {x}
    ensures gone' == gone + Subtree(View(s), root, rank, x) && Downward(View(s), root, rank, gone')
  {
    hide Wired, Ranked, View, Under;
    DownwardUnder(View(s), root, rank, gone, x);
    assert gone + Under(View(s), root, rank, x) + {x} == gone + Subtree(View(s), root, rank, x);
  }

  // A slot is not below itself.
  lemma UnderApart(v: Nodes, root: nat, rank: map<nat, nat>, x: nat)
    requires Wired(v, root) && Ranked(v, rank) && x in v && x in rank
    ensures Under(v, root, rank, x) == Subtree(v, root, rank, x) - {x}
  {
    hide Wired, Ranked, Below, Listing;
    if x in Under(v, root, rank, x) {
      ListingRanked(v, root, rank, x);
      var l := Listing(v, x);
      BelowMember(v, root, rank, l, rank[x], x);
      var k :| 0 <= k < |l| && x in Subtree(v, root, rank, l[k].slot);
      SubtreeRank(v, root, rank, l[k].slot, x);
    }
  }

  lemma WipedIndexed(s: Store, root: nat, p: nat, k: nat, x: nat)
    requires Good(s, root) && Lists(View(s), p, k, x) && Reached(View(s), root, x)
    ensures var s0 := Killed(s, Descendants(View(s), x) - {x}); FileStore.Valid(s0) && Indexed(View(s0), root)
  {
    hide Wired, View, Lists, Descendants, Reached, Closed, Detached, Indexed;
    InView(s);
    KilledView(s, Descendants(View(s), x) - {x});
    DescendantSets(View(s), root, p, k, x);
    WiredIndexed(View(s), root);
    DeadIndexed(View(s), root, Descendants(View(s), x) - {x});
  }

  lemma EditedSlots(s: Store, s': Store, slot: nat, data: seq<Byte>)
    requires FileStore.Valid(s) && slot < SLOTS && Edited(s, s', slot, data)
    ensures |s'.table| == SLOTS
  {
  }

  // After the first half of a move the new parent can take a record.
  lemma HomeReady(s: Store, mid: Store, root: nat, to: seq<Name>, p: nat, k: nat, x: nat, d: nat)
    requires Good(s, root) && Good(mid, root) && Lists(View(s), p, k, x) && Removed(View(s), View(mid), p, x, {}) && x < SLOTS
    requires Texts(to) && RoomToEnter(View(s), root, Home(to)) && Resolve(View(s), root, Home(to)) == Some(d)
    ensures d < SLOTS && mid.table[d].live && |Content(mid, d)| + RECORD <= MAX_BYTES && Recordable(DirEntry(Stored(NewName(to)), x))
  {
    hide Wired, View, Lists, Removed, RoomToEnter, Resolve, Recordable, Content;
    InView(mid);
    ListedIsLive(View(s), root, p, k, x);
    HomeFits(View(s), View(mid), root, p, x, Home(to), d);
    NewText(to);
    Nameable(NewName(to), x);
  }
}
