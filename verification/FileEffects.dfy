/**
 What the steps of the file operations mean for listings and paths: records added to and taken
 from directory files, extents that can always be rewritten in place, reserved slots, subtrees.
 */
module FileEffects {
  import opened Options
  import opened FreeSpace
  import opened FileStore
  import opened Directories
  import opened Namespace

  // ---------- Records in directory files ----------

  // The whole records of a file.
  function Records(b: seq<Byte>): (r: seq<Byte>) {
    b[..|b| / RECORD * RECORD]
  }

  lemma {:induction false} RecordsListing(b: seq<Byte>)
    ensures |Records(b)| % RECORD == 0 && DecodeAll(Records(b)) == DecodeAll(b)
    decreases |b|
  {
    hide Decode;
    if |b| >= RECORD {
      RecordsListing(b[RECORD..]);
      assert Records(b)[..RECORD] == b[..RECORD] && Records(b)[RECORD..] == Records(b[RECORD..]);
    }
  }

  // The file with one more record.
  function WithRecord(b: seq<Byte>, name: Name, slot: nat): (r: seq<Byte>)
    requires Recordable(DirEntry(Stored(name), slot))
  {
    Records(b) + Encode(DirEntry(Stored(name), slot))
  }

  lemma WithRecordListing(b: seq<Byte>, name: Name, slot: nat)
    requires Recordable(DirEntry(Stored(name), slot))
    ensures DecodeAll(WithRecord(b, name, slot)) == DecodeAll(b) + [DirEntry(Stored(name), slot)]
    ensures |WithRecord(b, name, slot)| % RECORD == 0 && |WithRecord(b, name, slot)| <= |b| + RECORD
  {
    hide DecodeAll, Recordable, Encode;
    RecordsListing(b);
    DecodeAppend(Records(b), DirEntry(Stored(name), slot));
  }

  function KeptRecord(r: seq<Byte>, slot: nat): seq<Byte>
    requires |r| == RECORD
  {
    if Decode(r).slot == slot then [] else r
  }

  // The records that do not name the slot.
  function Without(b: seq<Byte>, slot: nat): (r: seq<Byte>) {
    if |b| < RECORD then [] else KeptRecord(b[..RECORD], slot) + Without(b[RECORD..], slot)
  }

  lemma {:induction false} WithoutListing(b: seq<Byte>, slot: nat)
    ensures DecodeAll(Without(b, slot)) == Dropped(DecodeAll(b), slot)
    ensures |Without(b, slot)| == RECORD * |Dropped(DecodeAll(b), slot)|
  {
    hide Decode;
    if |b| >= RECORD {
      var r, rest := b[..RECORD], Without(b[RECORD..], slot);
      WithoutListing(b[RECORD..], slot);
      var all := KeptRecord(r, slot) + rest;
      assert DecodeAll(b)[1..] == DecodeAll(b[RECORD..]);
      if Decode(r).slot == slot {
        assert all == rest;
      } else {
        assert all[..RECORD] == r && all[RECORD..] == rest;
      }
    }
  }

  // ---------- Rewriting in place ----------

  // Whatever is no longer than the file it replaces has room where that file was.
  lemma ShrinkFits(table: seq<Entry>, sectors: nat, slot: nat, size: nat)
    requires Laid(table, sectors) && slot < SLOTS && Occupies(table[slot]) && size <= table[slot].size
    ensures var e := table[slot];
            FIRST <= e.start && e.start + Count(size) < sectors && !Blocked(Hidden(table, slot), e.start, Count(size))
  {
  }

  // ---------- Following listings ----------

  // Every listed slot is a table index, and there is one root: enough to follow a path.
  ghost predicate Indexed(v: Nodes, root: nat) {
    && root in v && v[root].kind == Root
    && (forall d :: d in v && v[d].kind == Root ==> d == root)
    && (forall d, i, x: nat :: Lists(v, d, i, x) ==> x < SLOTS)
  }

  ghost predicate InTable(v: Nodes) {
    forall x :: x in v ==> x < SLOTS
  }

  lemma WiredIndexed(v: Nodes, root: nat)
    requires Wired(v, root) && InTable(v)
    ensures Indexed(v, root)
  {
  }

  // The slots a listing names.
  ghost function Named(l: seq<DirEntry>): set<nat> {
    set i | 0 <= i < |l| :: l[i].slot
  }

  lemma {:induction false} NamedCount(l: seq<DirEntry>)
    requires forall i, j :: 0 <= i < j < |l| ==> l[i].slot != l[j].slot
    ensures |Named(l)| == |l|
  {
    if l != [] {
      var k := |l| - 1;
      var r := l[..k];
      NamedCount(r);
      assert Named(l) == Named(r) + {l[k].slot};
    }
  }

  lemma {:induction false} BoundedCount(s: set<nat>, n: nat)
    requires forall x :: x in s ==> x < n
    ensures |s| <= n
  {
    if n > 0 {
      var t := s - {n - 1};
      BoundedCount(t, n - 1);
      assert s <= t + {n - 1};
    }
  }

  // No directory outgrows the table.
  lemma DirectoryFits(v: Nodes, root: nat, d: nat)
    requires Wired(v, root) && InTable(v) && d in v && IsDir(v[d])
    ensures |v[d].bytes| <= SLOTS * RECORD
  {
    hide DecodeAll;
    assert Whole(v, d);
    var l := Listing(v, d);
    forall i, j | 0 <= i < j < |l|
      ensures l[i].slot != l[j].slot
    {
      assert Lists(v, d, i, l[i].slot) && Lists(v, d, j, l[j].slot);
    }
    NamedCount(l);
    BoundedCount(Named(l), SLOTS);
  }

  // ---------- Reserving a slot ----------

  // A new node that nothing lists changes no path.
  lemma {:induction false} ReserveResolve(v: Nodes, root: nat, slot: nat, node: Node, d: nat, parts: seq<Name>)
    requires Wired(v, root) && slot !in v && d in v && (IsDir(v[d]) || parts == [])
    ensures Resolve(v[slot := node], d, parts) == Resolve(v, d, parts)
    decreases |parts|
  {
    hide ListedOnce, DecodeAll, Lookup;
    if parts != [] {
      var v', last := v[slot := node], |parts| == 1;
      assert Whole(v, d);
      SameLookup(v, v', Listing(v, d), parts[0], last);
      var r := Lookup(v, Listing(v, d), parts[0], last);
      if r.Some? {
        FoundIsListed(v, d, parts[0], last);
        ReserveResolve(v, root, slot, node, r.value, parts[1..]);
      }
    }
  }

  lemma ReserveIndexed(v: Nodes, root: nat, slot: nat, node: Node)
    requires Indexed(v, root) && slot !in v && node.kind != Root && (node.kind == Directory ==> node.bytes == [])
    ensures Indexed(v[slot := node], root)
  {
    var v' := v[slot := node];
    forall d, i, x: nat | Lists(v', d, i, x)
      ensures x < SLOTS
    {
      if d != slot { assert Lists(v, d, i, x); }
    }
  }

  // ---------- The parent of a path ----------

  // The directory a path without its last part leads to lists what the path finds, under its last part.
  lemma ListerOf(v: Nodes, root: nat, parts: seq<Name>, name: Name) returns (d: nat, k: nat)
    requires Wired(v, root) && Resolve(v, root, parts + [name]).Some?
    ensures ResolveDir(v, root, parts) == Some(d) && d in v && IsDir(v[d])
    ensures var x := Resolve(v, root, parts + [name]).value; x in v && x != root && Lists(v, d, k, x)
    ensures Listing(v, d)[k].name == name
  {
    hide ListedOnce, Whole, Resolve, DecodeAll, Lookup, Lists;
    ResolveSnoc(v, root, parts, name);
    DirResolved(v, root, parts);
    d := ResolveDir(v, root, parts).value;
    k := FoundEntry(v, d, name);
    NotRoot(v, root, root, parts + [name]);
  }

  lemma {:induction false} DirResolved(v: Nodes, d: nat, parts: seq<Name>)
    requires d in v && IsDir(v[d]) && ResolveDir(v, d, parts).Some?
    ensures var r := ResolveDir(v, d, parts).value; r in v && IsDir(v[r])
    decreases |parts|
  {
    hide DecodeAll, Lookup;
    if parts != [] {
      FoundIsListed(v, d, parts[0], false);
      DirResolved(v, Lookup(v, Listing(v, d), parts[0], false).value, parts[1..]);
    }
  }

  lemma FoundEntry(v: Nodes, d: nat, name: Name) returns (k: nat)
    requires d in v && IsDir(v[d]) && Lookup(v, Listing(v, d), name, true).Some?
    ensures var x := Lookup(v, Listing(v, d), name, true).value;
            x in v && Lists(v, d, k, x) && Listing(v, d)[k].name == name
  {
    hide DecodeAll, Lookup;
    var l := Listing(v, d);
    k :| 0 <= k < |l| && l[k].slot == Lookup(v, l, name, true).value && Matches(v, l[k], name, true);
  }

  // ---------- Wiping a directory ----------

  lemma {:induction false} SubtreeRank(v: Nodes, root: nat, rank: map<nat, nat>, x: nat, y: nat)
    requires Wired(v, root) && Ranked(v, rank) && x in v && x in rank && y in Subtree(v, root, rank, x)
    ensures y in v && y in rank && rank[y] <= rank[x]
    decreases rank[x]
  {
    hide ListedOnce, DecodeAll, Below, Ranked;
    if y != x {
      ListingRanked(v, root, rank, x);
      var l := Listing(v, x);
      BelowMember(v, root, rank, l, rank[x], y);
      var k :| 0 <= k < |l| && y in Subtree(v, root, rank, l[k].slot);
      SubtreeRank(v, root, rank, l[k].slot, y);
    }
  }

  // The subtree of anything below x is below x.
  lemma {:induction false} UnderInside(v: Nodes, root: nat, rank: map<nat, nat>, x: nat, y: nat, z: nat)
    requires Wired(v, root) && Ranked(v, rank) && x in v && x in rank
    requires y in Under(v, root, rank, x) && y in v && y in rank && z in Subtree(v, root, rank, y)
    ensures z in Under(v, root, rank, x)
    decreases rank[x]
  {
    hide ListedOnce, DecodeAll, Below, Ranked;
    ListingRanked(v, root, rank, x);
    var l := Listing(v, x);
    BelowMember(v, root, rank, l, rank[x], y);
    BelowMember(v, root, rank, l, rank[x], z);
    var k :| 0 <= k < |l| && y in Subtree(v, root, rank, l[k].slot);
    if y != l[k].slot { UnderInside(v, root, rank, l[k].slot, y, z); }
    assert z in Subtree(v, root, rank, l[k].slot);
  }

  // Slots are only ever killed together with everything below them.
  ghost predicate Downward(v: Nodes, root: nat, rank: map<nat, nat>, gone: set<nat>)
    requires Wired(v, root) && Ranked(v, rank)
  {
    forall x :: x in gone ==> x in v && x in rank && Subtree(v, root, rank, x) <= gone
  }

  lemma DownwardUnder(v: Nodes, root: nat, rank: map<nat, nat>, gone: set<nat>, x: nat)
    requires Wired(v, root) && Ranked(v, rank) && Downward(v, root, rank, gone) && x in v && x in rank
    ensures Downward(v, root, rank, gone + Under(v, root, rank, x))
    ensures Downward(v, root, rank, gone + Subtree(v, root, rank, x))
  {
    hide Wired, Ranked, Under;
    var u := Under(v, root, rank, x);
    forall y | y in u
      ensures y in v && y in rank && Subtree(v, root, rank, y) <= u
    {
      assert y in Subtree(v, root, rank, x);
      SubtreeRank(v, root, rank, x, y);
      forall z | z in Subtree(v, root, rank, y)
        ensures z in u
      {
        UnderInside(v, root, rank, x, y, z);
      }
    }
  }

  lemma SubtreeSets(v: Nodes, root: nat, rank: map<nat, nat>, p: nat, k: nat, x: nat)
    requires Wired(v, root) && Ranked(v, rank) && x in v && x in rank && x != root && Lists(v, p, k, x)
    ensures Closed(v, Subtree(v, root, rank, x)) && Detached(v, p, x, Subtree(v, root, rank, x))
    ensures p !in Subtree(v, root, rank, x) && root !in Subtree(v, root, rank, x)
  {
    hide Wired, Subtree, Lists;
    var gone := Subtree(v, root, rank, x);
    forall d, i, y | Lists(v, d, i, y)
      ensures d in gone ==> y in gone
      ensures y in gone && d !in gone ==> d == p && y == x
    {
      if d in gone { SubtreeClosed(v, root, rank, x, d, i, y); }
      if y in gone { SubtreeDetached(v, root, rank, p, k, x, d, i, y); }
    }
    if p in gone { SubtreeRank(v, root, rank, x, p); }
    RootOutside(v, root, rank, x);
  }

  lemma {:induction false} RootOutside(v: Nodes, root: nat, rank: map<nat, nat>, x: nat)
    requires Wired(v, root) && Ranked(v, rank) && x in v && x in rank && x != root
    ensures root !in Subtree(v, root, rank, x)
    decreases rank[x]
  {
    hide ListedOnce, DecodeAll, Below, Ranked;
    if v[x].kind == Directory {
      ListingRanked(v, root, rank, x);
      var l := Listing(v, x);
      assert Whole(v, x);
      BelowMember(v, root, rank, l, rank[x], root);
      forall k | 0 <= k < |l|
        ensures root !in Subtree(v, root, rank, l[k].slot)
      {
        RootOutside(v, root, rank, l[k].slot);
      }
    }
  }

  lemma RootLive(v: Nodes, root: nat)
    requires Wired(v, root)
    ensures root in v && IsDir(v[root])
  {
  }

  // Slots dying changes no lookup that avoids them.
  lemma DeadAgrees(v: Nodes, gone: set<nat>, dead: set<nat>)
    requires dead <= gone
    ensures Agree(v, v - dead, gone)
  {
    var v' := v - dead;
    forall d, name, last, s: nat |
      d in v && IsDir(v[d]) && d !in gone && s !in gone && Lookup(v, Listing(v, d), name, last) == Some(s)
      ensures Lookup(v', Listing(v', d), name, last) == Some(s)
    {
      LookupSurvives(v, v', Listing(v, d), name, last, dead, d);
    }
  }

  lemma DeadIndexed(v: Nodes, root: nat, dead: set<nat>)
    requires Indexed(v, root) && root !in dead
    ensures Indexed(v - dead, root)
  {
    forall d, i, x: nat | Lists(v - dead, d, i, x)
      ensures x < SLOTS
    {
      assert Lists(v, d, i, x);
    }
  }
}
