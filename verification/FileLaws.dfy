/**
 What reading, writing, deleting and moving promise about paths: what was written is read back,
 what was deleted is gone, and every other path and file is as it was.
 */
module FileLaws {
  import opened Options
  import opened FreeSpace
  import opened FileStore
  import opened Directories
  import opened Namespace
  import opened FileEffects
  import opened FileTree

  // What a path reads.
  ghost function ContentAt(v: Nodes, root: nat, parts: seq<Name>): Option<seq<Byte>> {
    match Resolve(v, root, parts)
    case None => None
    case Some(x) => if x in v then Some(v[x].bytes) else None
  }

  lemma ResolvedIsLive(v: Nodes, root: nat, parts: seq<Name>)
    requires Wired(v, root)
    ensures Resolve(v, root, parts).Some? ==> Resolve(v, root, parts).value in v
  {
    if Resolve(v, root, parts).Some? { ResolveLive(v, root, parts); }
  }

  // ---------- The parent of a path ----------

  // Where the directory of a path's file is not hidden, the path without its last part finds it, and
  // does not lead through the file.
  lemma ParentOf(v: Nodes, root: nat, parts: seq<Name>, p: nat, x: nat) returns (k: nat)
    requires Wired(v, root) && parts != [] && Unshadowed(v, root, parts)
    requires Resolve(v, root, parts) == Some(x) && Resolve(v, root, Front(parts)) == Some(p)
    ensures x in v && x != root && p in v && IsDir(v[p]) && Lists(v, p, k, x) && Avoids(v, root, Front(parts), {x})
  {
    hide Wired, Resolve, Unshadowed, Lists, Avoids, Descendants;
    var d, j := ParentListsIff(v, root, parts);
    k := j;
    BelowItself(v, x);
    NotBelow(v, root, parts, Front(parts), x, {x});
  }

  // ---------- What paths find below a slot ----------

  // What a directory lists is found under its name.
  lemma ListedFound(v: Nodes, root: nat, d: nat, i: nat, x: nat)
    requires Formed(v, root) && Lists(v, d, i, x)
    ensures var name := Listing(v, d)[i].name;
            && Lookup(v, Listing(v, d), name, true) == Some(x)
            && (v[x].kind == Directory ==> Lookup(v, Listing(v, d), name, false) == Some(x))
  {
    hide ListedOnce, DecodeAll, Lookup;
    var l := Listing(v, d);
    var name := l[i].name;
    assert WellListed(v, d);
    assert Matches(v, l[i], name, true);
    var r := Lookup(v, l, name, true);
    var j :| 0 <= j < |l| && l[j].slot == r.value && Matches(v, l[j], name, true);
    assert i == j;
    if v[x].kind == Directory { DirFoundEitherWay(v, l, name); }
  }

  // What paths find below a slot, itself included.
  ghost function Reach(v: Nodes, x: nat): set<nat> {
    set y | y in v && exists q :: Resolve(v, x, q) == Some(y)
  }

  lemma DirectoryOnTheWay(v: Nodes, d: nat, name: Name, s: nat, rest: seq<Name>)
    requires Lookup(v, Listing(v, d), name, true) == Some(s) && Resolve(v, s, rest).Some?
    requires rest == [] || Lookup(v, Listing(v, d), name, false) == Some(s)
    ensures Resolve(v, d, [name] + rest) == Resolve(v, s, rest)
  {
  }

  lemma {:induction false} ChainNamed(v: Nodes, root: nat, x: nat, ks: seq<nat>) returns (q: seq<Name>)
    requires Formed(v, root) && x in v && Chain(v, x, ks).Some?
    ensures Resolve(v, x, q) == Chain(v, x, ks) && (q == [] || IsDir(v[x]))
    decreases |ks|
  {
    hide ListedOnce, DecodeAll, Lookup;
    if ks == [] { return []; }
    var l := Listing(v, x);
    var c := l[ks[0]].slot;
    assert WellListed(v, x);
    var rest := ChainNamed(v, root, c, ks[1..]);
    ListedFound(v, root, x, ks[0], c);
    DirectoryOnTheWay(v, x, l[ks[0]].name, c, rest);
    q := [l[ks[0]].name] + rest;
  }

  // With distinct names, what listings lead to below a directory is what paths find there.
  lemma ReachIsDescendants(v: Nodes, root: nat, x: nat)
    requires Formed(v, root) && x in v && IsDir(v[x])
    ensures Reach(v, x) == Descendants(v, x)
  {
    hide Formed, Resolve, Chain;
    forall y | y in Reach(v, x)
      ensures y in Descendants(v, x)
    {
      var q :| Resolve(v, x, q) == Some(y);
      var ks := ResolveChained(v, x, q);
    }
    forall y | y in Descendants(v, x)
      ensures y in Reach(v, x)
    {
      var ks :| Chain(v, x, ks) == Some(y);
      var q := ChainNamed(v, root, x, ks);
    }
  }

  // ---------- Writing ----------

  predicate Writable(kind: Kind, data: seq<Byte>) {
    kind == File || (kind == Directory && data == [])
  }

  // A new node in a free slot, recorded in the parent d, whatever kind of file d is.
  ghost predicate Entered(v: Nodes, v': Nodes, d: nat, slot: nat, name: Name, node: Node) {
    && d in v && slot !in v && Recordable(DirEntry(Stored(name), slot))
    && v' == v[d := Node(v[d].kind, WithRecord(v[d].bytes, name, slot))][slot := node]
  }

  // A file under the path is rewritten; without one, a new node is entered under the path's parent.
  ghost predicate Wrote(v: Nodes, v': Nodes, root: nat, parts: seq<Name>, kind: Kind, data: seq<Byte>) {
    match Resolve(v, root, parts)
    case Some(x) => x in v && v[x].kind == File && v' == v[x := Node(File, data)]
    case None =>
      && parts != []
      && exists d, slot :: Resolve(v, root, Front(parts)) == Some(d) && Entered(v, v', d, slot, Last(parts), Node(kind, data))
  }

  lemma EnteredCreated(v: Nodes, v': Nodes, d: nat, slot: nat, name: Name, node: Node)
    requires Entered(v, v', d, slot, name, node)
    ensures Created(v, v', d, slot, Stored(name), node) && |v'[d].bytes| % RECORD == 0
  {
    hide DecodeAll, WithRecord;
    WithRecordListing(v[d].bytes, name, slot);
  }

  // Under a directory: found again exactly when the name can be stored; names stay distinct exactly
  // when no entry bears the name that is stored.
  lemma EnterUnderDirectory(v: Nodes, v': Nodes, root: nat, parts: seq<Name>, d: nat, slot: nat, node: Node)
    requires Wired(v, root) && parts != [] && Resolve(v, root, parts).None? && Resolve(v, root, Front(parts)) == Some(d)
    requires Entered(v, v', d, slot, Last(parts), node) && IsDir(v[d]) && Writable(node.kind, node.bytes)
    ensures Wired(v', root)
    ensures Resolve(v', root, parts) == if |Last(parts)| < NAME_FIELD then Some(slot) else None
    ensures forall q :: Resolve(v, root, q).Some? ==> Resolve(v', root, q) == Resolve(v, root, q)
    ensures Formed(v, root) ==> (Formed(v', root) <==> Untaken(v, d, Stored(Last(parts))))
  {
    hide Formed, Wired, Resolve, Created, WithRecord, Lookup, Untaken;
    var name := Last(parts);
    assert parts == Front(parts) + [name];
    EnteredCreated(v, v', d, slot, name, node);
    CreateThenResolve(v, v', root, d, slot, name, node, Front(parts));
    CreateWired(v, v', root, d, slot, Stored(name), node);
    if Formed(v, root) { CreateFormedIff(v, v', root, d, slot, Stored(name), node); }
  }

  // A path that is not found has a name that its directory does not bear.
  lemma NotFoundUntaken(v: Nodes, root: nat, parts: seq<Name>, d: nat)
    requires Wired(v, root) && parts != [] && Resolve(v, root, parts).None?
    requires Resolve(v, root, Front(parts)) == Some(d) && d in v && IsDir(v[d])
    ensures Untaken(v, d, Last(parts))
  {
    hide ListedOnce, Resolve, Lookup, DecodeAll, Untaken;
    assert parts == Front(parts) + [Last(parts)];
    ParentIsDir(v, root, d, Front(parts));
    ResolvedDir(v, root, Front(parts));
    ResolveSnoc(v, root, Front(parts), Last(parts));
    LiveNames(v, d, Last(parts));
  }

  // A node that nothing lists changes no listing.
  lemma ReserveForm(v: Nodes, root: nat, slot: nat, node: Node)
    requires slot !in v && Writable(node.kind, node.bytes)
    ensures Wired(v, root) ==> Wired(v[slot := node], root)
    ensures Formed(v, root) ==> Formed(v[slot := node], root)
  {
    hide Formed, Wired, NamesDistinct;
    var v' := v[slot := node];
    if Wired(v, root) { ReserveWired(v, root, slot, node); }
    FormedIff(v, root);
    FormedIff(v', root);
    forall d | d in v' && IsDir(v'[d])
      ensures NamesDistinct(v', d) <==> d == slot || NamesDistinct(v, d)
    {
      if d == slot { EmptyNames(v', d); } else { SameNames(v, v', d); }
    }
  }

  lemma ReserveWired(v: Nodes, root: nat, slot: nat, node: Node)
    requires Wired(v, root) && slot !in v && Writable(node.kind, node.bytes)
    ensures Wired(v[slot := node], root)
  {
    hide DecodeAll, Lists, ListedOnce, Whole;
    var v' := v[slot := node];
    forall d | d in v' && IsDir(v'[d])
      ensures Whole(v', d)
    {
      ReservedWhole(v, root, slot, node, d);
    }
    forall d, i, x: nat | Lists(v', d, i, x)
      ensures Lists(v, d, i, x)
    {
      ReservedLists(v, slot, node, d, i, x);
    }
    OnceKept(v, v');
  }

  lemma ReservedWhole(v: Nodes, root: nat, slot: nat, node: Node, d: nat)
    requires Wired(v, root) && slot !in v && Writable(node.kind, node.bytes)
    requires d in v[slot := node] && IsDir(v[slot := node][d])
    ensures Whole(v[slot := node], d)
  {
    hide ListedOnce;
    if d != slot { assert Whole(v, d) && Listing(v[slot := node], d) == Listing(v, d); }
  }

  lemma ReservedLists(v: Nodes, slot: nat, node: Node, d: nat, i: nat, x: nat)
    requires slot !in v && Writable(node.kind, node.bytes) && Lists(v[slot := node], d, i, x)
    ensures Lists(v, d, i, x)
  {
  }

  // New bytes for a regular file change what no path finds.
  lemma {:induction false} RewriteResolve(v: Nodes, x: nat, bytes: seq<Byte>, d: nat, parts: seq<Name>)
    requires x in v && v[x].kind == File && d in v && (IsDir(v[d]) || parts == [])
    ensures Resolve(v[x := Node(File, bytes)], d, parts) == Resolve(v, d, parts)
    decreases |parts|
  {
    hide DecodeAll, Lookup;
    if parts != [] {
      var v', last := v[x := Node(File, bytes)], |parts| == 1;
      SameLookup(v, v', Listing(v, d), parts[0], last);
      var r := Lookup(v, Listing(v, d), parts[0], last);
      if r.Some? {
        FoundIsListed(v, d, parts[0], last);
        RewriteResolve(v, x, bytes, r.value, parts[1..]);
      }
    }
  }

  // Under a regular file: the record lands in that file's bytes, the new node is never found, and
  // every path finds what it found.
  lemma EnterUnderFile(v: Nodes, v': Nodes, root: nat, d: nat, slot: nat, name: Name, node: Node)
    requires Wired(v, root) && Entered(v, v', d, slot, name, node) && !IsDir(v[d]) && Writable(node.kind, node.bytes)
    ensures Wired(v', root) && (Formed(v, root) ==> Formed(v', root))
    ensures forall q :: Resolve(v', root, q) == Resolve(v, root, q)
  {
    hide Formed, Wired, Resolve, WithRecord, Agree;
    var bytes := WithRecord(v[d].bytes, name, slot);
    var v1 := v[d := Node(File, bytes)];
    RewriteAgrees(v, root, d, bytes);
    RootLive(v, root);
    RootLive(v1, root);
    ReserveForm(v1, root, slot, node);
    forall q
      ensures Resolve(v', root, q) == Resolve(v, root, q)
    {
      RewriteResolve(v, d, bytes, root, q);
      ReserveResolve(v1, root, slot, node, root, q);
    }
  }

  // Where a new path's parent is: a directory, with a name short enough to be stored whole.
  ghost predicate Enterable(v: Nodes, root: nat, parts: seq<Name>) {
    && parts != [] && |Last(parts)| < NAME_FIELD
    && var d := Resolve(v, root, Front(parts)); d.Some? && d.value in v && IsDir(v[d.value])
  }

  ghost predicate Findable(v: Nodes, root: nat, parts: seq<Name>) {
    Resolve(v, root, parts).Some? || Enterable(v, root, parts)
  }

  // No directory gets a name twice: the path exists, or its parent is a regular file, or the name
  // that is stored is new to the parent.
  ghost predicate NameFree(v: Nodes, root: nat, parts: seq<Name>) {
    Resolve(v, root, parts).None? && parts != [] && Resolve(v, root, Front(parts)).Some? ==>
      var d := Resolve(v, root, Front(parts)).value;
      d in v && (IsDir(v[d]) ==> Untaken(v, d, Stored(Last(parts))))
  }

  // A write that succeeds is read back, for a new path exactly when its parent is a directory and
  // its name can be stored; every path that resolved still does; no file changes but the one
  // written and the parent; names stay distinct exactly when the stored name is free.
  lemma WriteThenRead(v: Nodes, v': Nodes, root: nat, parts: seq<Name>, kind: Kind, data: seq<Byte>)
    requires Wired(v, root) && Writable(kind, data) && Wrote(v, v', root, parts, kind, data)
    ensures Wired(v', root)
    ensures var there := Resolve(v', root, parts);
            && (there.Some? ==> there.value in v' && v'[there.value].bytes == data)
            && (there.Some? <==> Findable(v, root, parts))
    ensures forall q :: Resolve(v, root, q).Some? ==> Resolve(v', root, q) == Resolve(v, root, q)
    ensures forall y :: y in v && Resolve(v, root, parts) != Some(y) && (parts == [] || Resolve(v, root, Front(parts)) != Some(y)) ==>
                          y in v' && v'[y] == v[y]
    ensures forall y :: y in v ==> y in v' && v'[y].kind == v[y].kind
    ensures Formed(v, root) ==> (Formed(v', root) <==> NameFree(v, root, parts))
    ensures Findable(v, root, parts) ==> NameFree(v, root, parts)
  {
    hide Formed, Wired, Resolve, WithRecord, Agree, Untaken;
    RootLive(v, root);
    match Resolve(v, root, parts)
    case Some(x) =>
      RewriteAgrees(v, root, x, data);
      forall q | Resolve(v, root, q).Some?
        ensures Resolve(v', root, q) == Resolve(v, root, q)
      {
        AvoidsNothing(v, root, q);
        ResolveKept(v, v', {}, root, q);
      }
    case None =>
      var d, slot :| Resolve(v, root, Front(parts)) == Some(d) && Entered(v, v', d, slot, Last(parts), Node(kind, data));
      if IsDir(v[d]) {
        EnterUnderDirectory(v, v', root, parts, d, slot, Node(kind, data));
        NotFoundUntaken(v, root, parts, d);
      } else {
        EnterUnderFile(v, v', root, d, slot, Last(parts), Node(kind, data));
      }
  }

  // ---------- Deleting ----------

  // The slot under the path leaves its parent's listing and dies with the rest of `gone`.
  ghost predicate Unlinked(v: Nodes, v': Nodes, root: nat, parts: seq<Name>, gone: set<nat>) {
    && parts != []
    && exists p, x :: Resolve(v, root, parts) == Some(x) && Resolve(v, root, Front(parts)) == Some(p) && Removed(v, v', p, x, gone)
  }

  ghost predicate IsDirectoryAt(v: Nodes, root: nat, parts: seq<Name>) {
    var x := Resolve(v, root, parts); x.Some? && x.value in v && v[x.value].kind == Directory
  }

  // The slot a path finds.
  ghost function Target(v: Nodes, root: nat, parts: seq<Name>): nat {
    match Resolve(v, root, parts) case Some(x) => x case None => 0
  }

  lemma OnlyParentLists(v: Nodes, root: nat, p: nat, k: nat, x: nat)
    requires Wired(v, root) && Lists(v, p, k, x)
    ensures Detached(v, p, x, {x})
  {
  }

  // A deleted file is found by no path, and its own path is gone exactly when no other entry bears
  // its name; paths that do not lead through it are as before, and for a regular file these are all
  // the paths that ended elsewhere.
  lemma DeleteThenResolve(v: Nodes, v': Nodes, root: nat, parts: seq<Name>, p: nat, x: nat)
    requires Wired(v, root) && parts != [] && Unshadowed(v, root, parts) && Resolve(v, root, parts) == Some(x)
    requires Resolve(v, root, Front(parts)) == Some(p) && Removed(v, v', p, x, {x})
    ensures Wired(v', root) && (Formed(v, root) ==> Formed(v', root))
    ensures forall q :: Resolve(v', root, q) != Some(x)
    ensures Resolve(v', root, parts).None? <==> UntakenBut(v, p, Last(parts), x)
    ensures forall q :: Resolve(v, root, q).Some? && Avoids(v, root, q, {x}) ==> Resolve(v', root, q) == Resolve(v, root, q)
    ensures x in v && v[x].kind == File ==>
              forall q :: Resolve(v, root, q).Some? && Resolve(v, root, q) != Some(x) ==> Resolve(v', root, q) == Resolve(v, root, q)
  {
    hide Formed, Wired, Resolve, Removed, Detached, Avoids, Lists, Unshadowed, UntakenBut;
    assert parts == Front(parts) + [Last(parts)];
    var k := ParentOf(v, root, parts, p, x);
    OnlyParentLists(v, root, p, k, x);
    RemoveThenResolve(v, v', root, p, x, {x}, Front(parts), Last(parts));
    DeadNotFound(v, v', root, p, x, {x});
    if v[x].kind == File {
      assert Closed(v, {x}) by { FilesListNothing(v, x); }
      RootLive(v, root);
      forall q | Resolve(v, root, q).Some? && Resolve(v, root, q) != Some(x)
        ensures Resolve(v', root, q) == Resolve(v, root, q)
      {
        EndsOutside(v, {x}, root, q);
      }
    }
  }

  lemma DeadNotFound(v: Nodes, v': Nodes, root: nat, p: nat, x: nat, gone: set<nat>)
    requires Wired(v', root) && Removed(v, v', p, x, gone)
    ensures forall q :: Resolve(v', root, q).Some? ==> Resolve(v', root, q).value !in gone
  {
    hide Wired, Resolve, Listing;
    forall q | Resolve(v', root, q).Some?
      ensures Resolve(v', root, q).value !in gone
    {
      ResolvedIsLive(v', root, q);
    }
  }

  lemma FilesListNothing(v: Nodes, x: nat)
    requires x in v && v[x].kind == File
    ensures Closed(v, {x})
  {
  }

  // A deleted directory takes with it exactly what its entries lead to: no path finds any of it, and
  // every path that ended elsewhere is as before. Its path, and all below it, is gone exactly when no
  // other entry bears its name.
  lemma DeleteDirectoryThenResolve(v: Nodes, v': Nodes, root: nat, parts: seq<Name>, p: nat, x: nat)
    requires Wired(v, root) && parts != [] && Unshadowed(v, root, parts) && Resolve(v, root, parts) == Some(x)
    requires Resolve(v, root, Front(parts)) == Some(p) && Removed(v, v', p, x, Descendants(v, x))
    ensures Wired(v', root) && (Formed(v, root) ==> Formed(v', root))
    ensures forall q :: Resolve(v', root, q).Some? ==> Resolve(v', root, q).value !in Descendants(v, x)
    ensures Resolve(v', root, parts).None? <==> UntakenBut(v, p, Last(parts), x)
    ensures UntakenBut(v, p, Last(parts), x) ==> forall more :: Resolve(v', root, parts + more).None?
    ensures forall q :: Resolve(v, root, q).Some? && Resolve(v, root, q).value !in Descendants(v, x) ==> Resolve(v', root, q) == Resolve(v, root, q)
  {
    hide Formed, Wired, Resolve, Removed, Detached, Avoids, Lists, Closed, Reached, Descendants, Unshadowed, UntakenBut;
    var gone := Descendants(v, x);
    assert parts == Front(parts) + [Last(parts)];
    var k := ParentOf(v, root, parts, p, x);
    ResolvedReached(v, root, parts);
    DescendantSets(v, root, p, k, x);
    RootLive(v, root);
    EndsOutside(v, gone, root, Front(parts));
    assert x in gone by { BelowItself(v, x); }
    RemoveThenResolve(v, v', root, p, x, gone, Front(parts), Last(parts));
    DeadNotFound(v, v', root, p, x, gone);
    forall q | Resolve(v, root, q).Some? && Resolve(v, root, q).value !in gone
      ensures Resolve(v', root, q) == Resolve(v, root, q)
    {
      EndsOutside(v, gone, root, q);
    }
  }

  // ---------- Moving ----------

  // Where a new name goes: under the root, with an empty name, for the root's own path.
  function Home(to: seq<Name>): seq<Name> {
    if to == [] then [] else Front(to)
  }

  function NewName(to: seq<Name>): Name {
    if to == [] then [] else Last(to)
  }

  // The slot leaves the old parent's listing and, if there was room, enters the new parent's file.
  ghost predicate Relocated(v: Nodes, v1: Nodes, v': Nodes, root: nat, parts: seq<Name>, to: seq<Name>, entered: bool) {
    && parts != []
    && exists p, x, p2 ::
         && Resolve(v, root, parts) == Some(x) && Resolve(v, root, Front(parts)) == Some(p)
         && Resolve(v, root, Home(to)) == Some(p2) && Removed(v, v1, p, x, {})
         && if entered then Appended(v1, v', p2, x, Stored(NewName(to))) else v' == v1
  }

  lemma NotListedTwice(v: Nodes, root: nat, p: nat, k: nat, x: nat, d: nat)
    requires Wired(v, root) && Lists(v, p, k, x) && d in v && IsDir(v[d]) && d != p
    ensures forall i :: 0 <= i < |Listing(v, d)| ==> Listing(v, d)[i].slot != x
  {
    hide DecodeAll, Whole;
    forall i | 0 <= i < |Listing(v, d)|
      ensures Listing(v, d)[i].slot != x
    {
      assert Lists(v, d, i, Listing(v, d)[i].slot);
    }
  }

  lemma UntakenAfterRemoval(v: Nodes, v1: Nodes, root: nat, p: nat, k: nat, x: nat, d: nat, name: Name)
    requires Wired(v, root) && Removed(v, v1, p, x, {}) && Lists(v, p, k, x) && d in v && IsDir(v[d])
    ensures Untaken(v1, d, name) <==> UntakenBut(v, d, name, x)
  {
    hide DecodeAll, Whole, Dropped, Wired;
    var l := Listing(v, d);
    if d == p {
      var r := Listing(v1, d);
      DroppedNames(l, x, name);
      assert r == Dropped(l, x);
      assert Untaken(v1, d, name) <==> forall i :: 0 <= i < |r| ==> r[i].name != name;
      assert UntakenBut(v, d, name, x) <==> forall i :: 0 <= i < |l| && l[i].name == name ==> l[i].slot == x;
    } else {
      NotListedTwice(v, root, p, k, x, d);
      assert Listing(v1, d) == l;
    }
  }

  // The listing with one more entry: at the end of p the new one, elsewhere what was listed before.
  lemma AppendedLists(v: Nodes, v': Nodes, p: nat, x: nat, stored: Name, d: nat, i: nat, y: nat)
    requires Appended(v, v', p, x, stored) && Lists(v', d, i, y) && forall c, j :: !Lists(v, c, j, x)
    ensures if d == p && i == |Listing(v, p)| then y == x else Lists(v, d, i, y) && y != x
  {
    hide DecodeAll;
    if !(d == p && i == |Listing(v, p)|) { assert Lists(v, d, i, y); }
  }

  // A slot that was listed nowhere may be listed by a directory, or its record may end up in the
  // bytes of a regular file: slots are still listed at most once.
  lemma AppendWired(v: Nodes, v': Nodes, root: nat, p: nat, x: nat, stored: Name)
    requires Wired(v, root) && Appended(v, v', p, x, stored)
    requires (forall d, i :: !Lists(v, d, i, x)) && x != root
    ensures Wired(v', root)
  {
    hide DecodeAll, Whole, ListedOnce, Lists;
    forall d | d in v' && IsDir(v'[d])
      ensures Whole(v', d)
    {
      AppendedWhole(v, v', root, p, x, stored, d);
    }
    forall y, d, c, i, j | Lists(v', d, i, y) && Lists(v', c, j, y)
      ensures d == c && i == j
    {
      AppendedLists(v, v', p, x, stored, d, i, y);
      AppendedLists(v, v', p, x, stored, c, j, y);
      if y != x { OnePlace(v, root, d, i, c, j, y); }
    }
    ListedOnceFrom(v');
  }

  lemma AppendedWhole(v: Nodes, v': Nodes, root: nat, p: nat, x: nat, stored: Name, d: nat)
    requires Wired(v, root) && Appended(v, v', p, x, stored) && x != root && d in v' && IsDir(v'[d])
    ensures Whole(v', d)
  {
    hide DecodeAll, ListedOnce, Lists;
    assert Whole(v, d);
    var l' := Listing(v', d);
    assert d != p ==> l' == Listing(v, d);
    forall i | 0 <= i < |l'|
      ensures l'[i].slot in v' && v'[l'[i].slot].kind != Root
    {
      if d == p && i == |l'| - 1 { assert l'[i].slot == x; }
    }
  }

  // Names stay distinct exactly when the new parent is a regular file or no entry bears the name
  // that is stored.
  lemma AppendFormedIff(v: Nodes, v': Nodes, root: nat, p: nat, x: nat, stored: Name)
    requires Formed(v, root) && Appended(v, v', p, x, stored)
    requires (forall d, i :: !Lists(v, d, i, x)) && x != root
    ensures Formed(v', root) <==> !IsDir(v[p]) || Untaken(v, p, stored)
  {
    hide Formed, Wired, NamesDistinct, Untaken, Lists, Listing;
    IsWired(v, root);
    AppendWired(v, v', root, p, x, stored);
    FormedIff(v, root);
    FormedIff(v', root);
    forall d | d in v && IsDir(v[d])
      ensures NamesDistinct(v', d) <==> d != p || Untaken(v, p, stored)
    {
      if d == p { NamesAfterAppend(v, v', p, DirEntry(stored, x)); } else { SameNames(v, v', d); }
    }
  }

  // A slot that only left its parent's listing is listed nowhere, and other paths are as before.
  lemma LeaveThenResolve(v: Nodes, v1: Nodes, root: nat, p: nat, k: nat, x: nat)
    requires Wired(v, root) && Removed(v, v1, p, x, {}) && Lists(v, p, k, x)
    ensures Wired(v1, root) && (Formed(v, root) ==> Formed(v1, root)) && forall d, i :: !Lists(v1, d, i, x)
    ensures forall q :: Resolve(v, root, q).Some? && Avoids(v, root, q, {x}) ==> Resolve(v1, root, q) == Resolve(v, root, q)
  {
    hide Formed, Wired, Resolve, Removed, Avoids, Lists, Agree, Detached;
    LeftNowhere(v, v1, root, p, k, x);
    RemoveAgrees(v, v1, p, x, {});
    assert {} + {x} == {x};
    RootLive(v, root);
    forall q | Resolve(v, root, q).Some? && Avoids(v, root, q, {x})
      ensures Resolve(v1, root, q) == Resolve(v, root, q)
    {
      ResolveKept(v, v1, {x}, root, q);
    }
  }

  lemma LeftNowhere(v: Nodes, v1: Nodes, root: nat, p: nat, k: nat, x: nat)
    requires Wired(v, root) && Removed(v, v1, p, x, {}) && Lists(v, p, k, x)
    ensures Wired(v1, root) && (Formed(v, root) ==> Formed(v1, root)) && forall d, i :: !Lists(v1, d, i, x)
  {
    hide Formed, Wired, DecodeAll, Dropped;
    RemoveWired(v, v1, root, p, x, {});
    if Formed(v, root) { RemoveFormed(v, v1, root, p, x, {}); }
    forall d, i | Lists(v1, d, i, x)
      ensures false
    {
      var j := WasListed(v, v1, p, x, {}, d, i, x);
      OnePlace(v, root, d, j, p, k, x);
      var from := DroppedFrom(Listing(v, p), x);
    }
  }

  // A slot that nothing lists is never found.
  lemma UnlistedNotFound(v: Nodes, root: nat, x: nat, q: seq<Name>)
    requires Wired(v, root) && x != root && forall d, i :: !Lists(v, d, i, x)
    ensures Resolve(v, root, q) != Some(x)
  {
    hide Wired, Resolve, Lists;
    Nothing(v, root);
    if q != [] && Resolve(v, root, q) == Some(x) {
      assert q == Front(q) + [Last(q)];
      var d, k := ListerOf(v, root, Front(q), Last(q));
    }
  }

  // Nothing outside lists anything inside: no path from outside leads inside.
  lemma {:induction false} NoWayIn(v: Nodes, inside: set<nat>, d: nat, ks: seq<nat>)
    requires d !in inside && Chain(v, d, ks).Some?
    requires forall e, i, y :: Lists(v, e, i, y) && y in inside ==> e in inside
    ensures Chain(v, d, ks).value !in inside
    decreases |ks|
  {
    if ks != [] {
      var e := Listing(v, d)[ks[0]].slot;
      assert Lists(v, d, ks[0], e);
      NoWayIn(v, inside, e, ks[1..]);
    }
  }

  // A move into the slot's own tree cuts the tree off: no path leads to any part of it.
  lemma MovedIntoItself(v: Nodes, v1: Nodes, v': Nodes, root: nat, p: nat, k: nat, x: nat, p2: nat, stored: Name, q: seq<Name>)
    requires Wired(v, root) && Removed(v, v1, p, x, {}) && Lists(v, p, k, x) && Reached(v, root, x)
    requires Appended(v1, v', p2, x, stored) && p2 in Descendants(v, x)
    ensures Resolve(v', root, q).Some? ==> Resolve(v', root, q).value !in Descendants(v, x)
  {
    hide Wired, Resolve, Removed, Appended, Descendants, Lists, Closed, Detached;
    var inside := Descendants(v, x);
    ListedIsLive(v, root, p, k, x);
    DescendantSets(v, root, p, k, x);
    assert x in inside by { BelowItself(v, x); }
    LeaveThenResolve(v, v1, root, p, k, x);
    AppendWired(v1, v', root, p2, x, stored);
    forall e, i, y | Lists(v', e, i, y) && y in inside
      ensures e in inside
    {
      AppendedLists(v1, v', p2, x, stored, e, i, y);
      if e != p2 { InsideListers(v, v1, p, x, inside, e, i, y); }
    }
    if Resolve(v', root, q).Some? {
      RootLive(v', root);
      var ks := ResolveChained(v', root, q);
      NoWayIn(v', inside, root, ks);
    }
  }

  lemma InsideListers(v: Nodes, v1: Nodes, p: nat, x: nat, inside: set<nat>, e: nat, i: nat, y: nat)
    requires Removed(v, v1, p, x, {}) && Detached(v, p, x, inside) && Lists(v1, e, i, y) && y in inside && y != x
    ensures e in inside
  {
    hide DecodeAll, Dropped;
    var j := WasListed(v, v1, p, x, {}, e, i, y);
  }

  // A path that does not avoid the slot ends in its tree.
  lemma {:induction false} PassesIsBelow(v: Nodes, d: nat, parts: seq<Name>, x: nat)
    requires d in v && (IsDir(v[d]) || parts == []) && Resolve(v, d, parts).Some? && !Avoids(v, d, parts, {x})
    ensures Resolve(v, d, parts).value in Descendants(v, x)
    decreases |parts|
  {
    hide DecodeAll, Lookup;
    if d == x {
      var ks := ResolveChained(v, d, parts);
      ResolveLive(v, d, parts);
    } else {
      FoundIsListed(v, d, parts[0], |parts| == 1);
      PassesIsBelow(v, Lookup(v, Listing(v, d), parts[0], |parts| == 1).value, parts[1..], x);
    }
  }

  // The new parent is a directory outside the moved slot's tree, and the name can be stored and is
  // borne by nothing else there.
  ghost predicate Welcome(v: Nodes, root: nat, to: seq<Name>, x: nat) {
    && to != [] && |Last(to)| < NAME_FIELD && Resolve(v, root, Front(to)).Some? && Avoids(v, root, Front(to), {x})
    && var d := Resolve(v, root, Front(to)).value; d in v && IsDir(v[d]) && UntakenBut(v, d, Last(to), x)
  }

  // The new path finds the moved file exactly when there was room for its record and the new place
  // is welcome to it; all of it is said of the tree before the move.
  lemma MoveThenFind(v: Nodes, v1: Nodes, v': Nodes, root: nat, parts: seq<Name>, to: seq<Name>, entered: bool)
    requires Wired(v, root) && to != [] && Unshadowed(v, root, parts) && Relocated(v, v1, v', root, parts, to, entered)
    ensures var x := Target(v, root, parts); Resolve(v', root, to) == Some(x) <==> entered && Welcome(v, root, to, x)
  {
    hide Wired, Resolve, Removed, Avoids, Lists, Appended, Listing, Untaken, UntakenBut, Unshadowed;
    var p, x, p2 :|
      && Resolve(v, root, parts) == Some(x) && Resolve(v, root, Front(parts)) == Some(p)
      && Resolve(v, root, Home(to)) == Some(p2) && Removed(v, v1, p, x, {})
      && if entered then Appended(v1, v', p2, x, Stored(NewName(to))) else v' == v1;
    var k := ParentOf(v, root, parts, p, x);
    LeaveThenResolve(v, v1, root, p, k, x);
    ResolvedIsLive(v, root, Front(to));
    if !entered {
      UnlistedNotFound(v1, root, x, to);
    } else {
      EnteredAndFound(v, v1, v', root, parts, to, p, k, x, p2);
    }
  }

  lemma EnteredAndFound(v: Nodes, v1: Nodes, v': Nodes, root: nat, parts: seq<Name>, to: seq<Name>, p: nat, k: nat, x: nat, p2: nat)
    requires Wired(v, root) && to != [] && Removed(v, v1, p, x, {}) && Lists(v, p, k, x) && x != root
    requires Resolve(v, root, parts) == Some(x) && Resolve(v, root, Front(to)) == Some(p2) && p2 in v
    requires Appended(v1, v', p2, x, Stored(Last(to)))
    ensures Resolve(v', root, to) == Some(x) <==> Welcome(v, root, to, x)
  {
    hide Wired, Resolve, Removed, Avoids, Lists, Appended, Listing, Untaken, UntakenBut, Descendants, Reached;
    assert to == Front(to) + [Last(to)];
    LeaveThenResolve(v, v1, root, p, k, x);
    ListedIsLive(v, root, p, k, x);
    SameKinds(v, v1, p, x, p2);
    if !IsDir(v[p2]) {
      AppendWired(v1, v', root, p2, x, Stored(Last(to)));
      RecordInFile(v1, v', p2, x, Stored(Last(to)));
      UnlistedNotFound(v', root, x, to);
    } else if !Avoids(v, root, Front(to), {x}) {
      RootLive(v, root);
      PassesIsBelow(v, root, Front(to), x);
      ResolvedReached(v, root, parts);
      MovedIntoItself(v, v1, v', root, p, k, x, p2, Stored(Last(to)), to);
      BelowItself(v, x);
    } else {
      assert exists i :: Lists(v, p, i, x);
      MoveThenResolve(v, v1, v', root, p, p2, x, Front(to), Last(to));
      UntakenAfterRemoval(v, v1, root, p, k, x, p2, Last(to));
      UntakenMeans(v1, p2, Last(to));
    }
  }

  lemma UntakenMeans(v: Nodes, d: nat, name: Name)
    ensures Untaken(v, d, name) <==> forall i :: 0 <= i < |Listing(v, d)| ==> Listing(v, d)[i].name != name
  {
  }

  lemma SameKinds(v: Nodes, v1: Nodes, p: nat, x: nat, d: nat)
    requires Removed(v, v1, p, x, {}) && d in v
    ensures d in v1 && v1[d].kind == v[d].kind
  {
  }

  // A record in the bytes of a regular file lists nothing.
  lemma RecordInFile(v: Nodes, v': Nodes, p: nat, x: nat, stored: Name)
    requires Appended(v, v', p, x, stored) && !IsDir(v[p]) && forall d, i :: !Lists(v, d, i, x)
    ensures forall d, i :: !Lists(v', d, i, x)
  {
    hide DecodeAll;
    assert forall d, i :: Lists(v', d, i, x) ==> Lists(v, d, i, x);
  }

  // After a move names are distinct exactly when the record did not enter, entered a regular file,
  // or nothing else bears the stored name.
  lemma MoveFormedIff(v: Nodes, v1: Nodes, v': Nodes, root: nat, parts: seq<Name>, to: seq<Name>, entered: bool)
    requires Formed(v, root) && Relocated(v, v1, v', root, parts, to, entered)
    ensures Formed(v', root) <==> !entered || StaysDistinct(v, root, to, Target(v, root, parts))
  {
    hide Formed, Resolve, Removed, Lists, Appended, Listing, Untaken, UntakenBut;
    var p, x, p2 :|
      && Resolve(v, root, parts) == Some(x) && Resolve(v, root, Front(parts)) == Some(p)
      && Resolve(v, root, Home(to)) == Some(p2) && Removed(v, v1, p, x, {})
      && if entered then Appended(v1, v', p2, x, Stored(NewName(to))) else v' == v1;
    IsWired(v, root);
    FormedUnshadowed(v, root, parts);
    var k := ParentOf(v, root, parts, p, x);
    LeaveThenResolve(v, v1, root, p, k, x);
    ResolvedIsLive(v, root, Home(to));
    if entered {
      SameKinds(v, v1, p, x, p2);
      AppendFormedIff(v1, v', root, p2, x, Stored(NewName(to)));
      if IsDir(v[p2]) { UntakenAfterRemoval(v, v1, root, p, k, x, p2, Stored(NewName(to))); }
    }
  }

  // Said of the tree before the move.
  ghost predicate StaysDistinct(v: Nodes, root: nat, to: seq<Name>, x: nat) {
    Resolve(v, root, Home(to)).Some? ==>
      var d := Resolve(v, root, Home(to)).value;
      d in v && (IsDir(v[d]) ==> UntakenBut(v, d, Stored(NewName(to)), x))
  }
}
