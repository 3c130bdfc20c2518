/**
 Path resolution over a store's view, and what creating, rewriting, deleting and moving a file do
 to every other path.
 */
module Namespace {
  import opened Options
  import opened FreeSpace
  import opened FileStore
  import opened Directories

  type Name = seq<Byte>
  type Nodes = map<nat, Node>

  function Listing(v: Nodes, d: nat): seq<DirEntry> {
    if d in v then DecodeAll(v[d].bytes) else []
  }

  predicate IsDir(n: Node) {
    n.kind == Directory || n.kind == Root
  }

  // ---------- Resolution ----------

  // A live slot matches; on the way down it must be a directory.
  predicate Matches(v: Nodes, e: DirEntry, name: Name, last: bool) {
    e.name == name && e.slot in v && (v[e.slot].kind == Directory || last)
  }

  function Lookup(v: Nodes, l: seq<DirEntry>, name: Name, last: bool): (r: Option<nat>)
    ensures r.Some? ==> exists i :: 0 <= i < |l| && l[i].slot == r.value && Matches(v, l[i], name, last)
    ensures r.None? ==> forall i :: 0 <= i < |l| ==> !Matches(v, l[i], name, last)
  {
    if l == [] then None
    else if Matches(v, l[0], name, last) then
      assert l[0].slot == l[0].slot;
      Some(l[0].slot)
    else
      var r := Lookup(v, l[1..], name, last);
      assert forall i :: 0 < i < |l| ==> l[i] == l[1..][i - 1];
      r
  }

  function Resolve(v: Nodes, d: nat, parts: seq<Name>): (r: Option<nat>)
    decreases |parts|
  {
    if parts == [] then Some(d)
    else
      match Lookup(v, Listing(v, d), parts[0], |parts| == 1)
      case None => None
      case Some(s) => Resolve(v, s, parts[1..])
  }

  // ---------- Well-formed views ----------

  // A listing is whole records of live, non-root slots.
  ghost predicate Whole(v: Nodes, d: nat)
    requires d in v
  {
    var l := Listing(v, d);
    |v[d].bytes| % RECORD == 0 && forall i :: 0 <= i < |l| ==> l[i].slot in v && v[l[i].slot].kind != Root
  }

  ghost predicate NamesDistinct(v: Nodes, d: nat) {
    var l := Listing(v, d);
    forall i, j :: 0 <= i < j < |l| ==> l[i].name != l[j].name
  }

  ghost predicate WellListed(v: Nodes, d: nat)
    requires d in v
  {
    Whole(v, d) && NamesDistinct(v, d)
  }

  // Entry i of directory d names slot x.
  ghost predicate Lists(v: Nodes, d: nat, i: nat, x: nat) {
    d in v && IsDir(v[d]) && i < |Listing(v, d)| && Listing(v, d)[i].slot == x
  }

  // No slot is listed twice, in one directory or in two.
  ghost predicate ListedOnce(v: Nodes) {
    forall x, d, c, i, j :: Lists(v, d, i, x) && Lists(v, c, j, x) ==> d == c && i == j
  }

  // One root, whole listings, every slot listed at most once: what every operation keeps.
  ghost predicate Wired(v: Nodes, root: nat) {
    && root in v && v[root].kind == Root
    && (forall d :: d in v && IsDir(v[d]) ==> Whole(v, d))
    && (forall d :: d in v && v[d].kind == Root ==> d == root)
    && ListedOnce(v)
  }

  // And no name twice in a directory.
  ghost predicate Formed(v: Nodes, root: nat) {
    && root in v && v[root].kind == Root
    && (forall d :: d in v && IsDir(v[d]) ==> WellListed(v, d))
    && (forall d :: d in v && v[d].kind == Root ==> d == root)
    && ListedOnce(v)
  }

  lemma FormedIff(v: Nodes, root: nat)
    ensures Formed(v, root) <==> Wired(v, root) && forall d :: d in v && IsDir(v[d]) ==> NamesDistinct(v, d)
  {
    hide Listing, ListedOnce, IsDir;
    assert forall d :: d in v && IsDir(v[d]) ==> (WellListed(v, d) <==> Whole(v, d) && NamesDistinct(v, d));
  }

  lemma IsWired(v: Nodes, root: nat)
    requires Formed(v, root)
    ensures Wired(v, root)
  {
    FormedIff(v, root);
  }

  lemma {:induction false} ResolveLive(v: Nodes, d: nat, parts: seq<Name>)
    requires d in v && Resolve(v, d, parts).Some?
    ensures Resolve(v, d, parts).value in v
    decreases |parts|
  {
    if parts != [] {
      var s := Lookup(v, Listing(v, d), parts[0], |parts| == 1);
      ResolveLive(v, s.value, parts[1..]);
    }
  }

  // ---------- Comparing two views ----------

  // No slot that resolution passes through on the way (or ends in) is in `gone`.
  ghost predicate Avoids(v: Nodes, d: nat, parts: seq<Name>, gone: set<nat>)
    decreases |parts|
  {
    && d !in gone
    && (parts != [] ==>
          match Lookup(v, Listing(v, d), parts[0], |parts| == 1)
          case None => true
          case Some(s) => Avoids(v, s, parts[1..], gone))
  }

  // Directories outside `gone` are still there and still find what they found outside `gone`.
  ghost predicate Agree(v: Nodes, v': Nodes, gone: set<nat>) {
    forall d, name, last, s: nat ::
      d in v && IsDir(v[d]) && d !in gone && s !in gone && Lookup(v, Listing(v, d), name, last) == Some(s)
      ==> Lookup(v', Listing(v', d), name, last) == Some(s)
  }

  // A path that resolved, and does not touch `gone`, resolves to the same slot.
  lemma {:induction false} ResolveKept(v: Nodes, v': Nodes, gone: set<nat>, d: nat, parts: seq<Name>)
    requires Agree(v, v', gone) && d in v && (IsDir(v[d]) || parts == [])
    requires Resolve(v, d, parts).Some? && Avoids(v, d, parts, gone)
    ensures Resolve(v', d, parts) == Resolve(v, d, parts)
    decreases |parts|
  {
    if parts != [] {
      var s := Lookup(v, Listing(v, d), parts[0], |parts| == 1).value;
      assert Lookup(v', Listing(v', d), parts[0], |parts| == 1) == Some(s);
      ResolveKept(v, v', gone, s, parts[1..]);
    }
  }

  lemma {:induction false} SameLookup(v: Nodes, v': Nodes, l: seq<DirEntry>, name: Name, last: bool)
    requires forall i :: 0 <= i < |l| ==> Matches(v, l[i], name, last) == Matches(v', l[i], name, last)
    ensures Lookup(v', l, name, last) == Lookup(v, l, name, last)
  {
    hide Matches;
    if l != [] {
      SameLookup(v, v', l[1..], name, last);
    }
  }

  lemma {:induction false} LookupAppend(v: Nodes, l: seq<DirEntry>, e: DirEntry, name: Name, last: bool)
    ensures Lookup(v, l + [e], name, last) ==
            if Lookup(v, l, name, last).Some? then Lookup(v, l, name, last)
            else if Matches(v, e, name, last) then Some(e.slot) else None
  {
    hide Matches;
    if l == [] {
      assert l + [e] == [e] && [e][1..] == [];
      assert Lookup(v, [e][1..], name, last) == None;
    } else {
      assert (l + [e])[1..] == l[1..] + [e];
      LookupAppend(v, l[1..], e, name, last);
    }
  }

  lemma {:induction false} LookupDropped(v: Nodes, l: seq<DirEntry>, x: nat, name: Name, last: bool)
    requires Lookup(v, l, name, last).Some? && Lookup(v, l, name, last).value != x
    ensures Lookup(v, Dropped(l, x), name, last) == Lookup(v, l, name, last)
  {
    hide Matches;
    var r := Dropped(l[1..], x);
    assert Dropped(l, x) == Kept(l[0], x) + r;
    if l[0].slot == x {
      assert Dropped(l, x) == r;
      LookupDropped(v, l[1..], x, name, last);
    } else {
      assert Dropped(l, x) == [l[0]] + r && Dropped(l, x)[1..] == r;
      if !Matches(v, l[0], name, last) { LookupDropped(v, l[1..], x, name, last); }
    }
  }

  // ---------- Creating ----------

  // A node in a fresh slot, and its entry at the end of the directory's listing.
  ghost predicate Created(v: Nodes, v': Nodes, d: nat, slot: nat, stored: Name, node: Node) {
    && d in v && slot !in v && v'.Keys == v.Keys + {slot} && v'[slot] == node
    && v'[d].kind == v[d].kind && Listing(v', d) == Listing(v, d) + [DirEntry(stored, slot)]
    && forall x :: x in v && x != d ==> v'[x] == v[x]
  }

  lemma OldEntriesMatch(v: Nodes, v': Nodes, root: nat, d: nat, slot: nat, stored: Name, node: Node, x: nat, name: Name, last: bool)
    requires Wired(v, root) && Created(v, v', d, slot, stored, node) && x in v && IsDir(v[x])
    ensures forall i :: 0 <= i < |Listing(v, x)| ==> Matches(v, Listing(v, x)[i], name, last) == Matches(v', Listing(v, x)[i], name, last)
  {
  }

  lemma CreateAgrees(v: Nodes, v': Nodes, root: nat, d: nat, slot: nat, stored: Name, node: Node)
    requires Wired(v, root) && Created(v, v', d, slot, stored, node) && IsDir(v[d])
    ensures Agree(v, v', {})
  {
    hide Wired, Matches;
    forall x, name, last, s: nat |
      x in v && IsDir(v[x]) && Lookup(v, Listing(v, x), name, last) == Some(s)
      ensures Lookup(v', Listing(v', x), name, last) == Some(s)
    {
      OldEntriesMatch(v, v', root, d, slot, stored, node, x, name, last);
      SameLookup(v, v', Listing(v, x), name, last);
      if x == d { LookupAppend(v', Listing(v, d), DirEntry(stored, slot), name, last); }
    }
  }

  lemma {:induction false} ResolveSnoc(v: Nodes, d: nat, parts: seq<Name>, name: Name)
    ensures Resolve(v, d, parts + [name]) ==
            match ResolveDir(v, d, parts)
            case None => None
            case Some(p) => Lookup(v, Listing(v, p), name, true)
    decreases |parts|
  {
    var q := parts + [name];
    if parts == [] {
      assert q == [name] && q[1..] == [];
    } else {
      assert q[0] == parts[0] && q[1..] == parts[1..] + [name];
      var s := Lookup(v, Listing(v, d), parts[0], false);
      if s.Some? { ResolveSnoc(v, s.value, parts[1..], name); }
    }
  }

  // Resolution in which every part, the last one too, must be a directory.
  function ResolveDir(v: Nodes, d: nat, parts: seq<Name>): (r: Option<nat>)
    decreases |parts|
  {
    if parts == [] then Some(d)
    else
      match Lookup(v, Listing(v, d), parts[0], false)
      case None => None
      case Some(s) => ResolveDir(v, s, parts[1..])
  }

  // When the first live entry of a name is a directory, the name finds it on the way down too.
  lemma {:induction false} DirFoundEitherWay(v: Nodes, l: seq<DirEntry>, name: Name)
    requires Lookup(v, l, name, true).Some? && v[LiveAt(v, l, name)].kind == Directory
    ensures Lookup(v, l, name, false) == Lookup(v, l, name, true)
  {
    if !Matches(v, l[0], name, true) { DirFoundEitherWay(v, l[1..], name); }
  }

  function LiveAt(v: Nodes, l: seq<DirEntry>, name: Name): (r: nat)
    requires Lookup(v, l, name, true).Some?
    ensures r in v && Some(r) == Lookup(v, l, name, true)
  {
    Lookup(v, l, name, true).value
  }

  // A path that ends in a directory also finds it as the way to something.
  lemma {:induction false} ResolvedDir(v: Nodes, d: nat, parts: seq<Name>)
    requires d in v && Resolve(v, d, parts).Some? && (parts == [] || v[ResolvedAt(v, d, parts)].kind == Directory)
    ensures ResolveDir(v, d, parts) == Resolve(v, d, parts)
    decreases |parts|
  {
    if parts != [] {
      var l := Listing(v, d);
      if |parts| == 1 { DirFoundEitherWay(v, l, parts[0]); } else { ResolvedDir(v, Lookup(v, l, parts[0], false).value, parts[1..]); }
    }
  }

  function ResolvedAt(v: Nodes, d: nat, parts: seq<Name>): (r: nat)
    requires d in v && Resolve(v, d, parts).Some?
    ensures r in v && Some(r) == Resolve(v, d, parts)
  {
    ResolveLive(v, d, parts);
    Resolve(v, d, parts).value
  }

  // A new file is found again under its path exactly when its name leaves room for a terminator;
  // every path that resolved before resolves to the same slot.
  lemma CreateThenResolve(v: Nodes, v': Nodes, root: nat, d: nat, slot: nat, name: Name, node: Node, parts: seq<Name>)
    requires Wired(v, root) && Created(v, v', d, slot, Stored(name), node) && IsDir(v[d])
    requires Resolve(v, root, parts) == Some(d) && Resolve(v, root, parts + [name]).None?
    ensures Resolve(v', root, parts + [name]) == (if |name| < NAME_FIELD then Some(slot) else None)
    ensures forall q :: Resolve(v, root, q).Some? ==> Resolve(v', root, q) == Resolve(v, root, q)
  {
    hide ListedOnce, Matches, Resolve, Lookup;
    CreateAgrees(v, v', root, d, slot, Stored(name), node);
    ParentIsDir(v, root, d, parts);
    ResolvedDir(v, root, parts);
    ResolveSnoc(v, root, parts, name);
    ResolveSnoc(v', root, parts, name);
    ResolveDirKept(v, v', root, parts);
    var l := Listing(v, d);
    OldEntriesMatch(v, v', root, d, slot, Stored(name), node, d, name, true);
    SameLookup(v, v', l, name, true);
    LookupAppend(v', l, DirEntry(Stored(name), slot), name, true);
    NewEntryMatches(v', slot, name);
    forall q | Resolve(v, root, q).Some?
      ensures Resolve(v', root, q) == Resolve(v, root, q)
    {
      AvoidsNothing(v, root, q);
      ResolveKept(v, v', {}, root, q);
    }
  }

  lemma NewEntryMatches(v: Nodes, slot: nat, name: Name)
    requires slot in v
    ensures Matches(v, DirEntry(Stored(name), slot), name, true) <==> |name| < NAME_FIELD
  {
  }

  lemma ParentIsDir(v: Nodes, root: nat, d: nat, parts: seq<Name>)
    requires Wired(v, root) && Resolve(v, root, parts) == Some(d) && d in v && IsDir(v[d])
    ensures parts == [] || v[d].kind == Directory
  {
    hide ListedOnce;
    if parts != [] { NotRoot(v, root, root, parts); }
  }

  lemma {:induction false} NotRoot(v: Nodes, root: nat, d: nat, parts: seq<Name>)
    requires Wired(v, root) && d in v && IsDir(v[d]) && parts != [] && Resolve(v, d, parts).Some?
    ensures var r := Resolve(v, d, parts).value; r in v && v[r].kind != Root
    decreases |parts|
  {
    hide ListedOnce;
    var l := Listing(v, d);
    assert Whole(v, d);
    var s := Lookup(v, l, parts[0], |parts| == 1).value;
    if |parts| > 1 { NotRoot(v, root, s, parts[1..]); }
  }

  lemma {:induction false} AvoidsNothing(v: Nodes, d: nat, parts: seq<Name>)
    ensures Avoids(v, d, parts, {})
    decreases |parts|
  {
    if parts != [] {
      var s := Lookup(v, Listing(v, d), parts[0], |parts| == 1);
      if s.Some? { AvoidsNothing(v, s.value, parts[1..]); }
    }
  }

  lemma {:induction false} ResolveDirKept(v: Nodes, v': Nodes, d: nat, parts: seq<Name>)
    requires Agree(v, v', {}) && d in v && IsDir(v[d]) && ResolveDir(v, d, parts).Some?
    ensures ResolveDir(v', d, parts) == ResolveDir(v, d, parts)
    decreases |parts|
  {
    if parts != [] {
      var s := Lookup(v, Listing(v, d), parts[0], false).value;
      assert Lookup(v', Listing(v', d), parts[0], false) == Some(s);
      ResolveDirKept(v, v', s, parts[1..]);
    }
  }

  // Where the new view lists a slot: at the end of d the new one, elsewhere what was listed before.
  lemma CreatedLists(v: Nodes, v': Nodes, root: nat, d: nat, slot: nat, stored: Name, node: Node, a: nat, i: nat, x: nat)
    requires Wired(v, root) && Created(v, v', d, slot, stored, node) && IsDir(v[d])
    requires (IsDir(node) ==> node.bytes == []) && Lists(v', a, i, x)
    ensures if a == d && i == |Listing(v, d)| then x == slot else Lists(v, a, i, x) && x != slot
  {
  }

  lemma CreateListedOnce(v: Nodes, v': Nodes, root: nat, d: nat, slot: nat, stored: Name, node: Node)
    requires Wired(v, root) && Created(v, v', d, slot, stored, node) && IsDir(v[d])
    requires IsDir(node) ==> node.bytes == []
    ensures ListedOnce(v')
  {
    hide Whole, Lists, Created, Listing;
    forall x, a, b, i, j | Lists(v', a, i, x) && Lists(v', b, j, x)
      ensures a == b && i == j
    {
      CreatedLists(v, v', root, d, slot, stored, node, a, i, x);
      CreatedLists(v, v', root, d, slot, stored, node, b, j, x);
    }
  }

  // A new node, listed by a directory, under whatever name.
  lemma CreateWired(v: Nodes, v': Nodes, root: nat, d: nat, slot: nat, stored: Name, node: Node)
    requires Wired(v, root) && Created(v, v', d, slot, stored, node) && IsDir(v[d]) && node.kind != Root
    requires (IsDir(node) ==> node.bytes == []) && |v'[d].bytes| % RECORD == 0
    ensures Wired(v', root)
  {
    hide ListedOnce, DecodeAll, Whole;
    CreateListedOnce(v, v', root, d, slot, stored, node);
    forall x | x in v' && IsDir(v'[x])
      ensures Whole(v', x)
    {
      CreatedWhole(v, v', root, d, slot, stored, node, x);
    }
  }

  lemma CreatedWhole(v: Nodes, v': Nodes, root: nat, d: nat, slot: nat, stored: Name, node: Node, x: nat)
    requires Wired(v, root) && Created(v, v', d, slot, stored, node) && IsDir(v[d]) && node.kind != Root
    requires (IsDir(node) ==> node.bytes == []) && |v'[d].bytes| % RECORD == 0 && x in v' && IsDir(v'[x])
    ensures Whole(v', x)
  {
    hide ListedOnce;
    if x != slot {
      assert Whole(v, x);
      WholeKept(v, v', d, slot, stored, node, x);
    }
  }

  lemma WholeKept(v: Nodes, v': Nodes, d: nat, slot: nat, stored: Name, node: Node, x: nat)
    requires Created(v, v', d, slot, stored, node) && node.kind != Root && |v'[d].bytes| % RECORD == 0 && x in v && Whole(v, x)
    ensures Whole(v', x)
  {
    hide DecodeAll;
    assert x != d ==> Listing(v', x) == Listing(v, x);
  }

  // No entry of the directory bears the name.
  ghost predicate Untaken(v: Nodes, d: nat, name: Name) {
    forall i :: 0 <= i < |Listing(v, d)| ==> Listing(v, d)[i].name != name
  }

  // Names stay distinct exactly when the stored name is new to the directory.
  lemma CreateFormedIff(v: Nodes, v': Nodes, root: nat, d: nat, slot: nat, stored: Name, node: Node)
    requires Formed(v, root) && Created(v, v', d, slot, stored, node) && IsDir(v[d]) && node.kind != Root
    requires (IsDir(node) ==> node.bytes == []) && |v'[d].bytes| % RECORD == 0
    ensures Formed(v', root) <==> Untaken(v, d, stored)
  {
    hide Formed, Wired, NamesDistinct, Untaken, Listing;
    FormedIff(v, root);
    CreateWired(v, v', root, d, slot, stored, node);
    FormedIff(v', root);
    forall x | x in v' && IsDir(v'[x])
      ensures NamesDistinct(v', x) <==> x != d || Untaken(v, d, stored)
    {
      if x == d {
        NamesAfterAppend(v, v', d, DirEntry(stored, slot));
      } else if x == slot {
        EmptyNames(v', x);
      } else {
        SameNames(v, v', x);
      }
    }
  }

  lemma NamesAfterAppend(v: Nodes, v': Nodes, d: nat, e: DirEntry)
    requires NamesDistinct(v, d) && Listing(v', d) == Listing(v, d) + [e]
    ensures NamesDistinct(v', d) <==> Untaken(v, d, e.name)
  {
    hide Listing;
    var l, l' := Listing(v, d), Listing(v', d);
    assert l'[|l|] == e && forall i :: 0 <= i < |l| ==> l'[i] == l[i];
  }

  lemma EmptyNames(v: Nodes, x: nat)
    requires x in v && v[x].bytes == []
    ensures NamesDistinct(v, x)
  {
  }

  lemma SameNames(v: Nodes, v': Nodes, x: nat)
    requires x in v && x in v' && v'[x] == v[x]
    ensures NamesDistinct(v', x) == NamesDistinct(v, x)
  {
    hide DecodeAll;
    assert Listing(v', x) == Listing(v, x);
  }

  // ---------- Rewriting a file ----------

  // New bytes for a regular file: every listing and every lookup is as before.
  lemma RewriteAgrees(v: Nodes, root: nat, x: nat, bytes: seq<Byte>)
    requires x in v && v[x].kind == File
    ensures var v' := v[x := Node(File, bytes)]; Agree(v, v', {}) && (Wired(v, root) ==> Wired(v', root)) && (Formed(v, root) ==> Formed(v', root))
  {
    hide DecodeAll, Lookup;
    var v' := v[x := Node(File, bytes)];
    assert forall d :: d in v && IsDir(v[d]) ==> Listing(v', d) == Listing(v, d);
    assert forall d, i, y :: Lists(v', d, i, y) ==> Lists(v, d, i, y);
    forall d, name, last, s: nat |
      d in v && IsDir(v[d]) && Lookup(v, Listing(v, d), name, last) == Some(s)
      ensures Lookup(v', Listing(v', d), name, last) == Some(s)
    {
      SameLookup(v, v', Listing(v, d), name, last);
    }
    RewriteForm(v, v', root);
  }

  lemma RewriteForm(v: Nodes, v': Nodes, root: nat)
    requires v'.Keys == v.Keys && (forall d :: d in v ==> v'[d].kind == v[d].kind)
    requires forall d :: d in v && IsDir(v[d]) ==> v'[d] == v[d]
    ensures (Wired(v, root) ==> Wired(v', root)) && (Formed(v, root) ==> Formed(v', root))
  {
    hide Wired, Formed, NamesDistinct;
    if Wired(v, root) { SameDirectories(v, v', root); }
    FormedIff(v, root);
    FormedIff(v', root);
    forall d | d in v && IsDir(v[d])
      ensures NamesDistinct(v', d) == NamesDistinct(v, d)
    {
      SameNames(v, v', d);
    }
  }

  lemma SameDirectories(v: Nodes, v': Nodes, root: nat)
    requires v'.Keys == v.Keys && (forall d :: d in v ==> v'[d].kind == v[d].kind)
    requires (forall d :: d in v && IsDir(v[d]) ==> v'[d] == v[d]) && Wired(v, root)
    ensures Wired(v', root)
  {
    hide DecodeAll, ListedOnce;
    assert forall d :: d in v && IsDir(v[d]) ==> Listing(v', d) == Listing(v, d);
    assert ListedOnce(v') by {
      assert forall d, i, y :: Lists(v', d, i, y) ==> Lists(v, d, i, y);
      OnceKept(v, v');
    }
  }

  lemma OnceKept(v: Nodes, v': Nodes)
    requires ListedOnce(v) && forall d, i, x: nat :: Lists(v', d, i, x) ==> Lists(v, d, i, x)
    ensures ListedOnce(v')
  {
    hide Lists;
  }

  // ---------- Removing ----------

  // The slots in `gone` are dead, and the directory p lists x no more.
  ghost predicate Removed(v: Nodes, v': Nodes, p: nat, x: nat, gone: set<nat>) {
    && p in v && p !in gone && v'.Keys == v.Keys - gone
    && v'[p].kind == v[p].kind && |v'[p].bytes| % RECORD == 0 && Listing(v', p) == Dropped(Listing(v, p), x)
    && forall y :: y in v' && y != p ==> v'[y] == v[y]
  }

  lemma RemoveAgrees(v: Nodes, v': Nodes, p: nat, x: nat, gone: set<nat>)
    requires Removed(v, v', p, x, gone)
    ensures Agree(v, v', gone + {x})
  {
    hide Dropped;
    forall d, name, last, s: nat |
      && d in v && IsDir(v[d]) && d !in gone + {x} && s !in gone + {x}
      && Lookup(v, Listing(v, d), name, last) == Some(s)
      ensures Lookup(v', Listing(v', d), name, last) == Some(s)
    {
      var l := if d == p then Dropped(Listing(v, p), x) else Listing(v, d);
      if d == p { LookupDropped(v, Listing(v, p), x, name, last); }
      LookupSurvives(v, v', l, name, last, gone, p);
    }
  }

  // Killing slots other than the one found does not change what is found.
  lemma {:induction false} LookupSurvives(v: Nodes, v': Nodes, l: seq<DirEntry>, name: Name, last: bool, gone: set<nat>, p: nat)
    requires v'.Keys == v.Keys - gone && forall y :: y in v' ==> v'[y].kind == v[y].kind
    requires Lookup(v, l, name, last).Some? && Lookup(v, l, name, last).value !in gone
    ensures Lookup(v', l, name, last) == Lookup(v, l, name, last)
  {
    if l != [] && !Matches(v, l[0], name, last) {
      LookupSurvives(v, v', l[1..], name, last, gone, p);
    }
  }

  // Directories in `gone` list only slots in `gone`.
  ghost predicate Closed(v: Nodes, gone: set<nat>) {
    forall d, i, y :: Lists(v, d, i, y) && d in gone ==> y in gone
  }

  lemma FoundIsListed(v: Nodes, d: nat, name: Name, last: bool)
    requires d in v && IsDir(v[d]) && Lookup(v, Listing(v, d), name, last).Some?
    ensures var y := Lookup(v, Listing(v, d), name, last).value;
            y in v && (last || v[y].kind == Directory) && exists i :: Lists(v, d, i, y)
  {
    var l := Listing(v, d);
    var y := Lookup(v, l, name, last).value;
    var i :| 0 <= i < |l| && l[i].slot == y && Matches(v, l[i], name, last);
    assert Lists(v, d, i, y);
  }

  lemma {:induction false} StaysGone(v: Nodes, gone: set<nat>, d: nat, parts: seq<Name>)
    requires Closed(v, gone) && d in gone && d in v && (IsDir(v[d]) || parts == []) && Resolve(v, d, parts).Some?
    ensures Resolve(v, d, parts).value in gone
    decreases |parts|
  {
    hide Lists;
    if parts != [] {
      FoundIsListed(v, d, parts[0], |parts| == 1);
      StaysGone(v, gone, Lookup(v, Listing(v, d), parts[0], |parts| == 1).value, parts[1..]);
    }
  }

  // A path that ends outside a closed set never entered it.
  lemma {:induction false} EndsOutside(v: Nodes, gone: set<nat>, d: nat, parts: seq<Name>)
    requires Closed(v, gone) && d in v && (IsDir(v[d]) || parts == [])
    requires Resolve(v, d, parts).Some? && Resolve(v, d, parts).value !in gone
    ensures Avoids(v, d, parts, gone)
    decreases |parts|
  {
    hide Lists;
    if d in gone { StaysGone(v, gone, d, parts); }
    if parts != [] {
      FoundIsListed(v, d, parts[0], |parts| == 1);
      EndsOutside(v, gone, Lookup(v, Listing(v, d), parts[0], |parts| == 1).value, parts[1..]);
    }
  }

  // Only p lists x, and nothing that survives lists another dead slot.
  ghost predicate Detached(v: Nodes, p: nat, x: nat, gone: set<nat>) {
    forall d, i, y :: Lists(v, d, i, y) && y in gone && d !in gone ==> d == p && y == x
  }

  lemma RemoveWired(v: Nodes, v': Nodes, root: nat, p: nat, x: nat, gone: set<nat>)
    requires Wired(v, root) && Removed(v, v', p, x, gone) && Detached(v, p, x, gone) && root !in gone && IsDir(v[p])
    ensures Wired(v', root)
  {
    hide DecodeAll, Lists, ListedOnce, Whole, Detached;
    forall d | d in v' && IsDir(v'[d])
      ensures Whole(v', d)
    {
      RemovedWhole(v, v', root, p, x, gone, d);
    }
    forall y, d, c, i, j | Lists(v', d, i, y) && Lists(v', c, j, y)
      ensures d == c && i == j
    {
      RemovedLists(v, v', root, p, x, gone, d, i, c, j, y);
    }
    assert ListedOnce(v') by { ListedOnceFrom(v'); }
  }

  lemma RemoveFormed(v: Nodes, v': Nodes, root: nat, p: nat, x: nat, gone: set<nat>)
    requires Formed(v, root) && Removed(v, v', p, x, gone) && Detached(v, p, x, gone) && root !in gone && IsDir(v[p])
    ensures Formed(v', root)
  {
    hide Formed, Wired, Detached, DecodeAll, NamesDistinct;
    FormedIff(v, root);
    RemoveWired(v, v', root, p, x, gone);
    forall d | d in v' && IsDir(v'[d])
      ensures NamesDistinct(v', d)
    {
      RemovedNames(v, v', p, x, gone, d);
    }
    FormedIff(v', root);
  }

  lemma ListedOnceFrom(v: Nodes)
    requires forall y, d, c, i, j :: Lists(v, d, i, y) && Lists(v, c, j, y) ==> d == c && i == j
    ensures ListedOnce(v)
  {
  }

  lemma RemovedNames(v: Nodes, v': Nodes, p: nat, x: nat, gone: set<nat>, d: nat)
    requires Removed(v, v', p, x, gone) && d in v' && NamesDistinct(v, d)
    ensures NamesDistinct(v', d)
  {
    hide DecodeAll;
    if d == p {
      var from := DroppedFrom(Listing(v, p), x);
    }
  }

  lemma RemovedWhole(v: Nodes, v': Nodes, root: nat, p: nat, x: nat, gone: set<nat>, d: nat)
    requires Wired(v, root) && Removed(v, v', p, x, gone) && Detached(v, p, x, gone) && d in v' && IsDir(v'[d])
    ensures Whole(v', d)
  {
    hide DecodeAll, ListedOnce, Dropped;
    assert Whole(v, d);
    var l, l' := Listing(v, d), Listing(v', d);
    forall k | 0 <= k < |l'|
      ensures l'[k].slot in v' && v'[l'[k].slot].kind != Root
    {
      var j := k;
      if d == p {
        var from := DroppedFrom(l, x);
        j := from[k];
      }
      assert Lists(v, d, j, l[j].slot);
    }
  }

  lemma RemovedLists(v: Nodes, v': Nodes, root: nat, p: nat, x: nat, gone: set<nat>, d: nat, i: nat, c: nat, j: nat, y: nat)
    requires Wired(v, root) && Removed(v, v', p, x, gone)
    requires Lists(v', d, i, y) && Lists(v', c, j, y)
    ensures d == c && i == j
  {
    hide DecodeAll, Whole;
    var a := WasListed(v, v', p, x, gone, d, i, y);
    var b := WasListed(v, v', p, x, gone, c, j, y);
    if d == p {
      var from := DroppedFrom(Listing(v, p), x);
      assert Lists(v, p, from[i], y) && Lists(v, p, from[j], y);
    }
  }

  lemma WasListed(v: Nodes, v': Nodes, p: nat, x: nat, gone: set<nat>, d: nat, i: nat, y: nat) returns (k: nat)
    requires Removed(v, v', p, x, gone) && Lists(v', d, i, y)
    ensures Lists(v, d, k, y) && (d != p ==> k == i)
  {
    hide DecodeAll;
    k := i;
    if d == p {
      var from := DroppedFrom(Listing(v, p), x);
      k := from[i];
    }
  }

  // No entry of the directory but the slot's own bears the name.
  ghost predicate UntakenBut(v: Nodes, d: nat, name: Name, x: nat) {
    forall i :: 0 <= i < |Listing(v, d)| && Listing(v, d)[i].name == name ==> Listing(v, d)[i].slot == x
  }

  lemma {:induction false} DroppedNames(l: seq<DirEntry>, x: nat, name: Name)
    ensures (forall i :: 0 <= i < |Dropped(l, x)| ==> Dropped(l, x)[i].name != name) <==>
            (forall i :: 0 <= i < |l| && l[i].name == name ==> l[i].slot == x)
  {
    if l != [] {
      var r := Dropped(l[1..], x);
      DroppedNames(l[1..], x, name);
      assert Dropped(l, x) == Kept(l[0], x) + r;
      assert forall i :: 0 < i < |l| ==> l[i] == l[1..][i - 1];
      if l[0].slot == x {
        assert Dropped(l, x) == r;
      } else {
        assert Dropped(l, x)[0] == l[0] && forall i :: 0 <= i < |r| ==> Dropped(l, x)[i + 1] == r[i];
      }
    }
  }

  // Deleting: the path is gone exactly when no other entry of the directory bears its name, and every
  // path that avoids the deleted slots is as before.
  lemma RemoveThenResolve(v: Nodes, v': Nodes, root: nat, p: nat, x: nat, gone: set<nat>, parts: seq<Name>, name: Name)
    requires Wired(v, root) && Removed(v, v', p, x, gone) && x in gone && root !in gone && IsDir(v[p])
    requires Detached(v, p, x, gone) && Avoids(v, root, parts, gone)
    requires Resolve(v, root, parts) == Some(p)
    ensures Wired(v', root) && (Formed(v, root) ==> Formed(v', root))
    ensures Resolve(v', root, parts + [name]).None? <==> UntakenBut(v, p, name, x)
    ensures UntakenBut(v, p, name, x) ==> forall more :: Resolve(v', root, parts + [name] + more).None?
    ensures forall q :: Resolve(v, root, q).Some? && Avoids(v, root, q, gone) ==> Resolve(v', root, q) == Resolve(v, root, q)
  {
    hide Wired, Formed, Detached, Resolve, DecodeAll, Agree, Avoids, UntakenBut, Lookup, Listing;
    RemoveWired(v, v', root, p, x, gone);
    if Formed(v, root) { RemoveFormed(v, v', root, p, x, gone); }
    RemoveAgrees(v, v', p, x, gone);
    assert gone + {x} == gone;
    RootIsDir(v, root);
    forall q | Resolve(v, root, q).Some? && Avoids(v, root, q, gone)
      ensures Resolve(v', root, q) == Resolve(v, root, q)
    {
      ResolveKept(v, v', gone, root, q);
    }
    RootIsDir(v', root);
    ParentIsDir(v', root, p, parts);
    ResolvedDir(v', root, parts);
    ResolveSnoc(v', root, parts, name);
    DroppedFound(v, v', root, p, x, name);
    if UntakenBut(v, p, name, x) {
      forall more
        ensures Resolve(v', root, parts + [name] + more).None?
      {
        assert more == [] ==> parts + [name] + more == parts + [name];
        assert parts + [name] + more == parts + ([name] + more);
        if more != [] {
          ResolveAfter(v', root, parts, [name] + more);
          NotOnTheWay(v', p, name, more);
        }
      }
    }
  }

  lemma RootIsDir(v: Nodes, root: nat)
    requires Wired(v, root)
    ensures root in v && IsDir(v[root])
  {
  }

  lemma {:induction false} ResolveAfter(v: Nodes, d: nat, parts: seq<Name>, more: seq<Name>)
    requires ResolveDir(v, d, parts).Some? && more != []
    ensures Resolve(v, d, parts + more) == Resolve(v, ResolveDir(v, d, parts).value, more)
    decreases |parts|
  {
    hide Lookup, DecodeAll;
    if parts == [] {
      assert parts + more == more;
    } else {
      var all := parts + more;
      assert all[0] == parts[0] && all[1..] == parts[1..] + more;
      ResolveAfter(v, Lookup(v, Listing(v, d), parts[0], false).value, parts[1..], more);
    }
  }

  lemma NotOnTheWay(v: Nodes, p: nat, name: Name, more: seq<Name>)
    requires Lookup(v, Listing(v, p), name, true).None? && more != []
    ensures Resolve(v, p, [name] + more).None?
  {
    hide DecodeAll;
    assert forall i :: 0 <= i < |Listing(v, p)| ==> !Matches(v, Listing(v, p)[i], name, true);
  }

  // What the name finds once the slot's entries are dropped.
  lemma DroppedFound(v: Nodes, v': Nodes, root: nat, p: nat, x: nat, name: Name)
    requires Wired(v', root) && p in v' && IsDir(v'[p]) && Listing(v', p) == Dropped(Listing(v, p), x)
    ensures Lookup(v', Listing(v', p), name, true).None? <==> UntakenBut(v, p, name, x)
  {
    hide ListedOnce, DecodeAll, Lookup, Dropped, Listing;
    DroppedNames(Listing(v, p), x, name);
    LiveNames(v', p, name);
  }

  // Every entry of a directory is live, so a name is not found exactly when no entry bears it.
  lemma LiveNames(v: Nodes, p: nat, name: Name)
    requires p in v && Whole(v, p)
    ensures Lookup(v, Listing(v, p), name, true).None? <==> Untaken(v, p, name)
  {
    hide DecodeAll, Lookup;
    var l := Listing(v, p);
    if Lookup(v, l, name, true).None? {
      assert forall i :: 0 <= i < |l| ==> !Matches(v, l[i], name, true);
    } else {
      assert exists i :: 0 <= i < |l| && Matches(v, l[i], name, true);
    }
  }

  // ---------- Moving ----------

  ghost predicate Appended(v: Nodes, v': Nodes, p: nat, x: nat, stored: Name) {
    && p in v && x in v && v'.Keys == v.Keys && v'[p].kind == v[p].kind
    && |v'[p].bytes| % RECORD == 0 && Listing(v', p) == Listing(v, p) + [DirEntry(stored, x)]
    && forall y :: y in v && y != p ==> v'[y] == v[y]
  }

  lemma AppendAgrees(v: Nodes, v': Nodes, p: nat, x: nat, stored: Name)
    requires Appended(v, v', p, x, stored)
    ensures Agree(v, v', {})
  {
    hide DecodeAll;
    forall d, name, last, s: nat |
      d in v && IsDir(v[d]) && Lookup(v, Listing(v, d), name, last) == Some(s)
      ensures Lookup(v', Listing(v', d), name, last) == Some(s)
    {
      SameLookup(v, v', Listing(v, d), name, last);
      if d == p { LookupAppend(v', Listing(v, p), DirEntry(stored, x), name, last); }
    }
  }

  // Moving x out of p and into p2: paths that avoid x are as before, and the new path finds x
  // exactly when its name can be stored and was not taken.
  lemma MoveThenResolve(v: Nodes, v1: Nodes, v2: Nodes, root: nat, p: nat, p2: nat, x: nat, parts: seq<Name>, name: Name)
    requires Wired(v, root) && Removed(v, v1, p, x, {}) && IsDir(v[p]) && exists k :: Lists(v, p, k, x)
    requires Appended(v1, v2, p2, x, Stored(name)) && IsDir(v[p2])
    requires Resolve(v, root, parts) == Some(p2) && Avoids(v, root, parts, {x})
    ensures forall q :: Resolve(v, root, q).Some? && Avoids(v, root, q, {x}) ==> Resolve(v2, root, q) == Resolve(v, root, q)
    ensures Resolve(v2, root, parts + [name]) == Some(x) <==>
            |name| < NAME_FIELD && forall i :: 0 <= i < |Listing(v1, p2)| ==> Listing(v1, p2)[i].name != name
  {
    hide ListedOnce, Whole, Resolve, DecodeAll, Agree, Lookup, Avoids;
    RemoveAgrees(v, v1, p, x, {});
    assert {} + {x} == {x};
    AppendAgrees(v1, v2, p2, x, Stored(name));
    ListedNowhere(v, v1, root, p, x);
    forall q | Resolve(v, root, q).Some? && Avoids(v, root, q, {x})
      ensures Resolve(v1, root, q) == Resolve(v, root, q) && Resolve(v2, root, q) == Resolve(v, root, q)
    {
      ResolveKept(v, v1, {x}, root, q);
      AvoidsNothing(v1, root, q);
      ResolveKept(v1, v2, {}, root, q);
    }
    ParentIsDir(v, root, p2, parts);
    ResolvedDir(v1, root, parts);
    ResolveDirKept(v1, v2, root, parts);
    ResolveSnoc(v2, root, parts, name);
    NewNameFound(v1, v2, root, p2, x, name);
  }

  lemma ListedNowhere(v: Nodes, v': Nodes, root: nat, p: nat, x: nat)
    requires Wired(v, root) && Removed(v, v', p, x, {}) && IsDir(v[p]) && exists k :: Lists(v, p, k, x)
    ensures Wired(v', root)
    ensures forall d, i :: !Lists(v', d, i, x)
  {
    hide Whole, DecodeAll, Dropped;
    RemoveWired(v, v', root, p, x, {});
    var k :| Lists(v, p, k, x);
    forall d, i | Lists(v', d, i, x)
      ensures false
    {
      var j := WasListed(v, v', p, x, {}, d, i, x);
      var from := DroppedFrom(Listing(v, p), x);
    }
  }

  lemma NewNameFound(v1: Nodes, v2: Nodes, root: nat, p: nat, x: nat, name: Name)
    requires Wired(v1, root) && Appended(v1, v2, p, x, Stored(name)) && IsDir(v1[p]) && forall d, i :: !Lists(v1, d, i, x)
    ensures Lookup(v2, Listing(v2, p), name, true) == Some(x) <==>
            |name| < NAME_FIELD && forall i :: 0 <= i < |Listing(v1, p)| ==> Listing(v1, p)[i].name != name
  {
    hide ListedOnce, DecodeAll, Lookup;
    var l := Listing(v1, p);
    assert Whole(v1, p);
    SameLookup(v1, v2, l, name, true);
    LookupAppend(v2, l, DirEntry(Stored(name), x), name, true);
    NewEntryMatches(v2, x, name);
    var r := Lookup(v2, l, name, true);
    if r.Some? {
      var k :| 0 <= k < |l| && l[k].slot == r.value && Matches(v2, l[k], name, true);
      assert Lists(v1, p, k, l[k].slot);
    } else {
      forall i | 0 <= i < |l|
        ensures l[i].name != name
      {
        assert !Matches(v2, l[i], name, true);
      }
    }
  }

  // ---------- Subtrees ----------

  // A rank that falls from every ranked directory to what it lists: no cycles below it.
  ghost predicate Ranked(v: Nodes, rank: map<nat, nat>) {
    forall d, i, x :: Lists(v, d, i, x) && d in rank ==> x in rank && rank[x] < rank[d]
  }

  ghost predicate RankedBelow(v: Nodes, rank: map<nat, nat>, l: seq<DirEntry>, r: nat) {
    forall i :: 0 <= i < |l| ==> l[i].slot in v && l[i].slot in rank && rank[l[i].slot] < r
  }

  lemma ListingRanked(v: Nodes, root: nat, rank: map<nat, nat>, d: nat)
    requires Wired(v, root) && Ranked(v, rank) && d in v && IsDir(v[d]) && d in rank
    ensures RankedBelow(v, rank, Listing(v, d), rank[d])
  {
    hide ListedOnce, DecodeAll;
    assert Whole(v, d);
    var l := Listing(v, d);
    forall i | 0 <= i < |l|
      ensures l[i].slot in v && l[i].slot in rank && rank[l[i].slot] < rank[d]
    {
      assert Lists(v, d, i, l[i].slot);
    }
  }

  // The slots listed in l, and everything below the directories among them.
  ghost function Below(v: Nodes, root: nat, rank: map<nat, nat>, l: seq<DirEntry>, r: nat): set<nat>
    requires Wired(v, root) && Ranked(v, rank) && RankedBelow(v, rank, l, r)
    decreases r, |l|
  {
    if l == [] then {}
    else
      {l[0].slot} + Under(v, root, rank, l[0].slot) + Below(v, root, rank, l[1..], r)
  }

  // Everything below one slot.
  ghost function Under(v: Nodes, root: nat, rank: map<nat, nat>, x: nat): set<nat>
    requires Wired(v, root) && Ranked(v, rank) && x in v && x in rank
    decreases rank[x]
  {
    if v[x].kind != Directory then {}
    else
      ListingRanked(v, root, rank, x);
      Below(v, root, rank, Listing(v, x), rank[x])
  }

  ghost function Subtree(v: Nodes, root: nat, rank: map<nat, nat>, x: nat): set<nat>
    requires Wired(v, root) && Ranked(v, rank) && x in v && x in rank
  {
    {x} + Under(v, root, rank, x)
  }

  lemma {:induction false} BelowMember(v: Nodes, root: nat, rank: map<nat, nat>, l: seq<DirEntry>, r: nat, y: nat)
    requires Wired(v, root) && Ranked(v, rank) && RankedBelow(v, rank, l, r)
    ensures y in Below(v, root, rank, l, r) <==> exists i :: 0 <= i < |l| && y in Subtree(v, root, rank, l[i].slot)
    decreases |l|
  {
    hide Wired, Ranked, Under;
    if l != [] {
      BelowMember(v, root, rank, l[1..], r, y);
      if y in Below(v, root, rank, l[1..], r) {
        var i :| 0 <= i < |l[1..]| && y in Subtree(v, root, rank, l[1..][i].slot);
        assert y in Subtree(v, root, rank, l[i + 1].slot);
      }
      if y in {l[0].slot} + Under(v, root, rank, l[0].slot) { assert y in Subtree(v, root, rank, l[0].slot); }
      if exists i :: 0 <= i < |l| && y in Subtree(v, root, rank, l[i].slot) {
        var i :| 0 <= i < |l| && y in Subtree(v, root, rank, l[i].slot);
        if i > 0 { assert l[1..][i - 1] == l[i]; }
      }
    }
  }

  // A subtree is closed: what its directories list is in it.
  lemma {:induction false} SubtreeClosed(v: Nodes, root: nat, rank: map<nat, nat>, x: nat, d: nat, i: nat, y: nat)
    requires Wired(v, root) && Ranked(v, rank) && x in v && x in rank && x != root
    requires Lists(v, d, i, y) && d in Subtree(v, root, rank, x)
    ensures y in Subtree(v, root, rank, x)
    decreases rank[x]
  {
    hide ListedOnce, DecodeAll, Below, Dropped;
    if v[x].kind == Directory {
      ListingRanked(v, root, rank, x);
      var l := Listing(v, x);
      BelowMember(v, root, rank, l, rank[x], y);
      if d == x {
        assert y in Subtree(v, root, rank, l[i].slot);
      } else {
        BelowMember(v, root, rank, l, rank[x], d);
        var k :| 0 <= k < |l| && d in Subtree(v, root, rank, l[k].slot);
        assert Whole(v, x);
        SubtreeClosed(v, root, rank, l[k].slot, d, i, y);
      }
    }
  }

  // Whoever lists a slot of the subtree is in it, except the parent of its top.
  lemma {:induction false} SubtreeDetached(v: Nodes, root: nat, rank: map<nat, nat>, p: nat, k: nat, x: nat, d: nat, i: nat, y: nat)
    requires Wired(v, root) && Ranked(v, rank) && x in v && x in rank && x != root && Lists(v, p, k, x)
    requires Lists(v, d, i, y) && y in Subtree(v, root, rank, x)
    ensures (d == p && y == x) || d in Subtree(v, root, rank, x)
    decreases rank[x]
  {
    hide DecodeAll, Below, Dropped;
    if y != x {
      ListingRanked(v, root, rank, x);
      var l := Listing(v, x);
      BelowMember(v, root, rank, l, rank[x], y);
      var j :| 0 <= j < |l| && y in Subtree(v, root, rank, l[j].slot);
      assert Lists(v, x, j, l[j].slot);
      assert Whole(v, x);
      SubtreeDetached(v, root, rank, x, j, l[j].slot, d, i, y);
      BelowMember(v, root, rank, l, rank[x], d);
    }
  }
}
