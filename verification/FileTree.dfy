/**
 Directories as a tree of listings, names apart: every slot is listed at most once and the root
 never, so whatever the root's listings lead to is finite, and has one way to it. Also when the
 path of a directory finds the directory and not another entry of its name.
 */
module FileTree {
  import opened Options
  import opened FreeSpace
  import opened Directories
  import opened Namespace
  import opened FileEffects

  function Front(parts: seq<Name>): seq<Name>
    requires parts != []
  {
    parts[..|parts| - 1]
  }

  function Last(parts: seq<Name>): Name
    requires parts != []
  {
    parts[|parts| - 1]
  }

  lemma Nothing(v: Nodes, d: nat)
    ensures Resolve(v, d, []) == Some(d)
  {
  }

  // ---------- Following entries by position ----------

  function Chain(v: Nodes, d: nat, ks: seq<nat>): (r: Option<nat>)
    decreases |ks|
  {
    if ks == [] then Some(d)
    else if d in v && IsDir(v[d]) && ks[0] < |Listing(v, d)| then Chain(v, Listing(v, d)[ks[0]].slot, ks[1..])
    else None
  }

  lemma {:induction false} ChainSnoc(v: Nodes, d: nat, ks: seq<nat>, k: nat)
    ensures Chain(v, d, ks + [k]) ==
            match Chain(v, d, ks)
            case None => None
            case Some(e) => if e in v && IsDir(v[e]) && k < |Listing(v, e)| then Some(Listing(v, e)[k].slot) else None
    decreases |ks|
  {
    hide DecodeAll, Listing;
    var all := ks + [k];
    if ks == [] {
      assert all == [k] && all[1..] == [];
    } else {
      assert all[0] == ks[0] && all[1..] == ks[1..] + [k];
      if d in v && IsDir(v[d]) && ks[0] < |Listing(v, d)| { ChainSnoc(v, Listing(v, d)[ks[0]].slot, ks[1..], k); }
    }
  }

  // The last step of a chain is an entry of the directory before it.
  lemma ChainLister(v: Nodes, d: nat, ks: seq<nat>) returns (e: nat)
    requires ks != [] && Chain(v, d, ks).Some?
    ensures Chain(v, d, ks[..|ks| - 1]) == Some(e) && Lists(v, e, ks[|ks| - 1], Chain(v, d, ks).value)
  {
    hide Chain, DecodeAll;
    var front, k := ks[..|ks| - 1], ks[|ks| - 1];
    assert ks == front + [k];
    ChainSnoc(v, d, front, k);
    e := Chain(v, d, front).value;
  }

  lemma ListedIsLive(v: Nodes, root: nat, d: nat, k: nat, x: nat)
    requires Wired(v, root) && Lists(v, d, k, x)
    ensures x in v && x != root && d in v && IsDir(v[d])
  {
    hide ListedOnce, DecodeAll;
    assert Whole(v, d);
  }

  // There is one way to every slot.
  lemma {:induction false} OneChain(v: Nodes, root: nat, a: seq<nat>, b: seq<nat>)
    requires Wired(v, root) && Chain(v, root, a).Some? && Chain(v, root, a) == Chain(v, root, b)
    ensures a == b
    decreases |a|
  {
    hide Wired, Chain, Lists;
    var x := Chain(v, root, a).value;
    NoSteps(v, root);
    if a != [] && b != [] {
      var d := ChainLister(v, root, a);
      var e := ChainLister(v, root, b);
      OnePlace(v, root, d, a[|a| - 1], e, b[|b| - 1], x);
      OneChain(v, root, a[..|a| - 1], b[..|b| - 1]);
      assert a == a[..|a| - 1] + [a[|a| - 1]] && b == b[..|b| - 1] + [b[|b| - 1]];
    } else if a != [] {
      var d := ChainLister(v, root, a);
      ListedIsLive(v, root, d, a[|a| - 1], x);
    } else if b != [] {
      var d := ChainLister(v, root, b);
      ListedIsLive(v, root, d, b[|b| - 1], x);
    }
  }

  lemma NoSteps(v: Nodes, d: nat)
    ensures Chain(v, d, []) == Some(d)
  {
  }

  lemma OnePlace(v: Nodes, root: nat, d: nat, i: nat, e: nat, j: nat, x: nat)
    requires Wired(v, root) && Lists(v, d, i, x) && Lists(v, e, j, x)
    ensures d == e && i == j
  {
  }

  // ---------- Ranks ----------

  ghost predicate Reached(v: Nodes, root: nat, y: nat) {
    exists ks :: Chain(v, root, ks) == Some(y)
  }

  ghost function WayTo(v: Nodes, root: nat, y: nat): (ks: seq<nat>)
    requires Reached(v, root, y)
    ensures Chain(v, root, ks) == Some(y)
  {
    var ks :| Chain(v, root, ks) == Some(y);
    ks
  }

  lemma ListedDeeper(v: Nodes, root: nat, d: nat, i: nat, x: nat)
    requires Wired(v, root) && Reached(v, root, d) && Lists(v, d, i, x)
    ensures x in v && Reached(v, root, x) && |WayTo(v, root, x)| == |WayTo(v, root, d)| + 1
  {
    hide Wired, Chain, DecodeAll;
    var ks := WayTo(v, root, d);
    ListedIsLive(v, root, d, i, x);
    ChainSnoc(v, root, ks, i);
    OneChain(v, root, WayTo(v, root, x), ks + [i]);
  }

  lemma {:induction false} Bound(s: set<nat>) returns (n: nat)
    ensures forall x :: x in s ==> x <= n
  {
    n := 0;
    if s != {} {
      var x :| x in s;
      var m := Bound(s - {x});
      n := if x < m then m else x;
      assert forall y :: y in s && y != x ==> y in s - {x};
    }
  }

  lemma Deepest(v: Nodes, root: nat) returns (n: nat)
    ensures forall y :: y in v && Reached(v, root, y) ==> |WayTo(v, root, y)| <= n
  {
    hide Reached, WayTo;
    var lengths := set y | y in v && Reached(v, root, y) :: |WayTo(v, root, y)|;
    n := Bound(lengths);
    assert forall y :: y in v && Reached(v, root, y) ==> |WayTo(v, root, y)| in lengths;
  }

  // Every slot that the root's listings lead to is the top of a finite tree.
  lemma Rankable(v: Nodes, root: nat) returns (rank: map<nat, nat>)
    requires Wired(v, root)
    ensures Ranked(v, rank) && forall y :: y in rank <==> y in v && Reached(v, root, y)
  {
    hide Wired, Lists, Reached, WayTo;
    var n := Deepest(v, root);
    rank := map y | y in v && Reached(v, root, y) :: n - |WayTo(v, root, y)|;
    forall d, i, x | Lists(v, d, i, x) && d in rank
      ensures x in rank && rank[x] < rank[d]
    {
      ListedDeeper(v, root, d, i, x);
    }
  }

  // What a path finds, listings lead to.
  lemma {:induction false} ResolveChained(v: Nodes, d: nat, parts: seq<Name>) returns (ks: seq<nat>)
    requires d in v && (IsDir(v[d]) || parts == []) && Resolve(v, d, parts).Some?
    ensures Chain(v, d, ks) == Resolve(v, d, parts)
    decreases |parts|
  {
    hide DecodeAll, Lookup;
    if parts == [] { return []; }
    var last := |parts| == 1;
    FoundIsListed(v, d, parts[0], last);
    var y := Lookup(v, Listing(v, d), parts[0], last).value;
    var k: nat :| Lists(v, d, k, y);
    var rest := ResolveChained(v, y, parts[1..]);
    ks := [k] + rest;
    assert ks[1..] == rest;
  }

  lemma ResolvedReached(v: Nodes, root: nat, parts: seq<Name>)
    requires Wired(v, root) && Resolve(v, root, parts).Some?
    ensures Reached(v, root, Resolve(v, root, parts).value) && Resolve(v, root, parts).value in v
  {
    hide Chain, Resolve;
    var ks := ResolveChained(v, root, parts);
    ResolveLive(v, root, parts);
  }

  // ---------- What is below a slot ----------

  ghost function Descendants(v: Nodes, x: nat): set<nat> {
    set y | y in v && exists ks :: Chain(v, x, ks) == Some(y)
  }

  lemma BelowItself(v: Nodes, x: nat)
    requires x in v
    ensures x in Descendants(v, x)
  {
    NoSteps(v, x);
  }

  lemma {:induction false} SubtreeChained(v: Nodes, root: nat, rank: map<nat, nat>, x: nat, y: nat) returns (ks: seq<nat>)
    requires Wired(v, root) && Ranked(v, rank) && x in v && x in rank && y in Subtree(v, root, rank, x)
    ensures Chain(v, x, ks) == Some(y)
    decreases rank[x]
  {
    hide ListedOnce, DecodeAll, Below, Ranked, Listing;
    if y == x { return []; }
    ListingRanked(v, root, rank, x);
    var l := Listing(v, x);
    BelowMember(v, root, rank, l, rank[x], y);
    var k :| 0 <= k < |l| && y in Subtree(v, root, rank, l[k].slot);
    var rest := SubtreeChained(v, root, rank, l[k].slot, y);
    ks := [k] + rest;
    assert ks[1..] == rest;
  }

  lemma {:induction false} ChainInside(v: Nodes, gone: set<nat>, d: nat, ks: seq<nat>)
    requires Closed(v, gone) && d in gone && Chain(v, d, ks).Some?
    ensures Chain(v, d, ks).value in gone
    decreases |ks|
  {
    if ks != [] {
      var e := Listing(v, d)[ks[0]].slot;
      assert Lists(v, d, ks[0], e);
      ChainInside(v, gone, e, ks[1..]);
    }
  }

  lemma SubtreeIsDescendants(v: Nodes, root: nat, rank: map<nat, nat>, p: nat, k: nat, x: nat)
    requires Wired(v, root) && Ranked(v, rank) && x in v && x in rank && x != root && Lists(v, p, k, x)
    ensures Subtree(v, root, rank, x) == Descendants(v, x)
  {
    hide Wired, Ranked, Lists, Under, Chain, Closed, Detached;
    SubtreeSets(v, root, rank, p, k, x);
    var gone := Subtree(v, root, rank, x);
    forall y | y in gone
      ensures y in Descendants(v, x)
    {
      var ks := SubtreeChained(v, root, rank, x, y);
      SubtreeRank(v, root, rank, x, y);
    }
    forall y | y in Descendants(v, x)
      ensures y in gone
    {
      var ks :| Chain(v, x, ks) == Some(y);
      ChainInside(v, gone, x, ks);
    }
  }

  // The tree below a slot is closed, and only the slot's parent lists into it from outside.
  lemma DescendantSets(v: Nodes, root: nat, p: nat, k: nat, x: nat)
    requires Wired(v, root) && Lists(v, p, k, x) && Reached(v, root, x)
    ensures Closed(v, Descendants(v, x)) && Detached(v, p, x, Descendants(v, x))
    ensures p !in Descendants(v, x) && root !in Descendants(v, x)
  {
    hide Wired, Lists, Ranked, Reached, Subtree, Descendants, Closed, Detached;
    ListedIsLive(v, root, p, k, x);
    var rank := Rankable(v, root);
    SubtreeIsDescendants(v, root, rank, p, k, x);
    SubtreeSets(v, root, rank, p, k, x);
  }

  // ---------- Names that hide directories ----------

  // An entry that is not a directory stands before every directory of its name.
  ghost predicate Hides(v: Nodes, l: seq<DirEntry>, name: Name) {
    exists i :: 0 <= i < |l| && l[i].name == name && l[i].slot in v && v[l[i].slot].kind != Directory
                && forall j :: 0 <= j < i ==> !Matches(v, l[j], name, false)
  }

  // A name finds the same directory as a last part and on the way down exactly when nothing hides it.
  lemma {:induction false} HiddenIff(v: Nodes, l: seq<DirEntry>, name: Name)
    requires Lookup(v, l, name, false).Some?
    ensures Lookup(v, l, name, true) == Lookup(v, l, name, false) || Hides(v, l, name)
    ensures Hides(v, l, name) ==> Lookup(v, l, name, true).Some? && Lookup(v, l, name, true).value in v
                                  && v[Lookup(v, l, name, true).value].kind != Directory
  {
    if !Matches(v, l[0], name, false) {
      var r := l[1..];
      HiddenIff(v, r, name);
      if l[0].name == name && l[0].slot in v {
        assert Hides(v, l, name);
      } else {
        HidesRest(v, l, name);
      }
    }
  }

  lemma HidesRest(v: Nodes, l: seq<DirEntry>, name: Name)
    requires l != [] && !(l[0].name == name && l[0].slot in v)
    ensures Hides(v, l, name) <==> Hides(v, l[1..], name)
  {
    var r := l[1..];
    if Hides(v, r, name) {
      var i :| 0 <= i < |r| && r[i].name == name && r[i].slot in v && v[r[i].slot].kind != Directory
               && forall j :: 0 <= j < i ==> !Matches(v, r[j], name, false);
      assert l[i + 1] == r[i];
      forall j | 0 <= j < i + 1
        ensures !Matches(v, l[j], name, false)
      {
        if j > 0 { assert l[j] == r[j - 1]; }
      }
    }
    if Hides(v, l, name) {
      var i :| 0 <= i < |l| && l[i].name == name && l[i].slot in v && v[l[i].slot].kind != Directory
               && forall j :: 0 <= j < i ==> !Matches(v, l[j], name, false);
      assert i > 0 && r[i - 1] == l[i];
      forall j | 0 <= j < i - 1
        ensures !Matches(v, r[j], name, false)
      {
        assert r[j] == l[j + 1];
      }
    }
  }

  // The directory that a path's last part is looked up in is not hidden by another entry.
  ghost predicate Unshadowed(v: Nodes, root: nat, parts: seq<Name>) {
    |parts| >= 2 ==>
      match ResolveDir(v, root, parts[..|parts| - 2])
      case None => true
      case Some(g) => !Hides(v, Listing(v, g), parts[|parts| - 2])
  }

  lemma {:induction false} ResolveDirSnoc(v: Nodes, d: nat, parts: seq<Name>, name: Name)
    ensures ResolveDir(v, d, parts + [name]) ==
            match ResolveDir(v, d, parts)
            case None => None
            case Some(p) => Lookup(v, Listing(v, p), name, false)
    decreases |parts|
  {
    hide DecodeAll, Lookup;
    var q := parts + [name];
    if parts == [] {
      assert q == [name] && q[1..] == [];
    } else {
      assert q[0] == parts[0] && q[1..] == parts[1..] + [name];
      var s := Lookup(v, Listing(v, d), parts[0], false);
      if s.Some? { ResolveDirSnoc(v, s.value, parts[1..], name); }
    }
  }

  // The file that the path without its last part finds lists the slot exactly when its directory
  // is not hidden: deleting and moving work on that file.
  lemma ParentListsIff(v: Nodes, root: nat, parts: seq<Name>) returns (d: nat, k: nat)
    requires Wired(v, root) && parts != [] && Resolve(v, root, parts).Some?
    ensures var x := Resolve(v, root, parts).value; x in v && x != root && d in v && IsDir(v[d]) && Lists(v, d, k, x)
    ensures Resolve(v, root, Front(parts)).Some? && Resolve(v, root, Front(parts)).value in v
    ensures var p := Resolve(v, root, Front(parts)).value;
            && (Unshadowed(v, root, parts) <==> p == d)
            && (p == d || v[p].kind == File)
  {
    hide Wired, Resolve, Lookup, Hides, Listing, Lists;
    var front, name := Front(parts), Last(parts);
    assert parts == front + [name];
    d, k := ListerOf(v, root, front, name);
    if front == [] {
      Nothing(v, root);
      assert ResolveDir(v, root, []) == Some(root);
    } else {
      var ff, n := Front(front), Last(front);
      assert front == ff + [n] && ff == parts[..|parts| - 2] && n == parts[|parts| - 2];
      ResolveDirSnoc(v, root, ff, n);
      ResolveSnoc(v, root, ff, n);
      var g := ResolveDir(v, root, ff).value;
      HiddenIff(v, Listing(v, g), n);
      RootLive(v, root);
      DirResolved(v, root, ff);
      DirectoryFound(v, g, n);
      EntryNotRoot(v, root, g, n);
    }
  }

  lemma DirectoryFound(v: Nodes, g: nat, n: Name)
    requires g in v && IsDir(v[g]) && Lookup(v, Listing(v, g), n, false).Some?
    ensures var d := Lookup(v, Listing(v, g), n, false).value; d in v && v[d].kind == Directory
  {
    hide Listing, DecodeAll;
    FoundIsListed(v, g, n, false);
  }

  lemma EntryNotRoot(v: Nodes, root: nat, g: nat, n: Name)
    requires Wired(v, root) && g in v && IsDir(v[g])
    ensures Lookup(v, Listing(v, g), n, true).Some? ==>
              Lookup(v, Listing(v, g), n, true).value in v && v[Lookup(v, Listing(v, g), n, true).value].kind != Root
  {
    hide ListedOnce, DecodeAll;
    if Lookup(v, Listing(v, g), n, true).Some? {
      FoundIsListed(v, g, n, true);
      assert Whole(v, g);
    }
  }

  // With distinct names nothing is ever hidden.
  // With distinct names nothing is hidden.
  lemma FormedUnshadowed(v: Nodes, root: nat, parts: seq<Name>)
    requires Formed(v, root) && Resolve(v, root, parts).Some?
    ensures Unshadowed(v, root, parts)
  {
    hide Formed, Wired, Resolve, Hides, Lists, Listing, NamesDistinct;
    FormedIff(v, root);
    if |parts| >= 2 {
      var ff, n, name := parts[..|parts| - 2], parts[|parts| - 2], Last(parts);
      assert parts == ff + [n] + [name];
      RootLive(v, root);
      ResolveSnoc(v, root, ff + [n], name);
      ResolveDirSnoc(v, root, ff, n);
      DirResolved(v, root, ff);
      DistinctNotHidden(v, ResolveDir(v, root, ff).value, n);
    }
  }

  lemma DistinctNotHidden(v: Nodes, g: nat, n: Name)
    requires NamesDistinct(v, g) && Lookup(v, Listing(v, g), n, false).Some?
    ensures !Hides(v, Listing(v, g), n)
  {
    hide DecodeAll, Lookup;
    var l := Listing(v, g);
    var j :| 0 <= j < |l| && Matches(v, l[j], n, false);
  }

  // ---------- One path for each slot ----------

  // The names on the way along a chain.
  function Spelled(v: Nodes, d: nat, ks: seq<nat>): (r: seq<Name>)
    decreases |ks|
  {
    if ks == [] || d !in v || !IsDir(v[d]) || ks[0] >= |Listing(v, d)| then []
    else [Listing(v, d)[ks[0]].name] + Spelled(v, Listing(v, d)[ks[0]].slot, ks[1..])
  }

  lemma FoundAt(v: Nodes, d: nat, name: Name, last: bool) returns (k: nat)
    requires d in v && IsDir(v[d]) && Lookup(v, Listing(v, d), name, last).Some?
    ensures k < |Listing(v, d)| && Listing(v, d)[k].name == name && Listing(v, d)[k].slot == Lookup(v, Listing(v, d), name, last).value
    ensures var s := Lookup(v, Listing(v, d), name, last).value; s in v && (last || IsDir(v[s]))
  {
    hide DecodeAll;
    k :| 0 <= k < |Listing(v, d)| && Listing(v, d)[k].slot == Lookup(v, Listing(v, d), name, last).value && Matches(v, Listing(v, d)[k], name, last);
  }

  // A path is the spelling of a chain, and if it meets the set the chain has a beginning that ends there.
  lemma {:induction false} Follow(v: Nodes, d: nat, parts: seq<Name>, gone: set<nat>) returns (ks: seq<nat>, i: nat)
    requires d in v && (IsDir(v[d]) || parts == []) && Resolve(v, d, parts).Some?
    ensures Chain(v, d, ks) == Resolve(v, d, parts) && Spelled(v, d, ks) == parts
    ensures i <= |ks| && (!Avoids(v, d, parts, gone) ==> Chain(v, d, ks[..i]).Some? && Chain(v, d, ks[..i]).value in gone)
    decreases |parts|
  {
    hide DecodeAll, Lookup;
    ks, i := [], 0;
    if parts != [] {
      var k := FoundAt(v, d, parts[0], |parts| == 1);
      var y := Listing(v, d)[k].slot;
      var rest, j := Follow(v, y, parts[1..], gone);
      ks := [k] + rest;
      assert ks[1..] == rest;
      if d !in gone {
        i := j + 1;
        assert ks[..i] == [k] + rest[..j] && ks[..i][1..] == rest[..j];
      }
    }
  }

  lemma {:induction false} SpelledPrefix(v: Nodes, d: nat, ks: seq<nat>, i: nat)
    requires i <= |ks|
    ensures Spelled(v, d, ks[..i]) <= Spelled(v, d, ks)
    decreases |ks|
  {
    hide DecodeAll;
    if i > 0 && d in v && IsDir(v[d]) && ks[0] < |Listing(v, d)| {
      assert ks[..i][0] == ks[0] && ks[..i][1..] == ks[1..][..i - 1];
      SpelledPrefix(v, Listing(v, d)[ks[0]].slot, ks[1..], i - 1);
    }
  }

  lemma {:induction false} ChainOn(v: Nodes, d: nat, a: seq<nat>, b: seq<nat>)
    ensures Chain(v, d, a + b) == match Chain(v, d, a) case None => None case Some(e) => Chain(v, e, b)
    decreases |a|
  {
    hide DecodeAll;
    if a == [] {
      assert a + b == b;
    } else {
      assert (a + b)[0] == a[0] && (a + b)[1..] == a[1..] + b;
      if d in v && IsDir(v[d]) && a[0] < |Listing(v, d)| { ChainOn(v, Listing(v, d)[a[0]].slot, a[1..], b); }
    }
  }

  // Every slot has at most one path, whether or not names are repeated.
  lemma UniquePath(v: Nodes, root: nat, a: seq<Name>, b: seq<Name>)
    requires Wired(v, root) && Resolve(v, root, a).Some? && Resolve(v, root, a) == Resolve(v, root, b)
    ensures a == b
  {
    hide Wired, Resolve, Chain, Spelled;
    RootLive(v, root);
    var ka, _ := Follow(v, root, a, {});
    var kb, _ := Follow(v, root, b, {});
    OneChain(v, root, ka, kb);
  }

  // A path that the slot's own path does not begin avoids the slot and all that is below it.
  lemma NotBelow(v: Nodes, root: nat, parts: seq<Name>, q: seq<Name>, x: nat, gone: set<nat>)
    requires Wired(v, root) && Resolve(v, root, parts) == Some(x) && gone <= Descendants(v, x)
    requires Resolve(v, root, q).Some? && !(parts <= q)
    ensures Avoids(v, root, q, gone)
  {
    hide Wired, Resolve, Chain, Spelled, Avoids;
    RootLive(v, root);
    var kq, i := Follow(v, root, q, gone);
    if !Avoids(v, root, q, gone) {
      var kp, _ := Follow(v, root, parts, {});
      var z := Chain(v, root, kq[..i]).value;
      var more :| Chain(v, x, more) == Some(z);
      ChainOn(v, root, kp, more);
      OneChain(v, root, kp + more, kq[..i]);
      assert kp == kq[..|kp|];
      SpelledPrefix(v, root, kq, |kp|);
      assert false;
    }
  }

  lemma {:induction false} EndsClear(v: Nodes, d: nat, q: seq<Name>, gone: set<nat>)
    requires Avoids(v, d, q, gone) && Resolve(v, d, q).Some?
    ensures Resolve(v, d, q).value !in gone
    decreases |q|
  {
    hide Lookup, DecodeAll;
    if q != [] { EndsClear(v, Lookup(v, Listing(v, d), q[0], |q| == 1).value, q[1..], gone); }
  }
}
