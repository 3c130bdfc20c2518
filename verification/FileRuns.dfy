/**
 Runs of file operations: what a path reads changes only by an operation on that path, or on a
 path that leads to it.
 */
module FileRuns {
  import opened Options
  import opened FreeSpace
  import opened FileStore
  import opened Directories
  import opened Namespace
  import opened FileEffects
  import opened FileTree
  import opened FileLaws
  import opened FileOps

  // ---------- Steps ----------

  ghost predicate RegularAt(v: Nodes, root: nat, q: seq<Name>) {
    var y := Resolve(v, root, q); y.Some? && y.value in v && v[y.value].kind == File
  }

  // The operation is not about the path: it does not write it, or put a record into it as if it
  // were a directory, and does not delete or move it or a directory on the way to it.
  ghost predicate Spares(v: Nodes, root: nat, op: Op, q: seq<Name>) {
    match op
    case Write(parts, _, _) => parts != q && !(parts != [] && Front(parts) == q && RegularAt(v, root, q))
    case Delete(parts) => !(parts <= q)
    case DeleteTree(parts) => !(parts <= q)
    case Move(parts, to) => !(parts <= q) && !(Home(to) == q && RegularAt(v, root, q))
  }

  // The slot is what it was; a regular file has the same bytes.
  ghost predicate SameFile(v: Nodes, v': Nodes, y: nat) {
    y in v && y in v' && v'[y].kind == v[y].kind && (v[y].kind == File ==> v'[y].bytes == v[y].bytes)
  }

  ghost predicate Keeps(v: Nodes, v': Nodes, root: nat, q: seq<Name>) {
    Resolve(v, root, q).Some? ==>
      Resolve(v', root, q) == Resolve(v, root, q) && SameFile(v, v', Resolve(v, root, q).value)
  }

  lemma WriteStep(v: Nodes, v': Nodes, root: nat, parts: seq<Name>, kind: Kind, data: seq<Byte>, q: seq<Name>)
    requires Wired(v, root) && Writable(kind, data) && Wrote(v, v', root, parts, kind, data) && Spares(v, root, Write(parts, kind, data), q)
    ensures Keeps(v, v', root, q)
  {
    hide Wired, Resolve, Wrote, NameFree, Findable;
    WriteThenRead(v, v', root, parts, kind, data);
    if Resolve(v, root, q).Some? {
      ResolvedIsLive(v, root, q);
      if Resolve(v, root, q) == Resolve(v, root, parts) { UniquePath(v, root, q, parts); }
      if parts != [] && Resolve(v, root, q) == Resolve(v, root, Front(parts)) { UniquePath(v, root, q, Front(parts)); }
    }
  }

  lemma ParentDirectory(v: Nodes, root: nat, parts: seq<Name>, p: nat)
    requires Wired(v, root) && parts != [] && Unshadowed(v, root, parts)
    requires Resolve(v, root, parts).Some? && Resolve(v, root, Front(parts)) == Some(p)
    ensures p in v && IsDir(v[p])
  {
    hide Wired, Resolve, Unshadowed;
    var d, k := ParentListsIff(v, root, parts);
  }

  // Deleting a file, or a directory with all that is below it.
  lemma UnlinkStep(v: Nodes, v': Nodes, root: nat, parts: seq<Name>, gone: set<nat>, q: seq<Name>)
    requires Wired(v, root) && Unshadowed(v, root, parts) && Unlinked(v, v', root, parts, gone)
    requires gone <= Descendants(v, Target(v, root, parts)) && !(parts <= q)
    ensures Keeps(v, v', root, q)
  {
    hide Wired, Resolve, Avoids, Listing, Descendants, Unshadowed, Agree;
    var p, x :| Resolve(v, root, parts) == Some(x) && Resolve(v, root, Front(parts)) == Some(p) && Removed(v, v', p, x, gone);
    ParentDirectory(v, root, parts, p);
    if Resolve(v, root, q).Some? {
      ResolvedIsLive(v, root, q);
      ResolvedIsLive(v, root, parts);
      BelowItself(v, x);
      NotBelow(v, root, parts, q, x, gone + {x});
      RemoveAgrees(v, v', p, x, gone);
      RootLive(v, root);
      ResolveKept(v, v', gone + {x}, root, q);
      EndsClear(v, root, q, gone + {x});
    }
  }

  lemma MoveStep(v: Nodes, v1: Nodes, v': Nodes, root: nat, parts: seq<Name>, to: seq<Name>, entered: bool, q: seq<Name>)
    requires Wired(v, root) && Unshadowed(v, root, parts) && Relocated(v, v1, v', root, parts, to, entered)
    requires Spares(v, root, Move(parts, to), q)
    ensures Keeps(v, v', root, q)
  {
    hide Wired, Resolve, Avoids, Listing, Descendants, Unshadowed, Agree;
    var p, x, p2 :|
      && Resolve(v, root, parts) == Some(x) && Resolve(v, root, Front(parts)) == Some(p)
      && Resolve(v, root, Home(to)) == Some(p2) && Removed(v, v1, p, x, {})
      && if entered then Appended(v1, v', p2, x, Stored(NewName(to))) else v' == v1;
    assert Unlinked(v, v1, root, parts, {});
    UnlinkStep(v, v1, root, parts, {}, q);
    if entered && Resolve(v, root, q).Some? {
      ResolvedIsLive(v, root, q);
      AppendAgrees(v1, v', p2, x, Stored(NewName(to)));
      AvoidsNothing(v1, root, q);
      RootLive(v, root);
      ResolveKept(v1, v', {}, root, q);
      if Resolve(v, root, q) == Some(p2) { UniquePath(v, root, q, Home(to)); }
    }
  }

  // An operation keeps every path that it is not about.
  lemma StepKeeps(s: Store, root: nat, op: Op, q: seq<Name>)
    requires Good(s, root) && Allowed(View(s), root, op) && Spares(View(s), root, op, q)
    ensures Keeps(View(s), View(Exec(s, root, op)), root, q)
  {
    hide Wired, View, FileStore.Valid, Written, Deleted, TreeDeleted, Moved, MovedOut, Resolve, Wrote, Unlinked, Relocated, CanWrite, Crowded,
         Descendants, Target, IsDirectoryAt, Unshadowed;
    AtRest(View(s), root, q);
    match op
    case Write(parts, kind, data) =>
      WrittenEffect(s, root, parts, kind, data);
      if Written(s, root, parts, kind, data).Some? {
        WriteStep(View(s), View(Written(s, root, parts, kind, data).value), root, parts, kind, data, q);
      }
    case Delete(parts) =>
      DeletedEffect(s, root, parts);
      if Deleted(s, root, parts).Some? {
        TargetBelow(View(s), root, parts);
        UnlinkStep(View(s), View(Deleted(s, root, parts).value), root, parts, {Target(View(s), root, parts)}, q);
      }
    case DeleteTree(parts) =>
      TreeDeletedEffect(s, root, parts);
      if TreeDeleted(s, root, parts).Some? {
        UnlinkStep(View(s), View(TreeDeleted(s, root, parts).value), root, parts, Descendants(View(s), Target(View(s), root, parts)), q);
      }
    case Move(parts, to) =>
      MovedEffect(s, root, parts, to);
      if Moved(s, root, parts, to).Some? {
        var mid := MovedOut(s, root, parts).value;
        MoveStep(View(s), View(mid), View(Moved(s, root, parts, to).value), root, parts, to, !Crowded(mid, Target(View(s), root, Home(to))), q);
      }
  }

  lemma TargetBelow(v: Nodes, root: nat, parts: seq<Name>)
    requires Wired(v, root) && Resolve(v, root, parts).Some?
    ensures Target(v, root, parts) in Descendants(v, Target(v, root, parts))
  {
    hide Wired, Resolve, Descendants;
    ResolvedIsLive(v, root, parts);
    BelowItself(v, Target(v, root, parts));
  }

  lemma AtRest(v: Nodes, root: nat, q: seq<Name>)
    requires Wired(v, root)
    ensures Keeps(v, v, root, q)
  {
    hide Wired, Resolve;
    if Resolve(v, root, q).Some? { ResolvedIsLive(v, root, q); }
  }

  // ---------- Runs ----------

  ghost predicate SparesAll(s: Store, root: nat, ops: seq<Op>, q: seq<Name>)
    decreases |ops|
  {
    ops != [] ==> Spares(View(s), root, ops[0], q) && SparesAll(Exec(s, root, ops[0]), root, ops[1..], q)
  }

  // Through any run a path that no operation is about finds the same slot, of the same kind and, for a
  // regular file, with the same bytes, also when names are repeated on the way.
  lemma {:induction false} RunKeeps(s: Store, root: nat, ops: seq<Op>, q: seq<Name>)
    requires Good(s, root) && AllowedRun(s, root, ops) && SparesAll(s, root, ops, q)
    ensures Keeps(View(s), View(ExecAll(s, root, ops)), root, q)
    decreases |ops|
  {
    hide Good, Resolve, Exec, Spares, Allowed, View;
    if ops == [] {
      assert Wired(View(s), root) by { GoodIsWired(s, root); }
      AtRest(View(s), root, q);
    } else {
      OpKeepsGood(s, root, ops[0]);
      RunKeeps(Exec(s, root, ops[0]), root, ops[1..], q);
      StepKeeps(s, root, ops[0], q);
    }
  }

  lemma GoodIsWired(s: Store, root: nat)
    requires Good(s, root)
    ensures Wired(View(s), root)
  {
  }

  // No operation puts a name twice into a directory.
  ghost predicate TidyRun(s: Store, root: nat, ops: seq<Op>)
    decreases |ops|
  {
    ops != [] ==> KeepsNames(s, root, ops[0]) && TidyRun(Exec(s, root, ops[0]), root, ops[1..])
  }

  // Through such a run the names of every directory stay distinct.
  lemma {:induction false} TidyRunKeepsNames(s: Store, root: nat, ops: seq<Op>)
    requires Good(s, root) && Formed(View(s), root) && AllowedRun(s, root, ops) && TidyRun(s, root, ops)
    ensures Formed(View(ExecAll(s, root, ops)), root)
    decreases |ops|
  {
    hide Good, Formed, Exec, Allowed, KeepsNames, View;
    if ops != [] {
      OpKeepsGood(s, root, ops[0]);
      NamesKeptIff(s, root, ops[0]);
      TidyRunKeepsNames(Exec(s, root, ops[0]), root, ops[1..]);
    }
  }

  // What was written is what is read after any run that is not about the path.
  lemma WriteThenRunThenRead(s: Store, root: nat, q: seq<Name>, data: seq<Byte>, ops: seq<Op>)
    requires Good(s, root) && Allowed(View(s), root, Write(q, File, data))
    requires CanWrite(s, root, q, File, |data|) && Findable(View(s), root, q)
    requires var s1 := Exec(s, root, Write(q, File, data)); AllowedRun(s1, root, ops) && SparesAll(s1, root, ops, q)
    ensures ContentAt(View(ExecAll(Exec(s, root, Write(q, File, data)), root, ops)), root, q) == Some(data)
  {
    hide Wired, Resolve, View, FileStore.Valid, Written, CanWrite, Wrote, Findable, NameFree, AllowedRun, SparesAll, ExecAll;
    var op := Write(q, File, data);
    var s1 := Exec(s, root, op);
    WrittenEffect(s, root, q, File, data);
    OpKeepsGood(s, root, op);
    WriteThenRead(View(s), View(s1), root, q, File, data);
    WrittenIsFile(View(s), View(s1), root, q, data);
    RunKeeps(s1, root, ops, q);
  }

  lemma WrittenIsFile(v: Nodes, v': Nodes, root: nat, q: seq<Name>, data: seq<Byte>)
    requires Wired(v, root) && Wrote(v, v', root, q, File, data) && Findable(v, root, q)
    ensures Resolve(v', root, q).Some? && Resolve(v', root, q).value in v' && v'[Resolve(v', root, q).value].kind == File
  {
    hide Wired, Resolve, WithRecord, NameFree;
    WriteThenRead(v, v', root, q, File, data);
    if Resolve(v, root, q).None? {
      var d, slot :| Resolve(v, root, Front(q)) == Some(d) && Entered(v, v', d, slot, Last(q), Node(File, data));
      EnterUnderDirectory(v, v', root, q, d, slot, Node(File, data));
    }
  }
}
