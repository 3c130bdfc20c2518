/**
 Inputs at which the file system does not do what its interface suggests, reached by runs from a
 freshly made disk. The conditions under which it does are equivalences of the other modules.
 */
module FileFailures {
  import opened Options
  import opened FreeSpace
  import opened FileStore
  import opened Directories
  import opened Namespace
  import opened FileEffects
  import opened FileTree
  import opened FileLaws
  import opened FileOps
  import opened RoomyDisks
  import FileRuns

  const NAME_B: Name := [98]
  const NAME_D: Name := [100]
  const NAME_F: Name := [102]
  const NAME_X: Name := [120]

  // ---------- Small disks ----------

  const DISK := 1000

  // A disk of 1000 sectors whose files end at or before sector t.
  ghost predicate At(s: Store, t: nat) {
    Good(s, 0) && Ends(s.table, t) && s.sectors == DISK
  }

  lemma Fresh(disk: seq<Byte>)
    requires |disk| == DISK * SECTOR
    ensures var s := Formatted(DISK, disk); At(s, FIRST) && View(s) == map[0 := Node(Root, [])]
  {
    hide Wired, View, FileStore.Valid;
    FormattedGood(DISK, disk);
    assert Ends(Formatted(DISK, disk).table, FIRST);
  }

  lemma GrownListing(v: Nodes, d: nat, name: Name, slot: nat, node: Node)
    requires d in v && slot !in v && Recordable(DirEntry(Stored(name), slot)) && |v[d].bytes| % RECORD == 0
    ensures var v' := Grown(v, d, name, slot, node);
            && v'.Keys == v.Keys + {slot} && v'[slot] == node && v'[d].kind == v[d].kind && |v'[d].bytes| == |v[d].bytes| + RECORD
            && Listing(v', d) == Listing(v, d) + [DirEntry(Stored(name), slot)]
            && forall x :: x in v && x != d ==> v'[x] == v[x] && Listing(v', x) == Listing(v, x)
  {
    hide DecodeAll, WithRecord, Recordable;
    WithRecordListing(v[d].bytes, name, slot);
    assert |WithRecord(v[d].bytes, name, slot)| == |v[d].bytes| + RECORD by { RecordLonger(v[d].bytes, name, slot); }
  }

  lemma RecordLonger(b: seq<Byte>, name: Name, slot: nat)
    requires |b| % RECORD == 0 && Recordable(DirEntry(Stored(name), slot))
    ensures |WithRecord(b, name, slot)| == |b| + RECORD
  {
  }

  lemma LookupOne(v: Nodes, e: DirEntry, name: Name, last: bool)
    ensures Lookup(v, [e], name, last) == if Matches(v, e, name, last) then Some(e.slot) else None
  {
  }

  lemma LookupTwo(v: Nodes, e: DirEntry, f: DirEntry, name: Name, last: bool)
    ensures Lookup(v, [e, f], name, last) ==
            if Matches(v, e, name, last) then Some(e.slot) else if Matches(v, f, name, last) then Some(f.slot) else None
  {
    LookupOne(v, f, name, last);
    assert [e, f][1..] == [f];
  }

  lemma OnePart(v: Nodes, d: nat, name: Name)
    ensures Resolve(v, d, [name]) == Lookup(v, Listing(v, d), name, true)
  {
  }

  lemma TwoParts(v: Nodes, d: nat, name: Name, next: Name)
    ensures Resolve(v, d, [name, next]) ==
            match Lookup(v, Listing(v, d), name, false) case None => None case Some(e) => Lookup(v, Listing(v, e), next, true)
  {
    assert [name, next][1..] == [next];
    match Lookup(v, Listing(v, d), name, false)
    case None =>
    case Some(e) => OnePart(v, e, next);
  }

  lemma SmallCounts()
    ensures Count(0) == 0 && Count(64) == Count(128) == Count(192) == 1
  {
  }

  // A short new file under a directory of a small disk.
  lemma Adds(s: Store, t: nat, front: seq<Name>, name: Name, kind: Kind, data: seq<Byte>, d: nat, slot: nat)
    requires At(s, t) && t < 700 && |data| <= 128 && Writable(kind, data) && Texts(front) && 0 !in name && |name| < NAME_FIELD
    requires Resolve(View(s), 0, front + [name]).None? && Resolve(View(s), 0, front) == Some(d) && d in View(s)
    requires |View(s)[d].bytes| in {0, 64, 128} && slot < SLOTS && slot !in View(s) && forall i :: 0 <= i < slot ==> i in View(s)
    ensures var op := Write(front + [name], kind, data);
            && Allowed(View(s), 0, op) && At(Exec(s, 0, op), t + 2)
            && Recordable(DirEntry(name, slot)) && View(Exec(s, 0, op)) == Grown(View(s), d, name, slot, Node(kind, data))
  {
    hide Wired, View, Exec, Resolve, Recordable, FileStore.Valid, Ends, WithRecord;
    var op := Write(front + [name], kind, data);
    assert Home(front + [name]) == front;
    SmallCounts();
    CountGrows(|data|, 128);
    CountGrows(|View(s)[d].bytes| + RECORD, 192);
    WriteAt(s, 0, front, name, kind, data, d, slot, t);
    OpKeepsGood(s, 0, op);
    EndsLater(Exec(s, 0, op).table, t + Count(|data|) + Count(|View(s)[d].bytes| + RECORD), t + 2);
  }

  // ---------- A directory moved onto the name of a file ----------

  // Write /b, make /d, write /d/x, move /d to /b.
  function HidingRun(): seq<Op> {
    [Write([NAME_B], File, Zeros(128)), Write([NAME_D], Directory, []), Write([NAME_D, NAME_X], File, []), Move([NAME_D], [NAME_B])]
  }

  ghost predicate OneFile(v: Nodes) {
    && v.Keys == {0, 1} && v[0].kind == Root && v[1] == Node(File, Zeros(128))
    && Listing(v, 0) == [DirEntry(NAME_B, 1)] && |v[0].bytes| == 64
  }

  ghost predicate WithDirectory(v: Nodes) {
    && v.Keys == {0, 1, 2} && v[0].kind == Root && v[1] == Node(File, Zeros(128)) && v[2] == Node(Directory, [])
    && Listing(v, 0) == [DirEntry(NAME_B, 1), DirEntry(NAME_D, 2)] && |v[0].bytes| == 128
  }

  // The four nodes, whatever the root lists.
  ghost predicate Four(v: Nodes, l: seq<DirEntry>) {
    && v.Keys == {0, 1, 2, 3} && v[0].kind == Root && v[1] == Node(File, Zeros(128)) && v[2].kind == Directory && v[3] == Node(File, [])
    && Listing(v, 0) == l && Listing(v, 2) == [DirEntry(NAME_X, 3)]
    && |v[0].bytes| == RECORD * |l| && |v[2].bytes| == RECORD
  }

  lemma HidingOne(s: Store)
    requires At(s, FIRST) && View(s) == map[0 := Node(Root, [])]
    ensures var op := HidingRun()[0]; Allowed(View(s), 0, op) && At(Exec(s, 0, op), 643) && OneFile(View(Exec(s, 0, op)))
  {
    hide View, Exec, Grown, At, Allowed;
    assert Listing(View(s), 0) == [];
    OnePart(View(s), 0, NAME_B);
    assert [] + [NAME_B] == [NAME_B];
    Adds(s, FIRST, [], NAME_B, File, Zeros(128), 0, 1);
    GrownListing(View(s), 0, NAME_B, 1, Node(File, Zeros(128)));
  }

  lemma HidingTwo(s: Store)
    requires At(s, 643) && OneFile(View(s))
    ensures var op := HidingRun()[1]; Allowed(View(s), 0, op) && At(Exec(s, 0, op), 645) && WithDirectory(View(Exec(s, 0, op)))
  {
    hide View, Exec, Grown, At, Allowed, DecodeAll;
    OnePart(View(s), 0, NAME_D);
    LookupOne(View(s), DirEntry(NAME_B, 1), NAME_D, true);
    assert [] + [NAME_D] == [NAME_D];
    Adds(s, 643, [], NAME_D, Directory, [], 0, 2);
    GrownListing(View(s), 0, NAME_D, 2, Node(Directory, []));
  }

  lemma HidingThree(s: Store)
    requires At(s, 645) && WithDirectory(View(s))
    ensures var op := HidingRun()[2];
            && Allowed(View(s), 0, op) && At(Exec(s, 0, op), 647)
            && Four(View(Exec(s, 0, op)), [DirEntry(NAME_B, 1), DirEntry(NAME_D, 2)])
  {
    hide View, Exec, Grown, At, Allowed, DecodeAll;
    var v := View(s);
    OnePart(v, 0, NAME_D);
    TwoParts(v, 0, NAME_D, NAME_X);
    LookupTwo(v, DirEntry(NAME_B, 1), DirEntry(NAME_D, 2), NAME_D, false);
    LookupTwo(v, DirEntry(NAME_B, 1), DirEntry(NAME_D, 2), NAME_D, true);
    assert Listing(v, 2) == [] by { assert DecodeAll([]) == []; }
    assert [NAME_D] + [NAME_X] == [NAME_D, NAME_X];
    Adds(s, 645, [NAME_D], NAME_X, File, [], 2, 3);
    GrownListing(v, 2, NAME_X, 3, Node(File, []));
  }

  lemma HidingFour(s: Store)
    requires At(s, 647) && Four(View(s), [DirEntry(NAME_B, 1), DirEntry(NAME_D, 2)])
    ensures var op := HidingRun()[3];
            && Allowed(View(s), 0, op) && Good(Exec(s, 0, op), 0)
            && Four(View(Exec(s, 0, op)), [DirEntry(NAME_B, 1), DirEntry(NAME_B, 2)])
  {
    hide View, Exec, Wired, FileStore.Valid, Ends, DecodeAll, WithRecord, Without, Resolve;
    var v := View(s);
    OnePart(v, 0, NAME_D);
    Nothing(v, 0);
    LookupTwo(v, DirEntry(NAME_B, 1), DirEntry(NAME_D, 2), NAME_D, true);
    assert Front([NAME_D]) == [] && Front([NAME_B]) == [] && Last([NAME_B]) == NAME_B;
    assert Allowed(v, 0, Move([NAME_D], [NAME_B]));
    assert Lists(v, 0, 1, 2);
    SmallCounts();
    MoveAt(s, 0, [NAME_D], [NAME_B], 0, 1, 2, 0, 647);
    OpKeepsGood(s, 0, Move([NAME_D], [NAME_B]));
    WithoutListing(v[0].bytes, 2);
    TwoDropped(DirEntry(NAME_B, 1), DirEntry(NAME_D, 2));
    WithRecordListing(Without(v[0].bytes, 2), NAME_B, 2);
    RecordLonger(Without(v[0].bytes, 2), NAME_B, 2);
  }

  lemma TwoDropped(e: DirEntry, f: DirEntry)
    requires e.slot != f.slot
    ensures Dropped([e, f], f.slot) == [e] && Dropped([e, f], e.slot) == [f]
  {
    var l := [e, f];
    assert l[1..] == [f] && l[1..][1..] == [];
    assert Dropped([f], f.slot) == [] && Dropped([f], e.slot) == [f];
  }

  lemma HiddenAfter(v: Nodes)
    requires Four(v, [DirEntry(NAME_B, 1), DirEntry(NAME_B, 2)])
    ensures Resolve(v, 0, [NAME_B]) == Some(1) && Resolve(v, 0, [NAME_B, NAME_X]) == Some(3)
    ensures !Unshadowed(v, 0, [NAME_B, NAME_X]) && Lists(v, 2, 0, 3)
  {
    hide DecodeAll;
    OnePart(v, 0, NAME_B);
    TwoParts(v, 0, NAME_B, NAME_X);
    LookupTwo(v, DirEntry(NAME_B, 1), DirEntry(NAME_B, 2), NAME_B, true);
    LookupTwo(v, DirEntry(NAME_B, 1), DirEntry(NAME_B, 2), NAME_B, false);
    LookupOne(v, DirEntry(NAME_X, 3), NAME_X, true);
    assert [NAME_B, NAME_X][..0] == [];
    assert Listing(v, 0)[0].name == NAME_B;
    assert Hides(v, Listing(v, 0), NAME_B);
  }

  // After the run the path /b is the file and /b/x is found in the directory behind it, so the
  // deletion of /b/x, an operation that spares /b, works on the 128 bytes of /b and makes them 64.
  lemma MovedOntoFile(disk: seq<Byte>)
    requires |disk| == DISK * SECTOR
    ensures AllowedRun(Formatted(DISK, disk), 0, HidingRun())
    ensures var s := ExecAll(Formatted(DISK, disk), 0, HidingRun());
            && Good(s, 0) && !Unshadowed(View(s), 0, [NAME_B, NAME_X])
            && Resolve(View(s), 0, [NAME_B]) == Some(1) && Resolve(View(s), 0, [NAME_B, NAME_X]) == Some(3) && Lists(View(s), 2, 0, 3)
            && FileRuns.Spares(View(s), 0, Delete([NAME_B, NAME_X]), [NAME_B])
            && ContentAt(View(s), 0, [NAME_B]) == Some(Zeros(128))
            && var r := DeletedByCode(s, 0, [NAME_B, NAME_X]);
               r.Some? && Resolve(View(r.value), 0, [NAME_B]) == Some(1) && ContentAt(View(r.value), 0, [NAME_B]) == Some(Zeros(64))
  {
    hide View, Exec, At, Allowed, Good, Four, OneFile, WithDirectory, Resolve, Unshadowed, DeletedByCode, Lists, Formatted, HidingRun;
    var s0 := Formatted(DISK, disk);
    Fresh(disk);
    FourOps();
    RunOfFour(s0, HidingRun()[0], HidingRun()[1], HidingRun()[2], HidingRun()[3]);
    HidingOne(s0);
    var s1 := Exec(s0, 0, HidingRun()[0]);
    HidingTwo(s1);
    var s2 := Exec(s1, 0, HidingRun()[1]);
    HidingThree(s2);
    var s3 := Exec(s2, 0, HidingRun()[2]);
    HidingFour(s3);
    var s := Exec(s3, 0, HidingRun()[3]);
    HiddenAfter(View(s));
    CodeDeletesWrongly(s);
    assert View(s)[1] == Node(File, Zeros(128)) && 1 in View(s) by { FourHas(View(s), [DirEntry(NAME_B, 1), DirEntry(NAME_B, 2)]); }
  }

  lemma FourHas(v: Nodes, l: seq<DirEntry>)
    requires Four(v, l)
    ensures 1 in v && v[1] == Node(File, Zeros(128))
  {
  }

  lemma FourOps()
    ensures |HidingRun()| == 4 && HidingRun() == [HidingRun()[0], HidingRun()[1], HidingRun()[2], HidingRun()[3]]
  {
  }

  lemma RunOfFour(s: Store, a: Op, b: Op, c: Op, d: Op)
    ensures var s1 := Exec(s, 0, a);
            var s2 := Exec(s1, 0, b);
            var s3 := Exec(s2, 0, c);
            && ExecAll(s, 0, [a, b, c, d]) == Exec(s3, 0, d)
            && (AllowedRun(s, 0, [a, b, c, d]) <==>
                Allowed(View(s), 0, a) && Allowed(View(s1), 0, b) && Allowed(View(s2), 0, c) && Allowed(View(s3), 0, d))
  {
    hide Exec, Allowed, View;
    var s1 := Exec(s, 0, a);
    var s2 := Exec(s1, 0, b);
    var s3 := Exec(s2, 0, c);
    assert [a, b, c, d][1..] == [b, c, d] && [b, c, d][1..] == [c, d] && [c, d][1..] == [d] && [d][1..] == [];
    assert ExecAll(s3, 0, [d]) == Exec(s3, 0, d) && AllowedRun(s3, 0, [d]) == Allowed(View(s3), 0, d);
    assert ExecAll(s2, 0, [c, d]) == ExecAll(s3, 0, [d]);
    assert AllowedRun(s2, 0, [c, d]) == (Allowed(View(s2), 0, c) && AllowedRun(s3, 0, [d]));
    assert ExecAll(s1, 0, [b, c, d]) == ExecAll(s2, 0, [c, d]);
    assert AllowedRun(s1, 0, [b, c, d]) == (Allowed(View(s1), 0, b) && AllowedRun(s2, 0, [c, d]));
  }

  // ---------- A directory moved below itself ----------

  // Make /d, make /d/b, move /d to /d/b/d.
  function SelfRun(): seq<Op> {
    [Write([NAME_D], Directory, []), Write([NAME_D, NAME_B], Directory, []), Move([NAME_D], [NAME_D, NAME_B, NAME_D])]
  }

  ghost predicate OneDirectory(v: Nodes) {
    && v.Keys == {0, 1} && v[0].kind == Root && v[1] == Node(Directory, [])
    && Listing(v, 0) == [DirEntry(NAME_D, 1)] && |v[0].bytes| == RECORD
  }

  ghost predicate Nested(v: Nodes) {
    && v.Keys == {0, 1, 2} && v[0].kind == Root && v[1].kind == Directory && v[2] == Node(Directory, [])
    && Listing(v, 0) == [DirEntry(NAME_D, 1)] && Listing(v, 1) == [DirEntry(NAME_B, 2)] && |v[0].bytes| == |v[1].bytes| == RECORD
  }

  lemma SelfOne(s: Store)
    requires At(s, FIRST) && View(s) == map[0 := Node(Root, [])]
    ensures var op := SelfRun()[0]; Allowed(View(s), 0, op) && At(Exec(s, 0, op), 643) && OneDirectory(View(Exec(s, 0, op)))
  {
    hide View, Exec, Grown, At, Allowed;
    assert Listing(View(s), 0) == [];
    OnePart(View(s), 0, NAME_D);
    assert [] + [NAME_D] == [NAME_D];
    Adds(s, FIRST, [], NAME_D, Directory, [], 0, 1);
    GrownListing(View(s), 0, NAME_D, 1, Node(Directory, []));
  }

  lemma SelfTwo(s: Store)
    requires At(s, 643) && OneDirectory(View(s))
    ensures var op := SelfRun()[1]; Allowed(View(s), 0, op) && At(Exec(s, 0, op), 645) && Nested(View(Exec(s, 0, op)))
  {
    hide View, Exec, Grown, At, Allowed, DecodeAll;
    var v := View(s);
    OnePart(v, 0, NAME_D);
    TwoParts(v, 0, NAME_D, NAME_B);
    LookupOne(v, DirEntry(NAME_D, 1), NAME_D, true);
    LookupOne(v, DirEntry(NAME_D, 1), NAME_D, false);
    assert Listing(v, 1) == [] by { assert DecodeAll([]) == []; }
    assert [NAME_D] + [NAME_B] == [NAME_D, NAME_B];
    Adds(s, 643, [NAME_D], NAME_B, Directory, [], 1, 2);
    GrownListing(v, 1, NAME_B, 2, Node(Directory, []));
  }

  lemma SelfThree(s: Store)
    requires At(s, 645) && Nested(View(s))
    ensures var op := SelfRun()[2];
            && Allowed(View(s), 0, op) && Exec(s, 0, op) != s && 1 in View(Exec(s, 0, op)) && 2 in View(Exec(s, 0, op))
            && forall q :: Resolve(View(Exec(s, 0, op)), 0, q).Some? ==> Resolve(View(Exec(s, 0, op)), 0, q) == Some(0)
  {
    hide View, Exec, Wired, FileStore.Valid, Ends, DecodeAll, WithRecord, Without, Resolve, Removed, Appended;
    var v, to := View(s), [NAME_D, NAME_B, NAME_D];
    NestedPaths(v);
    assert Front([NAME_D]) == [] && Front(to) == [NAME_D, NAME_B] && Last(to) == NAME_D;
    Nothing(v, 0);
    assert Allowed(v, 0, Move([NAME_D], to));
    assert Lists(v, 0, 0, 1);
    SmallCounts();
    MoveAt(s, 0, [NAME_D], to, 0, 0, 1, 2, 645);
    var v1 := v[0 := Node(Root, Without(v[0].bytes, 1))];
    var v' := v1[2 := Node(Directory, WithRecord([], NAME_D, 1))];
    WithoutRemoved(v, v1, 0, 1, {});
    WithRecordListing([], NAME_D, 1);
    RecordLonger([], NAME_D, 1);
    assert Appended(v1, v', 2, 1, NAME_D) by { ManyAppended(v1, v', 2, 1, NAME_D); }
    ResolvedReached(v, 0, [NAME_D]);
    forall q | Resolve(v', 0, q).Some?
      ensures Resolve(v', 0, q) == Some(0)
    {
      NestedBelow(v);
      MovedIntoItself(v, v1, v', 0, 0, 0, 1, 2, NAME_D, q);
      ResolveLive(v', 0, q);
    }
    assert v != v';
  }

  lemma ManyAppended(v: Nodes, v': Nodes, p: nat, x: nat, name: Name)
    requires p in v && x in v && p in v' && v' == v[p := v'[p]] && v'[p].kind == v[p].kind && |v'[p].bytes| % RECORD == 0
    requires Listing(v', p) == Listing(v, p) + [DirEntry(name, x)]
    ensures Appended(v, v', p, x, name)
  {
    hide DecodeAll;
  }

  lemma NestedPaths(v: Nodes)
    requires Nested(v)
    ensures Resolve(v, 0, [NAME_D]) == Some(1) && Resolve(v, 0, [NAME_D, NAME_B]) == Some(2)
  {
    hide DecodeAll;
    OnePart(v, 0, NAME_D);
    TwoParts(v, 0, NAME_D, NAME_B);
    LookupOne(v, DirEntry(NAME_D, 1), NAME_D, true);
    LookupOne(v, DirEntry(NAME_D, 1), NAME_D, false);
    LookupOne(v, DirEntry(NAME_B, 2), NAME_B, true);
  }

  lemma NestedBelow(v: Nodes)
    requires Nested(v)
    ensures {1, 2} <= Descendants(v, 1)
  {
    hide DecodeAll;
    BelowItself(v, 1);
    assert Chain(v, 2, []) == Some(2) && [0][1..] == [];
    assert Chain(v, 1, [0]) == Some(2);
  }

  // Both directories are still on the disk, and no path finds either.
  lemma MovedBelowItself(disk: seq<Byte>)
    requires |disk| == DISK * SECTOR
    ensures AllowedRun(Formatted(DISK, disk), 0, SelfRun())
    ensures var v := View(ExecAll(Formatted(DISK, disk), 0, SelfRun()));
            1 in v && 2 in v && forall q :: Resolve(v, 0, q).Some? ==> Resolve(v, 0, q) == Some(0)
  {
    hide View, Exec, At, Allowed, OneDirectory, Nested, Resolve, Formatted;
    var s0 := Formatted(DISK, disk);
    var a, b, c := SelfRun()[0], SelfRun()[1], SelfRun()[2];
    Fresh(disk);
    SelfOne(s0);
    var s1 := Exec(s0, 0, a);
    SelfTwo(s1);
    var s2 := Exec(s1, 0, b);
    SelfThree(s2);
    RunOfThree(s0, a, b, c);
    assert SelfRun() == [a, b, c];
  }

  lemma RunOfThree(s: Store, a: Op, b: Op, c: Op)
    ensures var s1 := Exec(s, 0, a);
            var s2 := Exec(s1, 0, b);
            && ExecAll(s, 0, [a, b, c]) == Exec(s2, 0, c)
            && (AllowedRun(s, 0, [a, b, c]) <==> Allowed(View(s), 0, a) && Allowed(View(s1), 0, b) && Allowed(View(s2), 0, c))
  {
    hide Exec, Allowed, View;
    var s1 := Exec(s, 0, a);
    var s2 := Exec(s1, 0, b);
    assert [a, b, c][1..] == [b, c] && [b, c][1..] == [c] && [c][1..] == [];
    assert ExecAll(s2, 0, [c]) == Exec(s2, 0, c) && AllowedRun(s2, 0, [c]) == Allowed(View(s2), 0, c);
    assert ExecAll(s1, 0, [b, c]) == ExecAll(s2, 0, [c]);
    assert AllowedRun(s1, 0, [b, c]) == (Allowed(View(s1), 0, b) && AllowedRun(s2, 0, [c]));
  }

  // ---------- A file under a regular file ----------

  // The empty file /f, then /f/x: the second write is done, /f/x is not found, and /f holds a record.
  lemma WrittenUnderFile(disk: seq<Byte>)
    requires |disk| == DISK * SECTOR
    ensures var s := Formatted(DISK, disk);
            var a, b := Write([NAME_F], File, []), Write([NAME_F, NAME_X], File, [5]);
            var s1 := Exec(s, 0, a);
            var s2 := Exec(s1, 0, b);
            && Allowed(View(s), 0, a) && Allowed(View(s1), 0, b) && CanWrite(s1, 0, [NAME_F, NAME_X], File, 1)
            && ContentAt(View(s1), 0, [NAME_F]) == Some([]) && ContentAt(View(s2), 0, [NAME_F]) == Some(Encode(DirEntry(NAME_X, 2)))
            && Resolve(View(s2), 0, [NAME_F, NAME_X]).None? && 2 in View(s2) && View(s2)[2] == Node(File, [5])
  {
    hide View, Exec, Grown, At, Allowed, Resolve, CanWrite, WithRecord, Formatted;
    var s := Formatted(DISK, disk);
    Fresh(disk);
    assert Listing(View(s), 0) == [];
    OnePart(View(s), 0, NAME_F);
    Nothing(View(s), 0);
    assert [] + [NAME_F] == [NAME_F];
    Adds(s, FIRST, [], NAME_F, File, [], 0, 1);
    GrownListing(View(s), 0, NAME_F, 1, Node(File, []));
    var s1 := Exec(s, 0, Write([NAME_F], File, []));
    UnderFile(s1);
  }

  lemma UnderFile(s: Store)
    requires At(s, 643) && View(s).Keys == {0, 1} && View(s)[0].kind == Root && View(s)[1] == Node(File, [])
    requires Listing(View(s), 0) == [DirEntry(NAME_F, 1)] && |View(s)[0].bytes| == RECORD
    ensures var b := Write([NAME_F, NAME_X], File, [5]);
            var s2 := Exec(s, 0, b);
            && Allowed(View(s), 0, b) && CanWrite(s, 0, [NAME_F, NAME_X], File, 1)
            && ContentAt(View(s), 0, [NAME_F]) == Some([]) && ContentAt(View(s2), 0, [NAME_F]) == Some(Encode(DirEntry(NAME_X, 2)))
            && Resolve(View(s2), 0, [NAME_F, NAME_X]).None? && 2 in View(s2) && View(s2)[2] == Node(File, [5])
  {
    hide View, Exec, At, Allowed, Resolve, CanWrite, Written, FileStore.Valid, Wired, DecodeAll, Encode, Grown;
    var v, b := View(s), Write([NAME_F, NAME_X], File, [5]);
    OnePart(v, 0, NAME_F);
    TwoParts(v, 0, NAME_F, NAME_X);
    LookupOne(v, DirEntry(NAME_F, 1), NAME_F, true);
    LookupOne(v, DirEntry(NAME_F, 1), NAME_F, false);
    assert [NAME_F] + [NAME_X] == [NAME_F, NAME_X];
    Adds(s, 643, [NAME_F], NAME_X, File, [5], 1, 2);
    AtIsGood(s, 643);
    GrownHas(v, 1, NAME_X, 2, Node(File, [5]));
    WriteHappened(s, [NAME_F, NAME_X], File, [5]);
    WrittenEffect(s, 0, [NAME_F, NAME_X], File, [5]);
    var v' := View(Exec(s, 0, b));
    GrownFile(v);
    EnterUnderFile(v, v', 0, 1, 2, NAME_X, Node(File, [5]));
  }

  lemma AtIsGood(s: Store, t: nat)
    requires At(s, t)
    ensures Good(s, 0)
  {
  }

  lemma GrownHas(v: Nodes, d: nat, name: Name, slot: nat, node: Node)
    requires d in v && slot !in v && Recordable(DirEntry(Stored(name), slot))
    ensures slot in Grown(v, d, name, slot, node) && Entered(v, Grown(v, d, name, slot, node), d, slot, name, node)
  {
  }

  lemma GrownFile(v: Nodes)
    requires 1 in v && v[1] == Node(File, []) && Recordable(DirEntry(NAME_X, 2))
    ensures var v' := Grown(v, 1, NAME_X, 2, Node(File, [5]));
            v'[1] == Node(File, Encode(DirEntry(NAME_X, 2))) && v'[2] == Node(File, [5])
  {
    hide Encode;
    assert Records([]) == [];
  }

  // ---------- Removing a record that is not there ----------

  // The bytes a removal asks room for and writes: one record less, in 64 bits.
  function NewBytes(size: nat): nat {
    (size / RECORD - 1) % 0x1_0000_0000_0000_0000 * RECORD % 0x1_0000_0000_0000_0000
  }

  // What the entry's 32-bit size becomes.
  function WrittenSize(size: nat): nat {
    NewBytes(size) % 0x1_0000_0000
  }

  function SectorsFor(bytes: nat): nat {
    (bytes + SECTOR - 1) % 0x1_0000_0000_0000_0000 / SECTOR % 0x1_0000_0000
  }

  // The records kept do not fit the bytes written exactly when the file does not list the slot. A file
  // without a record then claims 0xffffffc0 bytes, for which no sector is found to be needed.
  lemma RemovalIff(b: seq<Byte>, slot: nat)
    requires |b| < 0x1_0000_0000
    ensures |b| < RECORD ==> WrittenSize(|b|) == 0xffff_ffc0 && SectorsFor(NewBytes(|b|)) == 0
    ensures |b| >= RECORD ==> WrittenSize(|b|) == NewBytes(|b|) == |b| / RECORD * RECORD - RECORD
    ensures |Without(b, slot)| > (|b| / RECORD - 1) * RECORD <==> forall k :: 0 <= k < |DecodeAll(b)| ==> DecodeAll(b)[k].slot != slot
  {
    hide DecodeAll, Without, NewBytes, SectorsFor, WrittenSize;
    NewBytesAre(|b|);
    WithoutListing(b, slot);
    DroppedFewer(DecodeAll(b), slot);
  }

  lemma NewBytesAre(size: nat)
    requires size < 0x1_0000_0000
    ensures size < RECORD ==> WrittenSize(size) == 0xffff_ffc0 && SectorsFor(NewBytes(size)) == 0
    ensures size >= RECORD ==> WrittenSize(size) == NewBytes(size) == size / RECORD * RECORD - RECORD
  {
    var q := size / RECORD;
    if q == 0 {
      assert NewBytes(size) == 0xffff_ffff_ffff_ffc0;
    } else {
      assert (q - 1) % 0x1_0000_0000_0000_0000 == q - 1;
    }
  }

  lemma {:induction false} DroppedFewer(l: seq<DirEntry>, slot: nat)
    ensures |Dropped(l, slot)| <= |l|
    ensures |Dropped(l, slot)| == |l| <==> forall k :: 0 <= k < |l| ==> l[k].slot != slot
  {
    if l != [] {
      var rest := l[1..];
      DroppedFewer(rest, slot);
      assert forall k :: 0 <= k < |rest| ==> rest[k] == l[k + 1];
      assert forall k :: 0 < k < |l| ==> l[k] == rest[k - 1];
    }
  }

  // What a removal writes to the directory's file: the first of the records kept, as many bytes as one
  // record less than the file had.
  function RemovalBytes(b: seq<Byte>, slot: nat): Option<seq<Byte>> {
    if NewBytes(|b|) <= |Without(b, slot)| then Some(Without(b, slot)[..NewBytes(|b|)]) else None
  }

  // A deletion with exactly that write.
  ghost function DeletedByCode(s: Store, root: nat, parts: seq<Name>): Option<Store> {
    if parts == [] || Resolve(View(s), root, parts).None? || Resolve(View(s), root, Front(parts)).None? then None
    else
      var x, p := Resolve(View(s), root, parts).value, Resolve(View(s), root, Front(parts)).value;
      if p >= |s.table| || |s.disk| != s.sectors * SECTOR || RemovalBytes(Content(s, p), x).None? then None
      else
        match Edit(s, p, RemovalBytes(Content(s, p), x).value)
        case None => None
        case Some(s1) => if x < |s1.table| then Some(Free(s1, x)) else None
  }

  // Where the directory is not hidden this is the deletion of the other modules.
  lemma DeletedByCodeIs(s: Store, root: nat, parts: seq<Name>)
    requires Good(s, root) && Allowed(View(s), root, Delete(parts))
    ensures DeletedByCode(s, root, parts) == Deleted(s, root, parts)
  {
    hide Wired, Laid, Resolve, View, Unshadowed, Content, Without, Edit, NewBytes, DecodeAll, ListsOnly;
    DeletedEffect(s, root, parts);
    if Resolve(View(s), root, parts).Some? {
      var x := Resolve(View(s), root, parts).value;
      var p, k := Listing1(s, root, parts);
      DirectoryUnlisted(s, root, p, k, x);
      InView(s);
      WithoutSize(Content(s, p), x, k);
      NewBytesAre(|Content(s, p)|);
      OneListed(Content(s, p), x, k);
    }
  }

  lemma OneListed(b: seq<Byte>, x: nat, k: nat)
    requires ListsOnly(DecodeAll(b), x, k) && |Without(b, x)| == NewBytes(|b|)
    ensures RemovalBytes(b, x) == Some(Without(b, x))
  {
    hide DecodeAll, Without, NewBytes;
    assert Without(b, x)[..|Without(b, x)|] == Without(b, x);
  }

  lemma ZerosKept(slot: nat)
    requires slot != 0
    ensures Without(Zeros(128), slot) == Zeros(128)
  {
    assert Zeros(128)[..RECORD] == Zeros(64) && Zeros(128)[RECORD..] == Zeros(64) && Zeros(64)[RECORD..] == [] && Zeros(64)[..RECORD] == Zeros(64);
    assert Zeros(64)[NAME_FIELD..] == Zeros(4) && Decode(Zeros(64)).slot == 0;
    assert Without(Zeros(64), slot) == Zeros(64);
    assert Zeros(64) + Zeros(64) == Zeros(128);
  }

  lemma CodeDeletesWrongly(s: Store)
    requires Good(s, 0) && Four(View(s), [DirEntry(NAME_B, 1), DirEntry(NAME_B, 2)])
    ensures var r := DeletedByCode(s, 0, [NAME_B, NAME_X]);
            r.Some? && Resolve(View(r.value), 0, [NAME_B]) == Some(1) && ContentAt(View(r.value), 0, [NAME_B]) == Some(Zeros(64))
  {
    hide Wired, Laid, Resolve, View, Content, Without, Edit, NewBytes, DecodeAll, ReadSectors;
    var v := View(s);
    HiddenAfter(v);
    assert Front([NAME_B, NAME_X]) == [NAME_B];
    InView(s);
    ContentSize(s, 1);
    ZerosKept(3);
    NewBytesAre(128);
    assert Zeros(128)[..64] == Zeros(64);
    SmallCounts();
    EditEffect(s, 1, Zeros(64));
    var s1 := Edit(s, 1, Zeros(64)).value;
    InView(s1);
    FreeView(s1, 3);
    StillFirst(v, View(Free(s1, 3)));
  }

  lemma StillFirst(v: Nodes, v': Nodes)
    requires Four(v, [DirEntry(NAME_B, 1), DirEntry(NAME_B, 2)]) && v' == v[1 := Node(File, Zeros(64))] - {3}
    ensures Resolve(v', 0, [NAME_B]) == Some(1) && ContentAt(v', 0, [NAME_B]) == Some(Zeros(64))
  {
    hide DecodeAll;
    assert Listing(v', 0) == Listing(v, 0);
    OnePart(v', 0, NAME_B);
    LookupTwo(v', DirEntry(NAME_B, 1), DirEntry(NAME_B, 2), NAME_B, true);
  }

  // ---------- Long names and long files ----------

  function LongName(): Name {
    seq(60, _ => 97)
  }

  // A file written under a name of 60 bytes is found under the first 59 of them, not under the 60.
  lemma LongNameLost(disk: seq<Byte>)
    requires |disk| == DISK * SECTOR
    ensures var op := Write([LongName()], File, []);
            var s, s' := Formatted(DISK, disk), Exec(Formatted(DISK, disk), 0, op);
            && Allowed(View(s), 0, op) && CanWrite(s, 0, [LongName()], File, 0)
            && Resolve(View(s'), 0, [LongName()]).None? && Resolve(View(s'), 0, [LongName()[..59]]) == Some(1)
  {
    hide View, Exec, Grown, WithRecord, Wired, FileStore.Valid, Resolve, CanWrite, Written, Ends, LongName;
    var s := Formatted(DISK, disk);
    Fresh(disk);
    var v := View(s);
    LongNameIs();
    assert Listing(v, 0) == [];
    OnePart(v, 0, LongName());
    Nothing(v, 0);
    assert [] + [LongName()] == [LongName()];
    SmallCounts();
    WriteAt(s, 0, [], LongName(), File, [], 0, 1, FIRST);
    assert Allowed(v, 0, Write([LongName()], File, [])) by { assert Home([LongName()]) == []; }
    GrownListing(v, 0, LongName(), 1, Node(File, []));
    WrittenEffect(s, 0, [LongName()], File, []);
    assert Written(s, 0, [LongName()], File, []).Some? by { WriteHappened(s, [LongName()], File, []); }
    LongNameFound(Grown(v, 0, LongName(), 1, Node(File, [])));
  }

  lemma LongNameIs()
    ensures |LongName()| == 60 && 0 !in LongName() && Stored(LongName()) == LongName()[..59]
  {
  }

  // A write that changed what the disk holds was done.
  lemma WriteHappened(s: Store, parts: seq<Name>, kind: Kind, data: seq<Byte>)
    requires View(Exec(s, 0, Write(parts, kind, data))) != View(s)
    ensures Written(s, 0, parts, kind, data).Some?
  {
    hide View, Written;
  }

  lemma LongNameFound(v: Nodes)
    requires 1 in v && Listing(v, 0) == [DirEntry(LongName()[..59], 1)]
    ensures Resolve(v, 0, [LongName()]).None? && Resolve(v, 0, [LongName()[..59]]) == Some(1)
  {
    hide DecodeAll;
    var e := DirEntry(LongName()[..59], 1);
    assert |e.name| == 59 && |LongName()| == 60;
    OnePart(v, 0, LongName());
    OnePart(v, 0, LongName()[..59]);
    LookupOne(v, e, LongName(), true);
    LookupOne(v, e, LongName()[..59], true);
  }

  // 256 sectors are written as none and read as none.
  lemma LongFileLost(disk: seq<Byte>)
    requires |disk| == 1000 * SECTOR
    ensures WriteSectors(disk, 1000, FIRST, Zeros(256 * SECTOR)) == disk
    ensures ReadSectors(disk, 1000, FIRST, 256 * SECTOR) == []
  {
    assert Count(256 * SECTOR) == 256;
  }

  // ---------- A move without room ----------

  // One usable sector, which the root's two records fill: the empty file /f and the empty directory /d.
  function RootBytes(): (b: seq<Byte>)
    ensures |b| == 2 * RECORD && DecodeAll(b) == [DirEntry(NAME_F, 1), DirEntry(NAME_D, 2)]
  {
    WithRecordListing([], NAME_F, 1);
    WithRecordListing(WithRecord([], NAME_F, 1), NAME_D, 2);
    WithRecord(WithRecord([], NAME_F, 1), NAME_D, 2)
  }

  function FullEntry(i: int): Entry {
    if i == 0 then Entry(true, Root, FIRST, 2 * RECORD) else Entry(i < 3, if i == 2 then Directory else File, FIRST, 0)
  }

  function FullStore(): (s: Store)
    ensures s.sectors == 643 && |s.table| == SLOTS && |s.disk| == 643 * SECTOR
    ensures forall i :: 0 <= i < SLOTS ==> s.table[i] == FullEntry(i)
    ensures s.disk[FIRST * SECTOR..FIRST * SECTOR + 2 * RECORD] == RootBytes()
  {
    Store(643,
          seq(SLOTS, i => FullEntry(i)),
          Zeros(FIRST * SECTOR) + RootBytes() + Zeros(2 * SECTOR - 2 * RECORD))
  }

  lemma FullStoreLaid()
    ensures FileStore.Valid(FullStore())
  {
    hide RootBytes, FullStore;
    assert Count(2 * RECORD) == 1;
  }

  lemma FullStoreView()
    ensures View(FullStore()) == map[0 := Node(Root, RootBytes()), 1 := Node(File, []), 2 := Node(Directory, [])]
  {
    hide RootBytes, FullStore;
    var s := FullStore();
    assert Count(2 * RECORD) == 1 && Count(0) == 0;
    assert Content(s, 0) == RootBytes() && Content(s, 1) == [] && Content(s, 2) == [];
  }

  // Moving /f to /d/f takes it out of the root, and /d cannot take the record: no directory lists it.
  lemma MovedToNowhere()
    ensures Good(FullStore(), 0) && Formed(View(FullStore()), 0)
    ensures Resolve(View(FullStore()), 0, [NAME_F]) == Some(1)
    ensures var r := Moved(FullStore(), 0, [NAME_F], [NAME_D, NAME_F]);
            r.Some? && forall e, i :: !Lists(View(r.value), e, i, 1)
  {
    hide FullStore, RootBytes, View, Moved, MovedOut, Crowded, DecodeAll, Formed, Wired;
    var s := FullStore();
    FullStoreLaid();
    FullStoreView();
    FullTree(View(s));
    IsWired(View(s), 0);
    MovedEffect(s, 0, [NAME_F], [NAME_D, NAME_F]);
    var p, k := MovedOutEffect(s, 0, [NAME_F]);
    var mid := MovedOut(s, 0, [NAME_F]).value;
    OneRecordLeft(View(s), View(mid));
    FullOfRoot(mid);
    MoveLosesIff(s, 0, [NAME_F], [NAME_D, NAME_F]);
  }

  lemma FullTree(v: Nodes)
    requires v == map[0 := Node(Root, RootBytes()), 1 := Node(File, []), 2 := Node(Directory, [])]
    ensures Formed(v, 0) && Resolve(v, 0, [NAME_F]) == Some(1) && Resolve(v, 0, Home([NAME_D, NAME_F])) == Some(2)
    ensures Resolve(v, 0, Front([NAME_F])) == Some(0)
    ensures Allowed(v, 0, Move([NAME_F], [NAME_D, NAME_F]))
  {
    hide RootBytes, DecodeAll;
    assert Listing(v, 0) == [DirEntry(NAME_F, 1), DirEntry(NAME_D, 2)];
    assert Listing(v, 2) == [] by { assert |DecodeAll([])| == 0; }
    LookupTwo(v, DirEntry(NAME_F, 1), DirEntry(NAME_D, 2), NAME_F, true);
    LookupTwo(v, DirEntry(NAME_F, 1), DirEntry(NAME_D, 2), NAME_D, true);
    assert Home([NAME_D, NAME_F]) == [NAME_D] && Front([NAME_F]) == [];
  }

  lemma OneRecordLeft(v: Nodes, v1: Nodes)
    requires v == map[0 := Node(Root, RootBytes()), 1 := Node(File, []), 2 := Node(Directory, [])] && Removed(v, v1, 0, 1, {})
    ensures 0 in v1 && |v1[0].bytes| > 0 && 2 in v1 && v1[2].bytes == []
  {
    hide RootBytes, DecodeAll;
    var l := [DirEntry(NAME_F, 1), DirEntry(NAME_D, 2)];
    assert Listing(v, 0) == l && l[1..] == [DirEntry(NAME_D, 2)] && l[1..][1..] == [];
    assert Dropped(l[1..], 1) == [DirEntry(NAME_D, 2)];
    assert |Listing(v1, 0)| == 1;
  }

  // The root's file is in the only usable sector.
  lemma FullOfRoot(s: Store)
    requires FileStore.Valid(s) && s.sectors == 643 && 0 in View(s) && |View(s)[0].bytes| > 0 && 2 in View(s) && View(s)[2].bytes == []
    ensures Crowded(s, 2)
  {
    InView(s);
    ContentSize(s, 0);
    var t := Hidden(s.table, 2);
    assert Placed(s.table[0], 643) && t[0] == s.table[0] && Count(RECORD) == 1;
    assert s.table[0].start == FIRST;
    assert !Clear(FIRST, 1, t[0]);
    NoPlace(t, 643, RECORD);
    assert Records([]) == [];
  }
}
