/**
 The four-level page tables of section 4.5 of the Intel SDM, volume 3A, as values: a map from
 frame numbers to tables of 512 entries, fed by the frame allocator's set of used frames.

 The abstract meaning of the tables is `Walk`, a partial function from (root, page) to the entry
 that maps the page. `Invariant` says that the tables form a forest: every table carries a label
 (its level, the pages below it and the address space it belongs to) and every present entry
 leads to the one table whose label its position spells out. Upper-half tables are labelled
 `Shared`, because every address space copies the kernel's upper half.
 */
module PageTables {
  import opened Options

  const PAGE_SIZE := 4096
  // Bits 12..47 of a virtual address name a page.
  const PAGES := 0x10_0000_0000
  const UPPER_HALF := 0x8_0000_0000
  const TABLE_FLAGS := 7

  // `flags` is the 64-bit entry with its address field (bits 12..51) cleared.
  datatype Entry = Entry(flags: nat, frame: nat) {
    predicate Present() { flags % 2 == 1 }
  }

  function EmptyTable(): (t: seq<Entry>) {
    seq(512, _ => Entry(0, 0))
  }

  type Table = t: seq<Entry> | |t| == 512 witness EmptyTable()

  datatype Memory = Memory(total: nat, used: set<nat>, tables: map<nat, Table>)

  datatype Slot = Slot(table: nat, index: nat)

  // What storing a flag word and then the address field leaves of the flag word.
  function FlagWord(flags: nat): nat {
    flags % 4096 + flags / 0x10_0000_0000_0000 * 0x10_0000_0000_0000
  }

  // The bits of an entry that are not its address: 0..11 and 52..63.
  predicate Carries(entry: nat, flags: nat) {
    && entry % 4096 == flags % 4096
    && entry / 0x10_0000_0000_0000 == flags / 0x10_0000_0000_0000
    && entry / 4096 % 0x100_0000_0000 == 0
  }

  // Every bit of the flag word outside the address field is kept, and the field is clear.
  lemma FlagWordCarries(flags: nat)
    ensures Carries(FlagWord(flags), flags)
  {
    var low, high := flags % 4096, flags / 0x10_0000_0000_0000;
    FieldsApart(low, high);
  }

  lemma FieldsApart(low: nat, high: nat)
    requires low < 4096
    ensures (low + high * 0x10_0000_0000_0000) % 4096 == low
    ensures (low + high * 0x10_0000_0000_0000) / 0x10_0000_0000_0000 == high
    ensures (low + high * 0x10_0000_0000_0000) / 4096 % 0x100_0000_0000 == 0
  {
    assert (low + high * 0x10_0000_0000_0000) / 4096 == high * 0x100_0000_0000;
  }

  function PageOf(virt: nat): (page: nat)
    ensures page < PAGES
  {
    virt / PAGE_SIZE % PAGES
  }

  function Index(level: nat, page: nat): (i: nat)
    ensures i < 512
  {
    if level == 1 then page % 512
    else if level == 2 then page / 512 % 512
    else if level == 3 then page / 262144 % 512
    else page / 134217728 % 512
  }

  // The indices are the four 9-bit fields of the address, from bit 39 down to bit 12.
  lemma AddressFields(virt: nat)
    ensures Index(4, PageOf(virt)) == virt / 0x80_0000_0000 % 512
    ensures Index(3, PageOf(virt)) == virt / 0x4000_0000 % 512
    ensures Index(2, PageOf(virt)) == virt / 0x20_0000 % 512
    ensures Index(1, PageOf(virt)) == virt / 0x1000 % 512
  {
    hide PageOf;
    var p, h := virt / 4096, virt / 4096 / PAGES;
    assert PageOf(virt) == p - h * PAGES by { PageIsRest(virt); }
    LowField(h, PageOf(virt));
    SecondField(h, PageOf(virt));
    ThirdField(h, PageOf(virt));
    TopField(h, PageOf(virt));
    Quotients(virt);
  }

  lemma PageIsRest(virt: nat)
    ensures virt / 4096 == virt / 4096 / PAGES * PAGES + PageOf(virt)
  {
  }

  lemma Quotients(virt: nat)
    ensures virt / 0x20_0000 == virt / 4096 / 512
    ensures virt / 0x4000_0000 == virt / 4096 / 262144
    ensures virt / 0x80_0000_0000 == virt / 4096 / 134217728
  {
  }

  lemma Drop(a: nat, q: nat)
    ensures (a * 512 + q) % 512 == q % 512 && (a * 512 + q) / 512 == a + q / 512
  {
  }

  lemma LowField(h: nat, q: nat)
    ensures (h * PAGES + q) % 512 == q % 512
  {
    Drop(h * 0x800_0000, q);
  }

  lemma SecondField(h: nat, q: nat)
    ensures (h * PAGES + q) / 512 % 512 == q / 512 % 512
  {
    Drop(h * 0x800_0000, q);
    Drop(h * 0x4_0000, q / 512);
  }

  lemma ThirdField(h: nat, q: nat)
    ensures (h * PAGES + q) / 262144 % 512 == q / 262144 % 512
  {
    Drop(h * 0x800_0000, q);
    Drop(h * 0x4_0000, q / 512);
    Drop(h * 512, q / 262144);
    assert (h * PAGES + q) / 262144 == (h * PAGES + q) / 512 / 512 && q / 262144 == q / 512 / 512;
  }

  lemma TopField(h: nat, q: nat)
    ensures (h * PAGES + q) / 134217728 % 512 == q / 134217728 % 512
  {
    Drop(h * 0x800_0000, q);
    Drop(h * 0x4_0000, q / 512);
    Drop(h * 512, q / 262144);
    Drop(h, q / 134217728);
    assert (h * PAGES + q) / 134217728 == (h * PAGES + q) / 512 / 512 / 512 && q / 134217728 == q / 512 / 512 / 512;
  }

  // The part of the page number that leads to the table of the given level.
  function Prefix(level: nat, page: nat): nat {
    if level == 1 then page / 512
    else if level == 2 then page / 262144
    else if level == 3 then page / 134217728
    else 0
  }

  // ---------- Walking ----------

  function LeafSlot(tables: map<nat, Table>, table: nat, level: nat, page: nat): (r: Option<Slot>)
    ensures r.Some? ==> r.value.table in tables && r.value.index == Index(1, page)
    decreases level
  {
    if table !in tables then None
    else if level <= 1 then Some(Slot(table, Index(1, page)))
    else
      var e := tables[table][Index(level, page)];
      if e.Present() then LeafSlot(tables, e.frame, level - 1, page) else None
  }

  function SlotOf(m: Memory, root: nat, page: nat): (r: Option<Slot>)
    ensures r.Some? ==> r.value.table in m.tables && r.value.index == Index(1, page)
  {
    LeafSlot(m.tables, root, 4, page)
  }

  function EntryAt(m: Memory, s: Slot): Entry {
    if s.table in m.tables && s.index < 512 then m.tables[s.table][s.index] else Entry(0, 0)
  }

  // The translation: what the hardware finds for the page under this root.
  function Walk(m: Memory, root: nat, page: nat): Option<Entry> {
    match SlotOf(m, root, page)
    case None => None
    case Some(s) => if EntryAt(m, s).Present() then Some(EntryAt(m, s)) else None
  }

  // The abstract object: a finite map from pages to entries.
  ghost function Space(m: Memory, root: nat): map<nat, Entry> {
    map p | 0 <= p < PAGES && Walk(m, root, p).Some? :: Walk(m, root, p).value
  }

  // ---------- Rights ----------

  datatype Rights = Rights(write: bool, user: bool, execute: bool)

  // Bits 1, 2 and 63 of an entry.
  function RightsOf(flags: nat): Rights {
    Rights(flags / 2 % 2 == 1, flags / 4 % 2 == 1, flags / 0x8000_0000_0000_0000 % 2 == 0)
  }

  // What the processor grants (section 4.6 of the Intel SDM, volume 3A): what every entry on the way
  // to the page grants.
  function Granted(tables: map<nat, Table>, table: nat, level: nat, page: nat): Option<Rights>
    decreases level
  {
    if table !in tables then None
    else
      var e := tables[table][Index(level, page)];
      if !e.Present() then None
      else if level <= 1 then Some(RightsOf(e.flags))
      else
        match Granted(tables, e.frame, level - 1, page)
        case None => None
        case Some(r) =>
          var own := RightsOf(e.flags);
          Some(Rights(own.write && r.write, own.user && r.user, own.execute && r.execute))
  }

  // An entry that carries a flag word grants what the word asks for.
  lemma CarriesRights(entry: nat, flags: nat)
    requires Carries(entry, flags)
    ensures RightsOf(entry) == RightsOf(flags) && entry % 2 == flags % 2
  {
    LowBits(entry);
    LowBits(flags);
    assert entry / 0x8000_0000_0000_0000 == entry / 0x10_0000_0000_0000 / 2048;
    assert flags / 0x8000_0000_0000_0000 == flags / 0x10_0000_0000_0000 / 2048;
  }

  lemma LowBits(x: nat)
    ensures x % 2 == x % 4096 % 2 && x / 2 % 2 == x % 4096 / 2 % 2 && x / 4 % 2 == x % 4096 / 4 % 2
  {
    var h, l := x / 4096, x % 4096;
    assert x == h * 4096 + l;
    Even(h * 2048, l);
    Even(h * 1024, l / 2);
    Even(h * 512, l / 4);
    assert x / 4 == x / 2 / 2 && l / 4 == l / 2 / 2;
  }

  lemma Even(a: nat, q: nat)
    ensures (a * 2 + q) % 2 == q % 2 && (a * 2 + q) / 2 == a + q / 2
  {
  }

  // ---------- The invariant ----------

  datatype Owner = Shared | Private(root: nat)
  datatype Label = Label(level: nat, owner: Owner, prefix: nat)

  function ChildLabel(l: Label, i: nat): Label {
    Label(if l.level > 0 then l.level - 1 else 0,
          if l.level == 4 && i >= 256 then Shared else l.owner,
          l.prefix * 512 + i)
  }

  ghost predicate Labelled(m: Memory, labels: map<nat, Label>) {
    && labels.Keys == m.tables.Keys
    && forall t :: t in labels ==>
                     && 1 <= labels[t].level <= 4
                     && (labels[t].level == 4 ==> labels[t] == Label(4, Private(t), 0))
  }

  ghost predicate Branch(m: Memory, labels: map<nat, Label>, t: nat, i: nat) {
    t in m.tables && t in labels && i < 512 && labels[t].level >= 2 && m.tables[t][i].Present()
  }

  ghost predicate Leaf(m: Memory, labels: map<nat, Label>, t: nat, i: nat) {
    t in m.tables && t in labels && i < 512 && labels[t].level == 1 && m.tables[t][i].Present()
  }

  ghost predicate Linked(m: Memory, labels: map<nat, Label>) {
    forall t: nat, i: nat :: Branch(m, labels, t, i) ==>
                     var f := m.tables[t][i].frame;
                     f in labels && labels[f] == ChildLabel(labels[t], i) && m.tables[t][i].flags == 7
  }

  ghost predicate LeavesOwned(m: Memory, labels: map<nat, Label>) {
    && (forall t: nat, i: nat :: Leaf(m, labels, t, i) ==>
                         var f := m.tables[t][i].frame;
                         f in m.used && f !in m.tables && f != 0)
    && (forall t: nat, i: nat, u: nat, j: nat ::
          (Leaf(m, labels, t, i) && Leaf(m, labels, u, j) && m.tables[t][i].frame == m.tables[u][j].frame)
          ==> t == u && i == j)
  }

  ghost predicate FramesOwned(m: Memory) {
    && 0 in m.used
    && (forall f :: f in m.used ==> f < m.total)
    && m.tables.Keys <= m.used
    && 0 !in m.tables
  }

  ghost predicate Invariant(m: Memory, labels: map<nat, Label>) {
    Labelled(m, labels) && Linked(m, labels) && LeavesOwned(m, labels) && FramesOwned(m)
  }

  predicate IsRoot(labels: map<nat, Label>, root: nat) {
    root in labels && labels[root].level == 4
  }

  // The tables on the way grant everything, so the page's own entry decides.
  lemma {:induction false} GrantedBelow(m: Memory, labels: map<nat, Label>, t: nat, level: nat, page: nat)
    requires Labelled(m, labels) && Linked(m, labels) && t in labels && labels[t].level == level
    ensures Granted(m.tables, t, level, page) ==
            match LeafSlot(m.tables, t, level, page)
            case None => None
            case Some(s) => if EntryAt(m, s).Present() then Some(RightsOf(EntryAt(m, s).flags)) else None
    decreases level
  {
    hide Index;
    if level > 1 {
      var i := Index(level, page);
      var e := m.tables[t][i];
      if e.Present() {
        assert Branch(m, labels, t, i);
        GrantedBelow(m, labels, e.frame, level - 1, page);
      }
    }
  }

  lemma GrantedIsLeaf(m: Memory, labels: map<nat, Label>, root: nat, page: nat)
    requires Invariant(m, labels) && IsRoot(labels, root)
    ensures Granted(m.tables, root, 4, page) == match Walk(m, root, page) case None => None case Some(e) => Some(RightsOf(e.flags))
  {
    hide Granted, LeafSlot;
    GrantedBelow(m, labels, root, 4, page);
  }

  // One empty top-level table over used frames is an empty address space.
  lemma FreshMemory(total: nat, used: set<nat>, root: nat)
    requires 0 in used && root in used && root != 0 && forall f :: f in used ==> f < total
    ensures var m := Memory(total, used, map[root := EmptyTable()]);
            Invariant(m, map[root := Label(4, Private(root), 0)]) && Space(m, root) == map[]
  {
    var m := Memory(total, used, map[root := EmptyTable()]);
    assert forall p :: 0 <= p < PAGES ==> SlotOf(m, root, p) == None;
  }

  lemma PrefixStep(level: nat, page: nat)
    requires 2 <= level <= 4 && page < PAGES
    ensures Prefix(level - 1, page) == Prefix(level, page) * 512 + Index(level, page)
  {
  }

  // A walk ends in a table whose label is the page's own.
  lemma {:induction false} SlotLabel(m: Memory, labels: map<nat, Label>, t: nat, level: nat, page: nat)
    requires Labelled(m, labels) && Linked(m, labels)
    requires t in labels && labels[t].level == level && page < PAGES
    requires labels[t].prefix == Prefix(level, page)
    ensures var s := LeafSlot(m.tables, t, level, page);
            s.Some? ==> labels[s.value.table] ==
                        Label(1, if level == 4 && page >= UPPER_HALF then Shared else labels[t].owner, Prefix(1, page))
    decreases level
  {
    if level > 1 {
      PrefixStep(level, page);
      var i := Index(level, page);
      if m.tables[t][i].Present() {
        assert Branch(m, labels, t, i);
        SlotLabel(m, labels, m.tables[t][i].frame, level - 1, page);
      }
    }
  }

  // Two walks meet in a slot only if they translate the same page, and then either under the
  // same root or in the shared upper half: the tables are a forest.
  lemma WalksMeet(m: Memory, labels: map<nat, Label>, r1: nat, p1: nat, r2: nat, p2: nat)
    requires Labelled(m, labels) && Linked(m, labels)
    requires IsRoot(labels, r1) && IsRoot(labels, r2) && p1 < PAGES && p2 < PAGES
    requires SlotOf(m, r1, p1).Some? && SlotOf(m, r1, p1) == SlotOf(m, r2, p2)
    ensures p1 == p2 && (r1 == r2 || p1 >= UPPER_HALF)
  {
    SlotLabel(m, labels, r1, 4, p1);
    SlotLabel(m, labels, r2, 4, p2);
  }

  // ---------- Comparing two states of the tables ----------

  // Entry i of table t is as it was, except that leaf slots in `s` are free to differ, and that
  // absent entries above the leaves may now lead to tables that did not exist.
  ghost predicate AgreeAt(m0: Memory, m: Memory, labels: map<nat, Label>, s: set<Slot>, t: nat, i: nat)
    requires t in m.tables && t in labels && i < 512
  {
    var e := m.tables[t][i];
    if labels[t].level == 1 then
      || Slot(t, i) in s
      || (if t in m0.tables && (m0.tables[t][i].Present() || e.Present()) then e == m0.tables[t][i] else !e.Present())
    else if t in m0.tables && m0.tables[t][i].Present() then e == m0.tables[t][i]
    else e.Present() ==> e.frame !in m0.tables
  }

  ghost predicate Agree(m0: Memory, m: Memory, labels: map<nat, Label>, s: set<Slot>) {
    && m0.tables.Keys <= m.tables.Keys == labels.Keys
    && forall t, i :: t in m.tables && 0 <= i < 512 ==> AgreeAt(m0, m, labels, s, t, i)
  }

  ghost predicate Extends(labels0: map<nat, Label>, labels: map<nat, Label>) {
    forall t :: t in labels0 ==> t in labels && labels[t] == labels0[t]
  }

  lemma {:induction false} NewTablesStayNew(m0: Memory, m: Memory, labels: map<nat, Label>, s: set<Slot>,
                                            t: nat, level: nat, page: nat)
    requires Labelled(m, labels) && Linked(m, labels) && Agree(m0, m, labels, s)
    requires t in labels && labels[t].level == level && t !in m0.tables
    ensures var r := LeafSlot(m.tables, t, level, page); r.Some? ==> r.value.table !in m0.tables
    decreases level
  {
    if level > 1 && m.tables[t][Index(level, page)].Present() {
      var i := Index(level, page);
      assert Branch(m, labels, t, i);
      assert AgreeAt(m0, m, labels, s, t, i);
      NewTablesStayNew(m0, m, labels, s, m.tables[t][i].frame, level - 1, page);
    }
  }

  lemma {:induction false} AgreeSlots(m0: Memory, labels0: map<nat, Label>, m: Memory, labels: map<nat, Label>,
                                      s: set<Slot>, t: nat, level: nat, page: nat)
    requires Labelled(m0, labels0) && Linked(m0, labels0)
    requires Labelled(m, labels) && Linked(m, labels) && Extends(labels0, labels)
    requires Agree(m0, m, labels, s)
    requires t in labels0 && labels0[t].level == level
    ensures var r0, r := LeafSlot(m0.tables, t, level, page), LeafSlot(m.tables, t, level, page);
            r == r0 || (r0.None? && r.Some? && r.value.table !in m0.tables)
    decreases level
  {
    if level > 1 {
      var i := Index(level, page);
      assert AgreeAt(m0, m, labels, s, t, i);
      if m.tables[t][i].Present() {
        assert Branch(m, labels, t, i);
        if m0.tables[t][i].Present() {
          assert Branch(m0, labels0, t, i);
          AgreeSlots(m0, labels0, m, labels, s, m.tables[t][i].frame, level - 1, page);
        } else {
          NewTablesStayNew(m0, m, labels, s, m.tables[t][i].frame, level - 1, page);
        }
      }
    }
  }

  // Every walk that does not end in `s` finds what it found before.
  lemma AgreeWalk(m0: Memory, labels0: map<nat, Label>, m: Memory, labels: map<nat, Label>,
                  s: set<Slot>, root: nat, page: nat)
    requires Labelled(m0, labels0) && Linked(m0, labels0)
    requires Labelled(m, labels) && Linked(m, labels) && Extends(labels0, labels)
    requires Agree(m0, m, labels, s)
    requires IsRoot(labels0, root) && page < PAGES
    ensures SlotOf(m0, root, page).Some? ==> SlotOf(m, root, page) == SlotOf(m0, root, page)
    ensures SlotOf(m, root, page).None? || SlotOf(m, root, page).value !in s
            ==> Walk(m, root, page) == Walk(m0, root, page)
  {
    AgreeSlots(m0, labels0, m, labels, s, root, 4, page);
    var r := SlotOf(m, root, page);
    if r.Some? {
      assert labels[r.value.table].level == 1 by { SlotLabel(m, labels, root, 4, page); }
      assert AgreeAt(m0, m, labels, s, r.value.table, r.value.index);
    }
  }

  lemma AgreeTransitive(m0: Memory, labels0: map<nat, Label>, m1: Memory, labels1: map<nat, Label>,
                        m2: Memory, labels2: map<nat, Label>,
                        s1: set<Slot>, s2: set<Slot>, s: set<Slot>)
    requires s1 <= s && s2 <= s
    requires Labelled(m0, labels0) && Labelled(m1, labels1) && Labelled(m2, labels2)
    requires Linked(m0, labels0) && Linked(m1, labels1)
    requires Extends(labels0, labels1) && Extends(labels1, labels2)
    requires Agree(m0, m1, labels1, s1) && Agree(m1, m2, labels2, s2)
    ensures Extends(labels0, labels2) && Agree(m0, m2, labels2, s)
  {
    forall t, i | t in m2.tables && 0 <= i < 512
      ensures AgreeAt(m0, m2, labels2, s, t, i)
    {
      assert AgreeAt(m1, m2, labels2, s2, t, i);
      if t in m1.tables {
        assert AgreeAt(m0, m1, labels1, s1, t, i);
      }
    }
  }

  lemma AgreeSelf(m: Memory, labels: map<nat, Label>)
    requires Invariant(m, labels)
    ensures Agree(m, m, labels, {})
  {
  }

  lemma BranchKept(m0: Memory, m: Memory, labels: map<nat, Label>, t: nat, i: nat)
    requires Agree(m0, m, labels, {}) && t in m0.tables && i < 512 && m0.tables[t][i].Present()
    ensures m.tables[t][i] == m0.tables[t][i]
  {
    assert AgreeAt(m0, m, labels, {}, t, i);
  }
}
