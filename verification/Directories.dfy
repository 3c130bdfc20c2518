/**
 Directory listings as file contents: 64-byte records of a 60-byte, zero-terminated name and a
 little-endian 32-bit slot number.
 */
module Directories {
  import opened FileStore

  const NAME_FIELD := 60
  const RECORD := 64

  datatype DirEntry = DirEntry(name: seq<Byte>, slot: nat)

  // A name that survives being stored: it leaves room for its terminator.
  predicate Storable(name: seq<Byte>) {
    |name| < NAME_FIELD && forall i :: 0 <= i < |name| ==> name[i] != 0
  }

  predicate Recordable(e: DirEntry) {
    Storable(e.name) && e.slot < 0x1_0000_0000
  }

  function Zeros(n: nat): (r: seq<Byte>)
    ensures |r| == n && forall i :: 0 <= i < n ==> r[i] == 0
  {
    seq(n, _ => 0)
  }

  function Word(x: nat): (r: seq<Byte>)
    requires x < 0x1_0000_0000
    ensures |r| == 4
  {
    [x % 256, x / 0x100 % 256, x / 0x10000 % 256, x / 0x1000000]
  }

  function UnWord(b: seq<Byte>): nat
    requires |b| == 4
  {
    var b0: nat, b1: nat, b2: nat, b3: nat := b[0], b[1], b[2], b[3];
    b0 + b1 * 0x100 + b2 * 0x10000 + b3 * 0x1000000
  }

  lemma WordRoundTrip(x: nat)
    requires x < 0x1_0000_0000
    ensures UnWord(Word(x)) == x
  {
  }

  // What strlen sees of a field.
  function Terminated(b: seq<Byte>): (r: seq<Byte>)
    ensures |r| <= |b|
  {
    if b == [] || b[0] == 0 then [] else [b[0]] + Terminated(b[1..])
  }

  lemma {:induction false} TerminatedRoundTrip(name: seq<Byte>, n: nat)
    requires forall i :: 0 <= i < |name| ==> name[i] != 0
    requires n > 0
    ensures Terminated(name + Zeros(n)) == name
  {
    if name != [] {
      assert (name + Zeros(n))[1..] == name[1..] + Zeros(n);
      TerminatedRoundTrip(name[1..], n);
    } else {
      assert name + Zeros(n) == Zeros(n);
    }
  }

  function Encode(e: DirEntry): (r: seq<Byte>)
    requires Recordable(e)
    ensures |r| == RECORD
  {
    e.name + Zeros(NAME_FIELD - |e.name|) + Word(e.slot)
  }

  function Decode(b: seq<Byte>): DirEntry
    requires |b| == RECORD
  {
    DirEntry(Terminated(b[..NAME_FIELD]), UnWord(b[NAME_FIELD..]))
  }

  // Where things stand in a record: the name, zeros up to byte 60, the slot in the four bytes behind
  // it, lowest byte first.
  lemma RecordLayout(e: DirEntry)
    requires Recordable(e)
    ensures var r := Encode(e);
            && |r| == 64 && r[..|e.name|] == e.name && (forall k :: |e.name| <= k < 60 ==> r[k] == 0)
            && var b0: nat, b1: nat, b2: nat, b3: nat := r[60], r[61], r[62], r[63];
               b0 + 0x100 * b1 + 0x10000 * b2 + 0x1000000 * b3 == e.slot
  {
    var x := e.slot;
    assert Encode(e)[60..] == Word(x);
    assert Encode(e)[60] == Word(x)[0] && Encode(e)[61] == Word(x)[1] && Encode(e)[62] == Word(x)[2] && Encode(e)[63] == Word(x)[3];
    assert x / 0x10000 == x / 0x100 / 0x100 && x / 0x1000000 == x / 0x10000 / 0x100;
  }

  lemma RecordRoundTrip(e: DirEntry)
    requires Recordable(e)
    ensures Decode(Encode(e)) == e
  {
    var b := Encode(e);
    assert b[..NAME_FIELD] == e.name + Zeros(NAME_FIELD - |e.name|) && b[NAME_FIELD..] == Word(e.slot);
    TerminatedRoundTrip(e.name, NAME_FIELD - |e.name|);
    WordRoundTrip(e.slot);
  }

  function EncodeAll(l: seq<DirEntry>): (r: seq<Byte>)
    requires forall i :: 0 <= i < |l| ==> Recordable(l[i])
    ensures |r| == RECORD * |l|
  {
    if l == [] then [] else Encode(l[0]) + EncodeAll(l[1..])
  }

  // size / 64 records; a partial record at the end is not looked at.
  function DecodeAll(b: seq<Byte>): (r: seq<DirEntry>)
    ensures |r| == |b| / RECORD
  {
    if |b| < RECORD then [] else [Decode(b[..RECORD])] + DecodeAll(b[RECORD..])
  }

  lemma {:induction false} ListingRoundTrip(l: seq<DirEntry>)
    requires forall i :: 0 <= i < |l| ==> Recordable(l[i])
    ensures DecodeAll(EncodeAll(l)) == l
  {
    hide Encode, Decode, Recordable;
    if l != [] {
      var b := EncodeAll(l);
      assert b[..RECORD] == Encode(l[0]) && b[RECORD..] == EncodeAll(l[1..]);
      RecordRoundTrip(l[0]);
      ListingRoundTrip(l[1..]);
    }
  }

  // Appending a record to whole records appends an entry to the listing.
  lemma {:induction false} DecodeAppend(b: seq<Byte>, e: DirEntry)
    requires |b| % RECORD == 0 && Recordable(e)
    ensures DecodeAll(b + Encode(e)) == DecodeAll(b) + [e]
  {
    hide Encode, Decode, Recordable;
    var c := b + Encode(e);
    if b == [] {
      assert c[..RECORD] == Encode(e) && c[RECORD..] == [];
      RecordRoundTrip(e);
      assert DecodeAll(c[RECORD..]) == [];
    } else {
      assert c[..RECORD] == b[..RECORD] && c[RECORD..] == b[RECORD..] + Encode(e);
      DecodeAppend(b[RECORD..], e);
    }
  }

  // The name kept by the directory: cut to 59 characters.
  function Stored(name: seq<Byte>): seq<Byte> {
    if |name| < NAME_FIELD then name else name[..NAME_FIELD - 1]
  }

  function Kept(e: DirEntry, slot: nat): seq<DirEntry> {
    if e.slot == slot then [] else [e]
  }

  // The entries of a listing that do not name the slot.
  function Dropped(l: seq<DirEntry>, slot: nat): (r: seq<DirEntry>) {
    if l == [] then [] else Kept(l[0], slot) + Dropped(l[1..], slot)
  }

  // Dropping keeps the order: where each kept entry comes from.
  lemma {:induction false} DroppedFrom(l: seq<DirEntry>, slot: nat) returns (from: seq<nat>)
    ensures |from| == |Dropped(l, slot)|
    ensures forall k :: 0 <= k < |from| ==> from[k] < |l| && Dropped(l, slot)[k] == l[from[k]] && l[from[k]].slot != slot
    ensures forall a, b :: 0 <= a < b < |from| ==> from[a] < from[b]
  {
    if l == [] { return []; }
    var rest := DroppedFrom(l[1..], slot);
    from := Shifted(rest, l[0].slot != slot);
    var r, all := Dropped(l[1..], slot), Dropped(l, slot);
    assert all == Kept(l[0], slot) + r;
    forall k | 0 <= k < |from|
      ensures from[k] < |l| && all[k] == l[from[k]] && l[from[k]].slot != slot
    {
      var q := if l[0].slot != slot then k - 1 else k;
      if q >= 0 { assert r[q] == l[1..][rest[q]]; }
    }
  }

  // And it keeps every entry that does not name the slot, as often as it is there.
  lemma {:induction false} DroppedKeeps(l: seq<DirEntry>, slot: nat, e: DirEntry)
    ensures multiset(Dropped(l, slot))[e] == if e.slot == slot then 0 else multiset(l)[e]
  {
    if l != [] {
      DroppedKeeps(l[1..], slot, e);
      assert l == [l[0]] + l[1..];
    }
  }

  ghost function Shifted(s: seq<nat>, lead: bool): (r: seq<nat>)
    ensures |r| == |s| + if lead then 1 else 0
    ensures forall k :: 0 <= k < |r| ==> r[k] == if !lead then s[k] + 1 else if k == 0 then 0 else s[k - 1] + 1
  {
    (if lead then [0] else []) + seq(|s|, k requires 0 <= k < |s| => s[k] + 1)
  }

  // Exactly the one record is gone when the slot was listed once, so the count is one less.
  lemma {:induction false} DroppedCount(l: seq<DirEntry>, slot: nat, k: nat)
    requires k < |l| && l[k].slot == slot && forall j :: 0 <= j < |l| && j != k ==> l[j].slot != slot
    ensures Dropped(l, slot) == l[..k] + l[k + 1..] && |Dropped(l, slot)| == |l| - 1
  {
    if k == 0 {
      DroppedNone(l[1..], slot);
    } else {
      DroppedCount(l[1..], slot, k - 1);
      assert l[..k] + l[k + 1..] == [l[0]] + (l[1..][..k - 1] + l[1..][k..]);
    }
  }

  lemma {:induction false} DroppedNone(l: seq<DirEntry>, slot: nat)
    requires forall j :: 0 <= j < |l| ==> l[j].slot != slot
    ensures Dropped(l, slot) == l
  {
    if l != [] { DroppedNone(l[1..], slot); }
  }
}
