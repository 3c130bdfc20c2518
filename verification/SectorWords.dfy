/**
 The transfer loops of the disk driver, which move sectors in 16-bit words, against the byte
 sequences the file store works with.
 */
module SectorWords {
  import opened FreeSpace
  import opened FileStore

  const WORDS := 256

  // The two bytes of a word, low byte first.
  function Bytes(word: nat): (r: seq<Byte>)
    requires word < 0x10000
    ensures |r| == 2 && (r[0] as nat) + 256 * (r[1] as nat) == word
  {
    [word % 256, word / 256]
  }

  function Pair(low: Byte, high: Byte): (w: nat)
    ensures w < 0x10000 && Bytes(w) == [low, high]
  {
    low + 256 * high
  }

  // The word at byte 2w of the data: the last one of odd data has a zero for its high byte, and
  // words past the data are zero.
  method WordOf(data: seq<Byte>, w: nat) returns (word: nat)
    ensures word < 0x10000
    ensures forall k :: 0 <= k < 2 ==> Bytes(word)[k] == if 2 * w + k < |data| then data[2 * w + k] else 0
  {
    if 2 * w >= |data| {
      word := Pair(0, 0);
    } else if 2 * w + 1 >= |data| {
      word := Pair(data[2 * w], 0);
    } else {
      word := Pair(data[2 * w], data[2 * w + 1]);
    }
  }

  // What the drive is sent is the data followed by zeros.
  method SendSectors(data: seq<Byte>, count: nat) returns (sent: seq<Byte>)
    ensures sent == Image(data, count)
  {
    sent := [];
    for j := 0 to count
      invariant |sent| == j * SECTOR
      invariant forall k :: 0 <= k < |sent| ==> sent[k] == if k < |data| then data[k] else 0
    {
      for i := 0 to WORDS
        invariant |sent| == 2 * (j * WORDS + i)
        invariant forall k :: 0 <= k < |sent| ==> sent[k] == if k < |data| then data[k] else 0
      {
        var word := WordOf(data, j * WORDS + i);
        sent := sent + Bytes(word);
      }
    }
  }

  // One word of a read: nothing past the size, and for the last word of an odd size a zero behind
  // the byte that was asked for.
  method StoreWord(target: array<Byte>, w: nat, low: Byte, high: Byte, size: nat)
    requires size + size % 2 <= target.Length
    modifies target
    ensures forall k :: 0 <= k < target.Length && k != 2 * w && k != 2 * w + 1 ==> target[k] == old(target[k])
    ensures 2 * w < size ==> target[2 * w] == low && target[2 * w + 1] == if 2 * w + 1 < size then high else 0
    ensures 2 * w >= size ==> target[..] == old(target[..])
  {
    if 2 * w < size {
      if 2 * w + 1 >= size {
        target[2 * w], target[2 * w + 1] := low, 0;
      } else {
        target[2 * w], target[2 * w + 1] := low, high;
      }
    }
  }

  // What byte k of the target becomes when `got` bytes have been moved.
  function Received(sectors: seq<Byte>, was: Byte, k: nat, got: nat, size: nat): Byte
    requires got <= |sectors|
  {
    if k < got && k < size then sectors[k] else if k < got && k == size && size % 2 == 1 then 0 else was
  }

  // The words of one sector, which start at word `first`.
  method ReceiveWords(sectors: seq<Byte>, first: nat, target: array<Byte>, size: nat, ghost was: seq<Byte>)
    requires 2 * (first + WORDS) <= |sectors| && size + size % 2 <= target.Length == |was|
    requires forall k :: 0 <= k < target.Length ==> target[k] == Received(sectors, was[k], k, 2 * first, size)
    modifies target
    ensures forall k :: 0 <= k < target.Length ==> target[k] == Received(sectors, was[k], k, 2 * (first + WORDS), size)
  {
    for i := 0 to WORDS
      invariant forall k :: 0 <= k < target.Length ==> target[k] == Received(sectors, was[k], k, 2 * (first + i), size)
    {
      var w := first + i;
      StoreWord(target, w, sectors[2 * w], sectors[2 * w + 1], size);
    }
  }

  // The target gets the first `size` bytes; for an odd size the byte behind them is zeroed too.
  method ReceiveSectors(sectors: seq<Byte>, count: nat, target: array<Byte>, size: nat)
    requires |sectors| == count * SECTOR && size + size % 2 <= target.Length
    modifies target
    ensures forall k :: 0 <= k < target.Length ==> target[k] == Received(sectors, old(target[k]), k, |sectors|, size)
  {
    hide Received;
    ghost var was := target[..];
    NothingReceived(sectors, was, size);
    for j := 0 to count
      invariant 2 * (j * WORDS) <= |sectors|
      invariant forall k :: 0 <= k < target.Length ==> target[k] == Received(sectors, was[k], k, 2 * (j * WORDS), size)
    {
      ReceiveWords(sectors, j * WORDS, target, size, was);
    }
  }

  lemma NothingReceived(sectors: seq<Byte>, was: seq<Byte>, size: nat)
    ensures forall k :: 0 <= k < |was| ==> was[k] == Received(sectors, was[k], k, 0, size)
  {
  }

  // A read of a file's sectors fills the target with its bytes, and overruns it exactly when the size
  // is odd.
  lemma ReceivedIsRead(disk: seq<Byte>, sectors: nat, lba: nat, size: nat, was: seq<Byte>)
    requires |disk| == sectors * SECTOR && 1 <= Count(size) <= MAX_SECTORS && lba + Count(size) < sectors
    requires |was| >= size + size % 2
    ensures var s := disk[lba * SECTOR..(lba + Count(size)) * SECTOR];
            && |s| == Count(size) * SECTOR && size <= |s|
            && (forall k :: 0 <= k < size ==> Received(s, was[k], k, |s|, size) == ReadSectors(disk, sectors, lba, size)[k])
            && (forall k :: size <= k < |was| ==> Received(s, was[k], k, |s|, size) == if k == size && size % 2 == 1 then 0 else was[k])
  {
  }

  // Reading a file of one byte into a one-byte target zeroes the byte behind the target.
  lemma OddRead()
    ensures var s := Image([5], 1); Received(s, 7, 0, |s|, 1) == 5 && Received(s, 7, 1, |s|, 1) == 0
  {
  }
}
