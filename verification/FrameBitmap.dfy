/**
 The physical frame bitmap of pmm.c: one bit a frame, eight frames a byte.
 */
module FrameBitmap {
  function Mask(k: nat): bv8
    requires k < 8
  {
    (1 as bv8) << k
  }

  predicate TestBit(b: bv8, k: nat)
    requires k < 8
  {
    (b >> k) & 1 == 1
  }

  function WithBit(b: bv8, k: nat, on: bool): (r: bv8)
    requires k < 8
  {
    if on then b | Mask(k) else b & !Mask(k)
  }

  // Bit k of a byte is worth 2^k.
  lemma BitWorth(b: bv8, k: nat)
    requires k < 8
    ensures TestBit(b, k) <==> b & [1, 2, 4, 8, 16, 32, 64, 128][k] != 0
  {
  }

  lemma BitSet(b: bv8, k: nat, j: nat)
    requires k < 8 && j < 8
    ensures TestBit(b | Mask(k), j) == (j == k || TestBit(b, j))
  {
  }

  lemma BitCleared(b: bv8, k: nat, j: nat)
    requires k < 8 && j < 8
    ensures TestBit(b & !Mask(k), j) == (j != k && TestBit(b, j))
  {
  }

  lemma BitWritten(b: bv8, k: nat, on: bool, j: nat)
    requires k < 8 && j < 8
    ensures TestBit(WithBit(b, k, on), j) == (if j == k then on else TestBit(b, j))
  {
    hide TestBit, Mask;
    BitSet(b, k, j);
    BitCleared(b, k, j);
  }

  predicate Frame(bytes: seq<bv8>, f: nat)
    requires f / 8 < |bytes|
  {
    TestBit(bytes[f / 8], f % 8)
  }

  function UsedFrames(bytes: seq<bv8>, total: nat): (used: set<nat>)
    requires |bytes| == (total + 7) / 8
    ensures forall f :: f in used <==> 0 <= f < total && Frame(bytes, f)
  {
    set f: nat | f < total && Frame(bytes, f)
  }

  // Writing one byte changes one frame's bit: the other seven in the byte are kept.
  lemma FrameWritten(bytes: seq<bv8>, total: nat, f: nat, on: bool)
    requires |bytes| == (total + 7) / 8 && f < total
    ensures UsedFrames(bytes[f / 8 := WithBit(bytes[f / 8], f % 8, on)], total)
            == if on then UsedFrames(bytes, total) + {f} else UsedFrames(bytes, total) - {f}
  {
    hide TestBit, WithBit;
    var bytes' := bytes[f / 8 := WithBit(bytes[f / 8], f % 8, on)];
    forall g: nat | g < total
      ensures Frame(bytes', g) == if g == f then on else Frame(bytes, g)
    {
      BitWritten(bytes[f / 8], f % 8, on, g % 8);
    }
  }
}
