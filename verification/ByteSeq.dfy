module ByteSeq {
  // s with `data` in place from `loc` on.
  function Splice<T>(s: seq<T>, loc: nat, data: seq<T>): (r: seq<T>)
    requires loc + |data| <= |s|
    ensures |r| == |s|
    ensures forall x :: 0 <= x < |s| ==> r[x] == if loc <= x < loc + |data| then data[x - loc] else s[x]
  {
    s[..loc] + data + s[loc + |data|..]
  }
}
