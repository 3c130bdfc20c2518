/**
 The installer's undo log. Each write first saves the bytes it is about to replace; replaying the
 saved bytes newest first gives every position the byte it had before the first write to it.
 */
module UndoLog {
  import opened ByteSeq

  datatype Undo = Undo(data: seq<bv8>, loc: nat)

  predicate Covers(e: Undo, x: nat) {
    e.loc <= x < e.loc + |e.data|
  }

  predicate Fits(log: seq<Undo>, n: nat) {
    forall i :: 0 <= i < |log| ==> log[i].loc + |log[i].data| <= n
  }

  // Replays entries in order.
  function Replay(s: seq<bv8>, entries: seq<Undo>): (r: seq<bv8>)
    requires Fits(entries, |s|)
    ensures |r| == |s|
    decreases |entries|
  {
    if entries == [] then s else Replay(Splice(s, entries[0].loc, entries[0].data), entries[1..])
  }

  function Reversed(log: seq<Undo>): (r: seq<Undo>)
    ensures |r| == |log|
    ensures forall i :: 0 <= i < |log| ==> r[i] == log[|log| - 1 - i]
  {
    seq(|log|, i requires 0 <= i < |log| => log[|log| - 1 - i])
  }

  // The byte that the oldest entry covering x saved, or b if there is none.
  function Oldest(log: seq<Undo>, x: nat, b: bv8): bv8
    decreases |log|
  {
    if log == [] then b
    else if Covers(log[0], x) then log[0].data[x - log[0].loc]
    else Oldest(log[1..], x, b)
  }

  lemma {:induction false} ReplayAt(s: seq<bv8>, log: seq<Undo>, x: nat)
    requires Fits(log, |s|) && x < |s|
    ensures Fits(Reversed(log), |s|)
    ensures Replay(s, Reversed(log))[x] == Oldest(log, x, s[x])
    decreases |log|
  {
    if log != [] {
      ReplayAt(s, log[1..], x);
      assert Reversed(log) == Reversed(log[1..]) + [log[0]];
      ReplayAppend(s, Reversed(log[1..]), log[0]);
    }
  }

  lemma {:induction false} ReplayAppend(s: seq<bv8>, entries: seq<Undo>, e: Undo)
    requires Fits(entries + [e], |s|) && Fits(entries, |s|) && e.loc + |e.data| <= |s|
    ensures Replay(s, entries + [e]) == Splice(Replay(s, entries), e.loc, e.data)
    decreases |entries|
  {
    if entries == [] {
      assert entries + [e] == [e];
    } else {
      assert (entries + [e])[1..] == entries[1..] + [e];
      ReplayAppend(Splice(s, entries[0].loc, entries[0].data), entries[1..], e);
    }
  }

  // The log can still take `contents` back to `original`.
  ghost predicate Undoable(original: seq<bv8>, contents: seq<bv8>, log: seq<Undo>) {
    && |contents| == |original| && Fits(log, |original|)
    && forall x :: 0 <= x < |original| ==> Oldest(log, x, contents[x]) == original[x]
  }

  lemma UndoRestores(original: seq<bv8>, contents: seq<bv8>, log: seq<Undo>)
    requires Undoable(original, contents, log)
    ensures Fits(Reversed(log), |contents|) && Replay(contents, Reversed(log)) == original
  {
    forall x | 0 <= x < |original|
      ensures Fits(Reversed(log), |contents|) && Replay(contents, Reversed(log))[x] == original[x]
    {
      ReplayAt(contents, log, x);
    }
  }

  lemma {:induction false} OldestAppend(log: seq<Undo>, e: Undo, x: nat, b: bv8)
    ensures Oldest(log + [e], x, b) == Oldest(log, x, if Covers(e, x) then e.data[x - e.loc] else b)
    decreases |log|
  {
    if log != [] {
      assert (log + [e])[1..] == log[1..] + [e];
      OldestAppend(log[1..], e, x, b);
    } else {
      assert log + [e] == [e];
    }
  }

  // Saving the old bytes before a write keeps the log good for the contents and for the disk,
  // even though the disk holds only some of the writes so far.
  lemma LogBeforeWrite(original: seq<bv8>, contents: seq<bv8>, disk: seq<bv8>, log: seq<Undo>, loc: nat, data: seq<bv8>)
    requires Undoable(original, contents, log) && Undoable(original, disk, log) && loc + |data| <= |contents|
    ensures var log' := log + [Undo(contents[loc..loc + |data|], loc)];
            Undoable(original, Splice(contents, loc, data), log') && Undoable(original, disk, log')
  {
    var e := Undo(contents[loc..loc + |data|], loc);
    forall x | 0 <= x < |original|
      ensures Oldest(log + [e], x, Splice(contents, loc, data)[x]) == original[x]
      ensures Oldest(log + [e], x, disk[x]) == original[x]
    {
      OldestAppend(log, e, x, Splice(contents, loc, data)[x]);
      OldestAppend(log, e, x, disk[x]);
      assert Covers(e, x) ==> e.data[x - loc] == contents[x];
    }
  }
}
