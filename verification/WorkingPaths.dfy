/**
 The shell's normaliser: `.` and `..` taken out of an absolute path, in place, with a stack of at
 most 64 components.
 */
module WorkingPaths {
  import opened FileStore
  import opened Paths

  const DEPTH := 64
  const HERE: Path := [DOT]
  const UP: Path := [DOT, DOT]

  // One component on top of the stack of those kept so far.
  function Enter(stack: seq<Path>, part: Path): (r: seq<Path>) {
    if part == UP then (if stack == [] then [] else stack[..|stack| - 1])
    else if part == HERE || |stack| >= DEPTH then stack
    else stack + [part]
  }

  function Walk(stack: seq<Path>, parts: seq<Path>): (r: seq<Path>)
    decreases |parts|
  {
    if parts == [] then stack else Walk(Enter(stack, parts[0]), parts[1..])
  }

  function Normal(path: Path): (r: Path) {
    if |path| <= 1 || |path| > MAX_LENGTH then path else Join(Walk([], Tokens(path)))
  }

  // What a walk leaves: proper components other than `.` and `..`, at most 64 of them.
  predicate Settled(stack: seq<Path>) {
    && Components(stack) && |stack| <= DEPTH
    && forall i :: 0 <= i < |stack| ==> stack[i] != HERE && stack[i] != UP
  }

  lemma {:induction false} WalkSettles(stack: seq<Path>, parts: seq<Path>)
    requires Settled(stack) && Components(parts)
    ensures Settled(Walk(stack, parts))
    decreases |parts|
  {
    if parts != [] {
      WalkSettles(Enter(stack, parts[0]), parts[1..]);
    }
  }

  // A settled list is walked as it stands.
  lemma {:induction false} WalkSettled(stack: seq<Path>, parts: seq<Path>)
    requires Settled(stack + parts)
    ensures Walk(stack, parts) == stack + parts
    decreases |parts|
  {
    hide Components;
    if parts == [] {
      assert stack + parts == stack;
    } else {
      assert (stack + parts)[|stack|] == parts[0];
      assert stack + [parts[0]] + parts[1..] == stack + parts;
      WalkSettled(stack + [parts[0]], parts[1..]);
    }
  }

  lemma {:induction false} WalkAppend(stack: seq<Path>, parts: seq<Path>, more: seq<Path>)
    ensures Walk(stack, parts + more) == Walk(Walk(stack, parts), more)
    decreases |parts|
  {
    if parts == [] {
      assert parts + more == more;
    } else {
      assert (parts + more)[1..] == parts[1..] + more;
      WalkAppend(Enter(stack, parts[0]), parts[1..], more);
    }
  }

  // ---------- What each kind of component does ----------

  // A name other than `.` and `..`.
  predicate Name(p: Path) {
    p != [46] && p != [46, 46]
  }

  // A name is kept on top of those kept so far, unless there are 64 already: then it is dropped.
  lemma WalkName(stack: seq<Path>, p: Path, rest: seq<Path>)
    requires Name(p)
    ensures Walk(stack, [p] + rest) == Walk(if |stack| < 64 then stack + [p] else stack, rest)
  {
    assert ([p] + rest)[1..] == rest;
  }

  lemma WalkHere(stack: seq<Path>, rest: seq<Path>)
    ensures Walk(stack, [[46]] + rest) == Walk(stack, rest)
  {
    assert ([[46]] + rest)[1..] == rest;
  }

  // `..` takes back the last one kept; at the root it does nothing.
  lemma WalkUp(stack: seq<Path>, rest: seq<Path>)
    ensures Walk([], [[46, 46]] + rest) == Walk([], rest)
    ensures forall p :: Walk(stack + [p], [[46, 46]] + rest) == Walk(stack, rest)
  {
    assert ([[46, 46]] + rest)[1..] == rest;
    assert forall p :: (stack + [p])[..|stack|] == stack;
  }

  // Down and up again is no move at all, exactly when there is still room to go down; on a full stack
  // the name is dropped and `..` takes back the 64th.
  lemma WalkDownUp(stack: seq<Path>, p: Path, rest: seq<Path>)
    requires Name(p) && |stack| <= 64
    ensures Walk(stack, [p, [46, 46]] + rest) == Walk(if |stack| < 64 then stack else stack[..63], rest)
  {
    hide Walk;
    var up := [[46, 46]] + rest;
    assert [p, [46, 46]] + rest == [p] + up;
    WalkName(stack, p, up);
    WalkUp(stack, rest);
    if |stack| == 64 {
      WalkUp(stack[..63], rest);
      assert stack[..63] + [stack[63]] == stack;
    }
  }

  // ---------- Lengths ----------

  lemma {:induction false} BodyAppend(parts: seq<Path>, more: seq<Path>)
    ensures Body(parts + more) == Body(parts) + Body(more)
  {
    if parts == [] {
      assert parts + more == more;
    } else {
      assert (parts + more)[1..] == parts[1..] + more;
      BodyAppend(parts[1..], more);
    }
  }

  lemma EnterLength(stack: seq<Path>, part: Path)
    ensures |Body(Enter(stack, part))| <= |Body(stack)| + |Body([part])|
  {
    BodyAppend(stack, [part]);
    if stack != [] {
      BodyAppend(stack[..|stack| - 1], [stack[|stack| - 1]]);
      assert stack[..|stack| - 1] + [stack[|stack| - 1]] == stack;
    }
  }

  lemma {:induction false} WalkLength(stack: seq<Path>, parts: seq<Path>)
    ensures |Body(Walk(stack, parts))| <= |Body(stack)| + |Body(parts)|
    decreases |parts|
  {
    if parts != [] {
      EnterLength(stack, parts[0]);
      BodyAppend([parts[0]], parts[1..]);
      assert [parts[0]] + parts[1..] == parts;
      WalkLength(Enter(stack, parts[0]), parts[1..]);
    }
  }

  // The parts of a text, each with a slash, take no more room than the text with a slash before it.
  lemma {:induction false} TokensLength(s: Path)
    ensures |Body(Tokens(s))| <= |s| + if s == [] || s[0] == SLASH then 0 else 1
    decreases |s|
  {
    if s != [] {
      if s[0] == SLASH {
        TokensLength(s[1..]);
      } else {
        var n := Stretch(s);
        assert Tokens(s)[1..] == Tokens(s[n..]);
        TokensLength(s[n..]);
      }
    }
  }

  // ---------- The normal form ----------

  lemma NormalParts(path: Path)
    requires 1 < |path| <= MAX_LENGTH
    ensures Tokens(Normal(path)) == Walk([], Tokens(path)) && Settled(Walk([], Tokens(path)))
  {
    WalkSettles([], Tokens(path));
    SplitJoin(Walk([], Tokens(path)));
  }

  // An absolute path never grows, so the result fits the buffer it came in.
  lemma NeverLonger(path: Path)
    requires path != [] && path[0] == SLASH
    ensures |Normal(path)| <= |path|
  {
    TokensLength(path);
    WalkLength([], Tokens(path));
  }

  lemma NormalIdempotent(path: Path)
    requires path != [] && path[0] == SLASH
    ensures Normal(Normal(path)) == Normal(path)
  {
    if 1 < |path| <= MAX_LENGTH {
      NeverLonger(path);
      NormalParts(path);
      var parts := Walk([], Tokens(path));
      assert [] + parts == parts;
      WalkSettled([], parts);
    }
  }

  lemma NormalWalk(dir: Path)
    requires dir != [] && |dir| <= MAX_LENGTH
    ensures Walk([], Tokens(Normal(dir))) == Walk([], Tokens(dir))
  {
    if |dir| > 1 {
      NormalParts(dir);
      var parts := Walk([], Tokens(dir));
      assert [] + parts == parts;
      WalkSettled([], parts);
    }
  }

  // Going to a place and then following a path from there is following both together.
  lemma NormalFollows(dir: Path, rest: Path)
    requires dir != [] && dir[0] == SLASH && |dir + [SLASH] + rest| <= MAX_LENGTH
    ensures Normal(Normal(dir) + [SLASH] + rest) == Normal(dir + [SLASH] + rest)
  {
    NeverLonger(dir);
    NormalWalk(dir);
    var near := Normal(dir);
    assert near != [];
    FollowParts(dir, rest);
    FollowParts(near, rest);
  }

  lemma FollowParts(dir: Path, rest: Path)
    requires dir != [] && |dir + [SLASH] + rest| <= MAX_LENGTH
    ensures Normal(dir + [SLASH] + rest) == Join(Walk(Walk([], Tokens(dir)), Tokens(rest)))
  {
    hide Walk, Tokens, Join;
    WalkParts(dir, rest);
  }

  lemma {:induction false} TokensMeet(s: Path, t: Path)
    ensures Tokens(s + [SLASH] + t) == Tokens(s) + Tokens(t)
    decreases |s|
  {
    hide Components, Stretch;
    var u := s + [SLASH] + t;
    if s == [] {
      assert u[1..] == t;
    } else if s[0] == SLASH {
      assert u[1..] == s[1..] + [SLASH] + t;
      TokensMeet(s[1..], t);
    } else {
      var n := Stretch(s);
      StretchEnds(s);
      StretchIs(s[..n], s[n..]);
      StretchIs(s[..n], s[n..] + [SLASH] + t);
      assert s[..n] + s[n..] == s && s[..n] + (s[n..] + [SLASH] + t) == u;
      assert u[..n] == s[..n] && u[n..] == s[n..] + [SLASH] + t;
      TokensMeet(s[n..], t);
    }
  }

  lemma StretchEnds(s: Path)
    requires s != [] && s[0] != SLASH
    ensures 0 < Stretch(s) <= |s| && SLASH !in s[..Stretch(s)]
    ensures Stretch(s) < |s| ==> s[Stretch(s)] == SLASH
  {
  }

  lemma {:induction false} OneToken(p: Path)
    requires Component(p)
    ensures Tokens(p) == [p]
  {
    assert p[0] in p;
    StretchIs(p, []);
    assert p + [] == p && p[..|p|] == p;
    assert Tokens(p[|p|..]) == [];
  }

  // The components of a normal path, and the one the same walk goes on from.
  lemma Kept(dir: Path)
    requires dir != [] && dir[0] == SLASH && |dir| <= MAX_LENGTH
    ensures Tokens(Normal(dir)) == Walk([], Tokens(dir)) && Settled(Tokens(Normal(dir)))
    ensures Normal(dir) == Join(Tokens(Normal(dir)))
  {
    if |dir| > 1 {
      NormalParts(dir);
    } else {
      assert dir == [SLASH] && Tokens(dir) == [];
    }
  }

  // One more component after a directory: `.` stays there, `..` leaves off its last component, the
  // root's parent is the root, and a name is added at the end, the 65th excepted.
  lemma NormalEnters(dir: Path, p: Path)
    requires dir != [] && dir[0] == 47 && |dir + [47] + p| <= MAX_LENGTH && Component(p)
    ensures var kept := Tokens(Normal(dir));
            Tokens(Normal(dir + [47] + p)) ==
            if p == [46] then kept
            else if p == [46, 46] then if kept == [] then [] else kept[..|kept| - 1]
            else if |kept| < 64 then kept + [p]
            else kept
  {
    hide Walk, Join, Tokens, Normal;
    var kept := Tokens(Normal(dir));
    Kept(dir);
    Kept(dir + [SLASH] + p);
    OneToken(p);
    WalkParts(dir, p);
    assert [p] + [] == [p];
    WalkNone(kept);
    if p == [46] {
      WalkHere(kept, []);
    } else if p == [46, 46] {
      WalkUp([], []);
      WalkNone([]);
      if kept != [] {
        var low := kept[..|kept| - 1];
        WalkUp(low, []);
        WalkNone(low);
        assert low + [kept[|kept| - 1]] == kept;
      }
    } else {
      WalkName(kept, p, []);
      WalkNone(kept + [p]);
    }
  }

  lemma WalkNone(stack: seq<Path>)
    ensures Walk(stack, []) == stack
  {
  }

  lemma WalkParts(dir: Path, rest: Path)
    ensures Walk([], Tokens(dir + [SLASH] + rest)) == Walk(Walk([], Tokens(dir)), Tokens(rest))
  {
    hide Walk, Tokens;
    TokensMeet(dir, rest);
    WalkAppend([], Tokens(dir), Tokens(rest));
  }

  // Into a directory and back out is where one was, exactly when the directory is not 64 deep.
  lemma NormalDownUp(dir: Path, p: Path)
    requires dir != [] && dir[0] == 47 && Component(p) && p != [46] && p != [46, 46]
    requires |dir + [47] + p + [47, 46, 46]| <= MAX_LENGTH
    ensures Normal(dir + [47] + p + [47, 46, 46]) == Normal(dir) <==> |Tokens(Normal(dir))| < 64
  {
    hide Join, Tokens, Normal, Components;
    var kept, down := Tokens(Normal(dir)), dir + [47] + p;
    NormalEnters(dir, p);
    NormalEnters(down, [46, 46]);
    var there := down + [47, 46, 46];
    assert there == down + [47] + [46, 46];
    Kept(dir);
    Kept(there);
    assert |kept| < 64 ==> (kept + [p])[..|kept|] == kept;
  }

  // Normal paths are valid as soon as their names are short enough.
  lemma NormalIsValid(path: Path)
    requires path != [] && path[0] == SLASH && |path| <= MAX_LENGTH && Short(Tokens(path))
    ensures ValidPath(Normal(path))
  {
    if |path| == 1 {
      assert path == Join([]) && Components([]) && Short([]);
    } else {
      NeverLonger(path);
      NormalParts(path);
      WalkShort([], Tokens(path));
      var parts := Walk([], Tokens(path));
      assert Normal(path) == Join(parts);
    }
  }

  lemma {:induction false} WalkShort(stack: seq<Path>, parts: seq<Path>)
    requires Short(stack) && Short(parts)
    ensures Short(Walk(stack, parts))
    decreases |parts|
  {
    if parts != [] {
      WalkShort(Enter(stack, parts[0]), parts[1..]);
    }
  }

  // ---------- In place ----------

  // Copies a text and its end mark behind the first n bytes.
  method Append(buffer: array<Byte>, n: nat, text: Path)
    requires n + |text| < buffer.Length
    modifies buffer
    ensures buffer[..n + |text|] == old(buffer[..n]) + text && buffer[n + |text|] == 0
  {
    var i := 0;
    while i < |text|
      invariant i <= |text| && buffer[..n] == old(buffer[..n]) && buffer[n..n + i] == text[..i]
    {
      buffer[n + i] := text[i];
      i := i + 1;
    }
    buffer[n + |text|] := 0;
    assert buffer[..n + |text|] == buffer[..n] + buffer[n..n + |text|];
  }

  method Collect(path: Path) returns (stack: array<Path>, top: nat)
    ensures stack.Length == DEPTH && top <= DEPTH && fresh(stack)
    ensures stack[..top] == Walk([], Tokens(path))
  {
    hide Tokens;
    stack := new Path[DEPTH];
    top := 0;
    var i := 0;
    assert path[0..] == path;
    while i < |path|
      invariant i <= |path| && top <= DEPTH
      invariant Walk(stack[..top], Tokens(path[i..])) == Walk([], Tokens(path))
    {
      i := SkipSlashes(path, i);
      if i == |path| { break; }
      var start := i;
      i := ScanToken(path, i);
      var part := path[start..i];
      assert ([part] + Tokens(path[i..]))[1..] == Tokens(path[i..]);
      ghost var before := stack[..top];
      if part == UP {
        if top > 0 { top := top - 1; }
      } else if part != HERE {
        if top < DEPTH {
          stack[top] := part;
          top := top + 1;
        }
      }
      assert stack[..top] == Enter(before, part);
    }
    NoTokens(path[i..]);
  }

  lemma BodyStep(parts: seq<Path>, j: nat)
    requires j < |parts|
    ensures Body(parts[..j + 1]) == Body(parts[..j]) + [SLASH] + parts[j]
    ensures j + 1 < |parts| ==> |Body(parts[..j + 1])| < |Body(parts)|
    ensures j + 1 == |parts| ==> parts[..j + 1] == parts
  {
    var rest := parts[j + 1..];
    BodyAppend(parts[..j], [parts[j]]);
    assert Body([parts[j]]) == [SLASH] + parts[j] + Body([]);
    assert parts[..j + 1] == parts[..j] + [parts[j]];
    BodyAppend(parts[..j + 1], rest);
    assert parts == parts[..j + 1] + rest;
  }

  // The kept components, joined, over the text they came from.
  method Rebuild(buffer: array<Byte>, stack: array<Path>, top: nat) returns (n: nat)
    requires top <= stack.Length && 1 < buffer.Length && |Join(stack[..top])| < buffer.Length
    modifies buffer
    ensures n < buffer.Length && buffer[n] == 0 && buffer[..n] == Join(old(stack[..top]))
  {
    hide Body;
    ghost var parts := stack[..top];
    buffer[0], buffer[1] := SLASH, 0;
    n := 1;
    var j := 0;
    assert Body(parts[..0]) == [] by { NoBody(); }
    while j < top
      invariant j <= top && n < buffer.Length && stack[..top] == parts && buffer[n] == 0
      invariant buffer[..n] == if j < top then Body(parts[..j]) + [SLASH] else Join(parts)
    {
      BodyStep(parts, j);
      Append(buffer, n, stack[j]);
      n := n + |stack[j]|;
      if j < top - 1 {
        Append(buffer, n, [SLASH]);
        n := n + 1;
      }
      j := j + 1;
    }
  }

  lemma NoBody()
    ensures Body([]) == []
  {
  }

  // Rewrites the text in the buffer to its normal form and returns the new length.
  method ParsePath(buffer: array<Byte>, len: nat) returns (n: nat)
    requires len < buffer.Length && buffer[len] == 0
    requires len > 0 ==> buffer[0] == SLASH
    modifies buffer
    ensures n <= len && buffer[n] == 0
    ensures buffer[..n] == Normal(old(buffer[..len]))
  {
    hide Walk, Join, Tokens;
    if len <= 1 || len > MAX_LENGTH {
      return len;
    }
    var stack, top := Collect(buffer[..len]);
    NeverLonger(buffer[..len]);
    n := Rebuild(buffer, stack, top);
    assert |buffer[..n]| == n;
  }
}
