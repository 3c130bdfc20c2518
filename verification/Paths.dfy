/**
 Paths as sequences of bytes: splitting, joining, the validity test of the filesystem and the
 normaliser of the shell. A path of more than 1001 bytes has no length: strlen gives up.
 */
module Paths {
  import opened FileStore

  const SLASH: Byte := 47
  const DOT: Byte := 46
  const MAX_LENGTH := 1001
  const MAX_NAME := 60

  type Path = seq<Byte>

  predicate Component(p: Path) {
    p != [] && SLASH !in p
  }

  predicate Components(parts: seq<Path>) {
    forall i :: 0 <= i < |parts| ==> Component(parts[i])
  }

  predicate Short(parts: seq<Path>) {
    forall i :: 0 <= i < |parts| ==> |parts[i]| <= MAX_NAME
  }

  // ---------- Joining and splitting ----------

  // Every part with a slash before it.
  function Body(parts: seq<Path>): (r: Path) {
    if parts == [] then [] else [SLASH] + parts[0] + Body(parts[1..])
  }

  function Join(parts: seq<Path>): (r: Path) {
    if parts == [] then [SLASH] else Body(parts)
  }

  // Length of the leading stretch without a slash.
  function Stretch(s: Path): (n: nat)
    ensures n <= |s| && SLASH !in s[..n] && (n < |s| ==> s[n] == SLASH)
  {
    if s == [] || s[0] == SLASH then 0
    else
      var n := Stretch(s[1..]);
      assert s[..n + 1] == [s[0]] + s[1..][..n];
      n + 1
  }

  function Tokens(s: Path): (r: seq<Path>)
    ensures Components(r)
    decreases |s|
  {
    if s == [] then []
    else if s[0] == SLASH then Tokens(s[1..])
    else
      var n := Stretch(s);
      assert n > 0;
      [s[..n]] + Tokens(s[n..])
  }

  lemma {:induction false} StretchIs(part: Path, rest: Path)
    requires SLASH !in part && (rest == [] || rest[0] == SLASH)
    ensures Stretch(part + rest) == |part|
  {
    if part == [] {
      assert part + rest == rest;
    } else {
      assert (part + rest)[1..] == part[1..] + rest;
      StretchIs(part[1..], rest);
    }
  }

  lemma TokenThen(part: Path, rest: Path)
    requires Component(part) && (rest == [] || rest[0] == SLASH)
    ensures Tokens([SLASH] + part + rest) == [part] + Tokens(rest)
  {
    hide Stretch, Components;
    var s := part + rest;
    StretchIs(part, rest);
    assert s[0] == part[0] && s[0] in part;
    assert s[..|part|] == part && s[|part|..] == rest;
    assert Tokens(s) == [part] + Tokens(rest);
    assert ([SLASH] + part + rest)[1..] == s;
  }

  lemma {:induction false} TokensOfBody(parts: seq<Path>, rest: Path)
    requires Components(parts) && (rest == [] || rest[0] == SLASH)
    ensures Tokens(Body(parts) + rest) == parts + Tokens(rest)
  {
    hide Tokens, Component;
    if parts == [] {
      assert Body(parts) + rest == rest;
    } else {
      var tail := Body(parts[1..]) + rest;
      assert Body(parts) + rest == [SLASH] + parts[0] + tail;
      assert tail == [] || tail[0] == SLASH by { BodyThen(parts[1..], rest); }
      TokenThen(parts[0], tail);
      TokensOfBody(parts[1..], rest);
      assert [parts[0]] + (parts[1..] + Tokens(rest)) == parts + Tokens(rest);
    }
  }

  lemma BodyThen(parts: seq<Path>, rest: Path)
    requires rest == [] || rest[0] == SLASH
    ensures Body(parts) + rest == [] || (Body(parts) + rest)[0] == SLASH
  {
  }

  // Splitting takes a joined path back to its parts.
  lemma SplitJoin(parts: seq<Path>)
    requires Components(parts)
    ensures Tokens(Join(parts)) == parts
  {
    if parts == [] {
      assert [SLASH][1..] == [];
    } else {
      TokensOfBody(parts, []);
      assert Body(parts) + [] == Body(parts);
    }
  }

  // A last stretch after a slash is a token of its own, unless it is empty.
  lemma {:induction false} TokensSnoc(dir: Path, name: Path)
    requires dir != [] && dir[|dir| - 1] == SLASH && SLASH !in name
    ensures Tokens(dir + name) == Tokens(dir) + if name == [] then [] else [name]
    decreases |dir|
  {
    hide Components, Stretch;
    var s := dir + name;
    if dir[0] == SLASH {
      assert s[1..] == dir[1..] + name;
      if |dir| == 1 {
        StretchIs(name, []);
        assert s[1..] == name + [] && name[|name|..] == [] && name[..|name|] == name;
      } else {
        TokensSnoc(dir[1..], name);
      }
    } else {
      var n := Stretch(dir);
      StretchProperty(dir);
      StretchIs(dir[..n], dir[n..]);
      StretchIs(dir[..n], dir[n..] + name);
      assert dir[..n] + dir[n..] == dir && dir[..n] + (dir[n..] + name) == s;
      assert s[..n] == dir[..n] && s[n..] == dir[n..] + name;
      TokensSnoc(dir[n..], name);
    }
  }

  // A text that ends in a slash has one at the end of its first stretch.
  lemma StretchProperty(s: Path)
    requires s != [] && s[0] != SLASH && s[|s| - 1] == SLASH
    ensures 0 < Stretch(s) < |s| && s[Stretch(s)] == SLASH && SLASH !in s[..Stretch(s)]
  {
  }

  // ---------- Splitting, as the two scans do it ----------

  method SkipSlashes(s: Path, from: nat) returns (p: nat)
    requires from <= |s|
    ensures from <= p <= |s| && Tokens(s[p..]) == Tokens(s[from..])
    ensures p < |s| ==> s[p] != SLASH
  {
    p := from;
    while p < |s| && s[p] == SLASH
      invariant from <= p <= |s| && Tokens(s[p..]) == Tokens(s[from..])
    {
      assert s[p..][1..] == s[p + 1..];
      p := p + 1;
    }
  }

  method ScanToken(s: Path, from: nat) returns (p: nat)
    requires from < |s| && s[from] != SLASH
    ensures from < p <= |s| && Tokens(s[from..]) == [s[from..p]] + Tokens(s[p..])
  {
    p := from;
    while p < |s| && s[p] != SLASH
      invariant from <= p <= |s| && SLASH !in s[from..p]
    {
      p := p + 1;
    }
    StretchIs(s[from..p], s[p..]);
    assert s[from..p] + s[p..] == s[from..];
    assert s[from..][..p - from] == s[from..p] && s[from..][p - from..] == s[p..];
  }

  // One pass counts the tokens, a second one fills an array of exactly that many.
  method Split(s: Path) returns (tokens: array<Path>)
    ensures tokens[..] == Tokens(s)
  {
    hide Tokens;
    var count, p := 0, 0;
    assert s[0..] == s;
    while p < |s|
      invariant p <= |s| && count + |Tokens(s[p..])| == |Tokens(s)|
    {
      p := SkipSlashes(s, p);
      if p == |s| { break; }
      p := ScanToken(s, p);
      count := count + 1;
    }
    NoTokens(s[p..]);
    tokens := new Path[count];
    var i := 0;
    p := 0;
    while p < |s|
      invariant p <= |s| && i + |Tokens(s[p..])| == count
      invariant tokens[..i] + Tokens(s[p..]) == Tokens(s)
    {
      p := SkipSlashes(s, p);
      if p == |s| { break; }
      var start := p;
      p := ScanToken(s, p);
      tokens[i] := s[start..p];
      i := i + 1;
    }
    NoTokens(s[p..]);
  }

  lemma NoTokens(s: Path)
    ensures s == [] ==> Tokens(s) == []
  {
  }

  // The last slash divides every path into its directory, slash included, and its name.
  method SplitPath(path: Path) returns (dir: Path, name: Path)
    requires SLASH in path
    ensures path == dir + name && dir != [] && dir[|dir| - 1] == SLASH && SLASH !in name
    ensures Tokens(path) == Tokens(dir) + if name == [] then [] else [name]
  {
    hide Tokens;
    var i, last := 0, 0;
    while i < |path|
      invariant i <= |path| && last <= i
      invariant SLASH in path[..i] ==> last < i && path[last] == SLASH && SLASH !in path[last + 1..i]
    {
      if path[i] == SLASH { last := i; }
      i := i + 1;
    }
    assert path[..i] == path;
    dir, name := path[..last + 1], path[last + 1..];
    assert path == dir + name;
    TokensSnoc(dir, name);
  }

  // ---------- Validity ----------

  // Valid paths are the joins of short components.
  ghost predicate ValidPath(path: Path) {
    |path| <= MAX_LENGTH && exists parts :: Components(parts) && Short(parts) && path == Join(parts)
  }

  // The scan of a path below the root, n bytes into a component.
  predicate Clean(s: Path, n: nat) {
    if s == [] then n > 0
    else if s[0] == SLASH then n > 0 && Clean(s[1..], 0)
    else n < MAX_NAME && Clean(s[1..], n + 1)
  }

  lemma {:induction false} CleanPart(part: Path, rest: Path, n: nat)
    requires SLASH !in part && n + |part| <= MAX_NAME
    ensures Clean(part + rest, n) == Clean(rest, n + |part|)
  {
    if part == [] {
      assert part + rest == rest;
    } else {
      assert (part + rest)[1..] == part[1..] + rest;
      CleanPart(part[1..], rest, n + 1);
    }
  }

  lemma {:induction false} JoinIsClean(parts: seq<Path>)
    requires parts != [] && Components(parts) && Short(parts)
    ensures Clean(Body(parts)[1..], 0)
  {
    var rest := Body(parts[1..]);
    CleanPart(parts[0], rest, 0);
    assert Body(parts)[1..] == parts[0] + rest;
    if |parts| > 1 {
      JoinIsClean(parts[1..]);
    }
  }

  lemma {:induction false} CleanIsJoin(cur: Path, s: Path) returns (parts: seq<Path>)
    requires SLASH !in cur && |cur| <= MAX_NAME && Clean(s, |cur|)
    ensures parts != [] && Components(parts) && Short(parts) && Body(parts) == [SLASH] + cur + s
    decreases |s|
  {
    if s == [] {
      parts := [cur];
      assert Body(parts[1..]) == [];
    } else if s[0] == SLASH {
      var rest := CleanIsJoin([], s[1..]);
      parts := [cur] + rest;
      assert parts[1..] == rest;
    } else {
      parts := CleanIsJoin(cur + [s[0]], s[1..]);
      assert cur + [s[0]] + s[1..] == cur + s;
    }
  }

  lemma ValidIffClean(path: Path)
    requires path != [] && path[0] == SLASH && |path| <= MAX_LENGTH
    ensures ValidPath(path) <==> |path| == 1 || Clean(path[1..], 0)
  {
    if |path| == 1 {
      assert path == Join([]) && Components([]) && Short([]);
    } else {
      if Clean(path[1..], 0) {
        var parts := CleanIsJoin([], path[1..]);
        assert path == [SLASH] + [] + path[1..];
        assert path == Join(parts);
      }
      if ValidPath(path) {
        var parts :| Components(parts) && Short(parts) && path == Join(parts);
        JoinIsClean(parts);
      }
    }
  }

  method IsValidPath(path: Path) returns (ok: bool)
    ensures ok <==> ValidPath(path)
  {
    if path == [] || path[0] != SLASH {
      return false;
    }
    if |path| > MAX_LENGTH {
      return false;
    }
    ValidIffClean(path);
    var component, i := 0, 1;
    while i < |path|
      invariant 1 <= i <= |path| && component <= MAX_NAME
      invariant Clean(path[1..], 0) == Clean(path[i..], component)
    {
      assert path[i..][1..] == path[i + 1..];
      if path[i] == SLASH {
        if component == 0 { return false; }
        component := 0;
      } else {
        component := component + 1;
        if component > MAX_NAME { return false; }
      }
      i := i + 1;
    }
    ok := component != 0 || |path| <= 1;
  }

  // ---------- Directory and name of a valid path ----------

  lemma {:induction false} BodyEnds(parts: seq<Path>)
    requires parts != [] && Components(parts)
    ensures Body(parts) != [] && Body(parts)[|Body(parts)| - 1] != SLASH
  {
    var b := Body(parts);
    if |parts| == 1 {
      assert Body(parts[1..]) == [] && b == [SLASH] + parts[0];
      assert b[|b| - 1] == parts[0][|parts[0]| - 1] && b[|b| - 1] in parts[0];
    } else {
      BodyEnds(parts[1..]);
    }
  }

  lemma BodyStarts(parts: seq<Path>)
    ensures Join(parts) != [] && Join(parts)[0] == SLASH
  {
  }

  // A valid path below the root divides into its parts but the last, and the last.
  lemma SplitValid(path: Path, dir: Path, name: Path)
    requires ValidPath(path) && path == dir + name && dir != [] && dir[|dir| - 1] == SLASH && SLASH !in name
    requires Tokens(path) == Tokens(dir) + if name == [] then [] else [name]
    ensures dir[0] == SLASH
    ensures if Tokens(path) == [] then Tokens(dir) == [] && name == []
            else Tokens(dir) == Tokens(path)[..|Tokens(path)| - 1] && name == Tokens(path)[|Tokens(path)| - 1]
  {
    hide Tokens, Component, Clean, Short;
    var parts :| Components(parts) && Short(parts) && path == Join(parts);
    SplitJoin(parts);
    assert path[0] == SLASH == dir[0] by { BodyStarts(parts); }
    if parts != [] {
      BodyEnds(parts);
      assert name == [] ==> path == dir;
    }
  }
}
