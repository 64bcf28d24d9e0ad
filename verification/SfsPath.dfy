/** Path strings as the kernel splits them: runs of '/' separate components,
    and a component keeps at most its first 31 characters. */
module SfsPath {
  import opened Words
  import opened SfsLayout

  const SLASH: u8 := 47
  const DOT: Name := [46]
  const DOTDOT: Name := [46, 46]

  /** A C string, without its terminating NUL. */
  type CString = s: seq<u8> | 0 !in s witness []
  type Name = n: seq<u8> | 0 < |n| <= NAME_MAX && 0 !in n && 47 !in n witness [46]

  /** The string stored in a character array: everything before the first NUL. */
  function CStr(b: seq<u8>): (s: CString) {
    if b == [] || b[0] == 0 then [] else [b[0]] + CStr(b[1..])
  }

  lemma {:induction false} CStrPrefix(s: CString, rest: seq<u8>)
    ensures CStr(s + [0] + rest) == s
  {
    if s != [] {
      CStrPrefix(s[1..], rest);
      assert (s + [0] + rest)[1..] == s[1..] + [0] + rest;
    } else {
      assert s + [0] + rest == [0] + rest;
    }
  }

  /** The 32-byte name field after a bounded string copy into it. */
  function StoredName(old_: Bytes32, s: CString): Bytes32
    requires |s| <= NAME_MAX
  {
    s + [0] + old_[|s| + 1..]
  }

  lemma StoredNameReads(old_: Bytes32, s: CString)
    requires |s| <= NAME_MAX
    ensures CStr(StoredName(old_, s)) == s && 0 in StoredName(old_, s)
  {
    CStrPrefix(s, old_[|s| + 1..]);
    assert StoredName(old_, s)[|s|] == 0;
  }

  function SkipSlashes(path: CString, pos: nat): (r: nat)
    requires pos <= |path|
    ensures pos <= r <= |path|
    ensures r < |path| ==> path[r] != SLASH
    ensures forall k | pos <= k < r :: path[k] == SLASH
    decreases |path| - pos
  {
    if pos < |path| && path[pos] == SLASH then SkipSlashes(path, pos + 1) else pos
  }

  function ComponentEnd(path: CString, pos: nat): (r: nat)
    requires pos <= |path|
    ensures pos <= r <= |path|
    ensures r < |path| ==> path[r] == SLASH
    ensures forall k | pos <= k < r :: path[k] != SLASH
    decreases |path| - pos
  {
    if pos < |path| && path[pos] != SLASH then ComponentEnd(path, pos + 1) else pos
  }

  function Cut(s: seq<u8>): seq<u8> {
    if |s| > NAME_MAX then s[..NAME_MAX] else s
  }

  function Component(path: CString, pos: nat): (n: Name)
    requires pos < |path| && path[pos] != SLASH
  {
    Cut(path[pos..ComponentEnd(path, pos)])
  }

  /** The components from position `pos` on. */
  function Components(path: CString, pos: nat): seq<Name>
    requires pos <= |path|
    decreases |path| - pos
  {
    var p := SkipSlashes(path, pos);
    if p == |path| then []
    else [Component(path, p)] + Components(path, ComponentEnd(path, p))
  }

  /** The path ends in '/', so its last component is not treated as a new name. */
  predicate Slashed(path: CString) {
    path != [] && path[|path| - 1] == SLASH
  }

  /** Standing right after a component, the string is at its end exactly when
      no component follows and there is no trailing slash. */
  lemma AtEnd(path: CString, pos: nat)
    requires 0 < pos <= |path| && path[pos - 1] != SLASH
    ensures pos == |path| <==> Components(path, pos) == [] && !Slashed(path)
  {
    var p := SkipSlashes(path, pos);
    if pos < |path| && p == |path| {
      assert path[|path| - 1] == SLASH;
    }
  }

  method PathNext(path: CString, pos: nat) returns (found: bool, name: seq<u8>, next: nat)
    requires pos <= |path|
    ensures found <==> Components(path, pos) != []
    ensures pos <= next <= |path|
    ensures found ==> pos < next && path[next - 1] != SLASH
    ensures found ==> [name] + Components(path, next) == Components(path, pos)
  {
    next, name := pos, [];
    while next < |path| && path[next] == SLASH
      invariant pos <= next <= |path|
      invariant SkipSlashes(path, next) == SkipSlashes(path, pos)
    {
      next := next + 1;
    }
    if next == |path| {
      return false, [], next;
    }
    ghost var p := next;
    while next < |path| && path[next] != SLASH && |name| < NAME_MAX
      invariant p <= next <= |path|
      invariant next - p == |name| <= NAME_MAX && name == path[p..next]
      invariant ComponentEnd(path, next) == ComponentEnd(path, p)
    {
      assert path[p..next + 1] == path[p..next] + [path[next]];
      name := name + [path[next]];
      next := next + 1;
    }
    ghost var q := next;
    while next < |path| && path[next] != SLASH
      invariant q <= next <= |path|
      invariant ComponentEnd(path, next) == ComponentEnd(path, p)
      invariant next > q ==> |name| == NAME_MAX && path[next - 1] != SLASH
    {
      next := next + 1;
    }
    assert next == ComponentEnd(path, p);
    assert p < next;
    assert name == path[p..q] && (next == q || q == p + NAME_MAX);
    assert name == Component(path, p);
    found := true;
  }

  // ---- what paths mean, told by how they are put together ---------------------------

  /** No path, no component. */
  lemma EmptyPath()
    ensures Components([], 0) == []
  {
  }

  /** A path without a slash is one component, its first 31 characters. */
  lemma OneName(path: CString)
    requires path != [] && SLASH !in path
    ensures Components(path, 0) == [if |path| <= 31 then path else path[..31]] && !Slashed(path)
  {
    NoSlashEnd(path, 0);
    assert path[0..|path|] == path;
    assert Components(path, |path|) == [];
  }

  lemma {:induction false} NoSlashEnd(path: CString, pos: nat)
    requires pos <= |path| && SLASH !in path
    ensures ComponentEnd(path, pos) == |path|
    decreases |path| - pos
  {
    if pos < |path| {
      NoSlashEnd(path, pos + 1);
    }
  }

  lemma {:induction false} SkipShift(p: CString, q: CString, pos: nat)
    requires pos <= |q|
    ensures SkipSlashes(p + q, |p| + pos) == |p| + SkipSlashes(q, pos)
    decreases |q| - pos
  {
    if pos < |q| && q[pos] == SLASH {
      SkipShift(p, q, pos + 1);
    }
  }

  lemma {:induction false} EndShift(p: CString, q: CString, pos: nat)
    requires pos <= |q|
    ensures ComponentEnd(p + q, |p| + pos) == |p| + ComponentEnd(q, pos)
    decreases |q| - pos
  {
    if pos < |q| && q[pos] != SLASH {
      EndShift(p, q, pos + 1);
    }
  }

  lemma NextComponent(path: CString, pos: nat, k: nat, e: nat)
    requires pos <= |path| && k == SkipSlashes(path, pos) < |path| && e == ComponentEnd(path, k)
    ensures Components(path, pos) == [Cut(path[k..e])] + Components(path, e)
  {
  }

  lemma NoMoreComponents(path: CString, pos: nat)
    requires pos <= |path| && SkipSlashes(path, pos) == |path|
    ensures Components(path, pos) == []
  {
  }

  lemma SliceBehind(p: seq<u8>, q: seq<u8>, k: nat, e: nat)
    requires k <= e <= |q|
    ensures (p + q)[|p| + k..|p| + e] == q[k..e]
  {
  }

  lemma SliceInFront(p: seq<u8>, q: seq<u8>, k: nat, e: nat)
    requires k <= e <= |p|
    ensures (p + q)[k..e] == p[k..e]
  {
  }

  lemma {:induction false} ComponentsShift(p: CString, path: CString, q: CString, pos: nat)
    requires pos <= |q| && path == p + q
    ensures Components(path, |p| + pos) == Components(q, pos)
    decreases |q| - pos
  {
    SkipShift(p, q, pos);
    var k := SkipSlashes(q, pos);
    if k == |q| {
      NoMoreComponents(q, pos);
      NoMoreComponents(path, |p| + pos);
    } else {
      EndShift(p, q, k);
      var e := ComponentEnd(q, k);
      SliceBehind(p, q, k, e);
      NextComponent(q, pos, k, e);
      NextComponent(path, |p| + pos, |p| + k, |p| + e);
      ComponentsShift(p, path, q, e);
    }
  }

  lemma {:induction false} SkipInFront(p: CString, q: CString, pos: nat)
    requires pos <= |p|
    ensures SkipSlashes(p, pos) < |p| ==> SkipSlashes(p + [SLASH] + q, pos) == SkipSlashes(p, pos)
    ensures SkipSlashes(p, pos) == |p| ==>
              SkipSlashes(p + [SLASH] + q, pos) == SkipSlashes(p + [SLASH] + q, |p| + 1)
    decreases |p| - pos
  {
    if pos < |p| && p[pos] == SLASH {
      SkipInFront(p, q, pos + 1);
    }
  }

  lemma {:induction false} EndInFront(p: CString, q: CString, pos: nat)
    requires pos <= |p|
    ensures ComponentEnd(p + [SLASH] + q, pos) == ComponentEnd(p, pos)
    decreases |p| - pos
  {
    if pos < |p| && p[pos] != SLASH {
      EndInFront(p, q, pos + 1);
    }
  }

  /** Past the last component of p those of q begin. */
  lemma ComponentsBehind(p: CString, path: CString, q: CString, pos: nat)
    requires pos <= |p| && path == p + [SLASH] + q && SkipSlashes(p, pos) == |p|
    ensures Components(path, pos) == Components(q, 0)
  {
    SkipInFront(p, q, pos);
    ComponentsShift(p + [SLASH], path, q, 0);
    SameSkip(path, pos, |p| + 1);
  }

  lemma {:induction false} ComponentsInFront(p: CString, path: CString, q: CString, pos: nat)
    requires pos <= |p| && path == p + [SLASH] + q
    ensures Components(path, pos) == Components(p, pos) + Components(q, 0)
    decreases |p| - pos
  {
    var k := SkipSlashes(p, pos);
    if k == |p| {
      ComponentsBehind(p, path, q, pos);
      NoMoreComponents(p, pos);
    } else {
      var e := ComponentEnd(p, k);
      FirstInFront(p, path, q, pos, k, e);
      ComponentsInFront(p, path, q, e);
      NextComponent(p, pos, k, e);
      assert [Cut(p[k..e])] + (Components(p, e) + Components(q, 0)) == [Cut(p[k..e])] + Components(p, e) + Components(q, 0);
    }
  }

  lemma FirstInFront(p: CString, path: CString, q: CString, pos: nat, k: nat, e: nat)
    requires pos <= |p| && path == p + [SLASH] + q && k == SkipSlashes(p, pos) < |p| && e == ComponentEnd(p, k)
    ensures Components(path, pos) == [Cut(p[k..e])] + Components(path, e)
  {
    SkipInFront(p, q, pos);
    EndInFront(p, q, k);
    assert path == p + ([SLASH] + q);
    SliceInFront(p, [SLASH] + q, k, e);
    NextComponent(path, pos, k, e);
  }

  lemma SameSkip(path: CString, i: nat, j: nat)
    requires i <= |path| && j <= |path| && SkipSlashes(path, i) == SkipSlashes(path, j)
    ensures Components(path, i) == Components(path, j)
  {
  }

  /** Putting a slash between two paths puts their components one after the other. */
  lemma JoinedPaths(p: CString, q: CString)
    ensures Components(p + [SLASH] + q, 0) == Components(p, 0) + Components(q, 0)
    ensures q != [] ==> Slashed(p + [SLASH] + q) == Slashed(q)
  {
    ComponentsInFront(p, p + [SLASH] + q, q, 0);
  }
}
