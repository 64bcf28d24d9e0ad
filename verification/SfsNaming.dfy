/** What paths name: lookup, create and remove described by how a path is put together
    and by the names on the way from the root. */
module SfsNaming {
  import opened Words
  import opened BlockDevice
  import opened SfsLayout
  import opened SfsPath
  import opened SfsData
  import opened SfsTree
  import opened SfsOps

  // ---- lookup -------------------------------------------------------------------------

  /** Walking one list of components after another. */
  lemma {:induction false} ResolveConcat(t: Table, a: seq<Name>, b: seq<Name>, cur: nat)
    requires ParentsLive(t) && Live(t, cur)
    ensures var x := ResolveFrom(t, a, cur);
            ResolveFrom(t, a + b, cur) == if x.None? then None else ResolveFrom(t, b, x.value)
    decreases a
  {
    if a == [] {
      assert a + b == b;
    } else {
      assert (a + b)[0] == a[0] && (a + b)[1..] == a[1..] + b;
      if a[0] == DOT {
        ResolveConcat(t, a[1..], b, cur);
      } else if a[0] == DOTDOT {
        ResolveConcat(t, a[1..], b, t[cur].parent);
      } else if FindChild(t, cur, a[0]).Some? {
        ResolveConcat(t, a[1..], b, FindChild(t, cur, a[0]).value);
      }
    }
  }

  /** A path that begins with a slash means the same from everywhere. */
  lemma AbsolutePath(t: Table, root: nat, path: CString, c1: nat, c2: nat)
    requires ParentsLive(t) && Live(t, root) && Live(t, c1) && Live(t, c2)
    requires path != [] && path[0] == SLASH
    ensures Lookup(t, root, path, c1) == Lookup(t, root, path, c2)
    ensures Lookup(t, root, [SLASH], c1) == Some(root)
  {
    NoMoreComponents([SLASH], 0);
  }

  /** A path without a slash is looked up where one stands: "." is there, ".." its parent,
      and any other name the child of that name. */
  lemma OneStep(t: Table, root: nat, name: CString, c: nat)
    requires ParentsLive(t) && Live(t, root) && Live(t, c)
    requires name != [] && |name| <= 31 && SLASH !in name
    ensures Lookup(t, root, name, c)
         == if name == [46] then Some(c) else if name == [46, 46] then Some(t[c].parent) else FindChild(t, c, name)
  {
    OneName(name);
    WalkOne(t, name, c);
  }

  lemma WalkOne(t: Table, name: Name, cur: nat)
    requires ParentsLive(t) && Live(t, cur)
    ensures ResolveFrom(t, [name], cur)
         == if name == [46] then Some(cur) else if name == [46, 46] then Some(t[cur].parent) else FindChild(t, cur, name)
  {
    assert [name][1..] == [];
  }

  /** Behind a slash a relative path goes on from where the path before it leads, the root
      if there is none. */
  lemma PathGoesOn(t: Table, root: nat, p: CString, q: CString, c: nat)
    requires ParentsLive(t) && Live(t, root) && Live(t, c) && (q == [] || q[0] != SLASH)
    ensures var x := if p == [] then Some(root) else Lookup(t, root, p, c);
            Lookup(t, root, p + [SLASH] + q, c) == if x.None? then None else Lookup(t, root, q, x.value)
  {
    JoinedPaths(p, q);
    EmptyPath();
    var start := StartDir(p + [SLASH] + q, root, c);
    ResolveConcat(t, Components(p, 0), Components(q, 0), start);
  }

  /** The same names in the same places. */
  ghost predicate SamePlaces(t: Table, t': Table) {
    forall i {:trigger t'[i]} {:trigger t[i]} | 0 <= i < MAX_ENTRIES ::
      t'[i].used == t[i].used && t'[i].typ == t[i].typ && t'[i].parent == t[i].parent && t'[i].name == t[i].name
  }

  lemma SameChild(t: Table, t': Table, parent: nat, name: CString)
    requires SamePlaces(t, t')
    ensures FindChild(t', parent, name) == FindChild(t, parent, name)
  {
    assert forall i | 0 <= i < MAX_ENTRIES :: Is(t', i, parent, name) == Is(t, i, parent, name);
  }

  /** Then every walk is the same. */
  lemma {:induction false} SameWalk(t: Table, t': Table, comps: seq<Name>, cur: nat)
    requires SamePlaces(t, t') && ParentsLive(t) && Live(t, cur)
    ensures ParentsLive(t') && Live(t', cur) && ResolveFrom(t', comps, cur) == ResolveFrom(t, comps, cur)
    decreases comps
  {
    assert forall i | Live(t', i) :: Live(t, i);
    if comps != [] {
      if comps[0] == DOT {
        SameWalk(t, t', comps[1..], cur);
      } else if comps[0] == DOTDOT {
        SameWalk(t, t', comps[1..], t[cur].parent);
      } else {
        SameChild(t, t', cur, comps[0]);
        if FindChild(t, cur, comps[0]).Some? {
          SameWalk(t, t', comps[1..], FindChild(t, cur, comps[0]).value);
        }
      }
    }
  }

  // ---- the path of an entry ---------------------------------------------------------------

  /** The n-th ancestor of i is the root, none below it is, and all names on the way are
      other than "." and "..". */
  ghost predicate Below(t: Table, root: nat, i: nat, n: nat)
    requires ParentsLive(t) && Live(t, i)
    decreases n
  {
    if n == 0 then i == root
    else i != root && CStr(t[i].name) != [46] && CStr(t[i].name) != [46, 46] && Below(t, root, t[i].parent, n - 1)
  }

  /** A slash and a name for each step down from the root. */
  ghost function PathOf(t: Table, i: nat, n: nat): CString
    requires ParentsLive(t) && Live(t, i)
    decreases n
  {
    if n == 0 then [] else PathOf(t, t[i].parent, n - 1) + [SLASH] + CStr(t[i].name)
  }

  lemma {:induction false} NameFits(b: seq<u8>)
    requires 0 in b
    ensures |CStr(b)| < |b|
  {
    if b[0] != 0 {
      NameFits(b[1..]);
    }
  }

  lemma ChildFound(t: Table, root: nat, i: nat)
    requires IsTree(t, root) && Live(t, i)
    ensures FindChild(t, t[i].parent, CStr(t[i].name)) == Some(i)
  {
    var f := FindChild(t, t[i].parent, CStr(t[i].name));
    assert Is(t, i, t[i].parent, CStr(t[i].name));
    assert Live(t, f.value) && SameName(t, i, f.value);
  }

  /** Every entry is found, from everywhere, under the path of names that leads to it. */
  lemma {:induction false} EntryFound(t: Table, root: nat, i: nat, n: nat, c: nat)
    requires IsTree(t, root) && Live(t, i) && Live(t, c) && Below(t, root, i, n)
    ensures Lookup(t, root, if n == 0 then [SLASH] else PathOf(t, i, n), c) == Some(i)
    decreases n
  {
    if n == 0 {
      AbsolutePath(t, root, [SLASH], c, c);
    } else {
      var (parent, name) := (t[i].parent, CStr(t[i].name));
      EntryFound(t, root, parent, n - 1, c);
      NameFits(t[i].name);
      PathGoesOn(t, root, PathOf(t, parent, n - 1), name, c);
      OneStep(t, root, name, parent);
      ChildFound(t, root, i);
    }
  }

  // ---- create -----------------------------------------------------------------------------

  /** Each of the first n components, one after the other, leads to a directory. */
  ghost predicate DirsOnTheWay(t: Table, comps: seq<Name>, cur: nat, n: nat)
    requires ParentsLive(t) && Live(t, cur) && n <= |comps|
  {
    forall k | 0 <= k <= n :: LeadsToDir(t, comps, cur, k)
  }

  ghost predicate LeadsToDir(t: Table, comps: seq<Name>, cur: nat, k: nat)
    requires ParentsLive(t) && Live(t, cur) && k <= |comps|
  {
    var x := ResolveFrom(t, comps[..k], cur);
    x.Some? && LiveDir(t, x.value)
  }

  /** How many components name the directory of a new entry: all but the last, or all
      if the last is not a plain name. */
  ghost function DirPart(comps: seq<Name>, slashed: bool): (n: nat)
    ensures n <= |comps|
  {
    if PlainLast(comps, slashed) then |comps| - 1 else |comps|
  }

  /** The first step of the way, and the rest seen from behind it. */
  lemma DirsAfterStep(t: Table, comps: seq<Name>, cur: nat, n: nat, next: nat)
    requires ParentsLive(t) && LiveDir(t, cur) && Live(t, cur) && 0 < n <= |comps| && Live(t, next)
    requires forall k | 0 < k <= n :: ResolveFrom(t, comps[..k], cur) == ResolveFrom(t, comps[1..][..k - 1], next)
    ensures DirsOnTheWay(t, comps, cur, n) <==> DirsOnTheWay(t, comps[1..], next, n - 1)
  {
    if DirsOnTheWay(t, comps, cur, n) {
      forall k | 0 <= k <= n - 1
        ensures LeadsToDir(t, comps[1..], next, k)
      {
        assert LeadsToDir(t, comps, cur, k + 1);
        assert ResolveFrom(t, comps[..k + 1], cur) == ResolveFrom(t, comps[1..][..k + 1 - 1], next);
      }
    }
    if DirsOnTheWay(t, comps[1..], next, n - 1) {
      forall k | 0 <= k <= n
        ensures LeadsToDir(t, comps, cur, k)
      {
        if k > 0 {
          assert LeadsToDir(t, comps[1..], next, k - 1);
        } else {
          assert comps[..0] == [];
        }
      }
    }
  }

  lemma StepPrefixes(t: Table, comps: seq<Name>, cur: nat, n: nat, next: nat)
    requires ParentsLive(t) && Live(t, cur) && 0 < n <= |comps| && Live(t, next)
    requires if comps[0] == DOT then next == cur else if comps[0] == DOTDOT then next == t[cur].parent
             else FindChild(t, cur, comps[0]) == Some(next)
    ensures forall k | 0 < k <= n :: ResolveFrom(t, comps[..k], cur) == ResolveFrom(t, comps[1..][..k - 1], next)
  {
    forall k | 0 < k <= n
      ensures ResolveFrom(t, comps[..k], cur) == ResolveFrom(t, comps[1..][..k - 1], next)
    {
      assert comps[..k][0] == comps[0] && comps[..k][1..] == comps[1..][..k - 1];
    }
  }

  /** The directory a path's new entry goes into is where the components before its name lead,
      and there is one exactly when all of them lead to directories. */
  lemma {:induction false} CreateDirIs(t: Table, comps: seq<Name>, cur: nat, slashed: bool)
    requires ParentsLive(t) && LiveDir(t, cur) && Live(t, cur)
    ensures var n := DirPart(comps, slashed);
            CreateDir(t, comps, cur, slashed)
            == if DirsOnTheWay(t, comps, cur, n) then ResolveFrom(t, comps[..n], cur) else None
    decreases comps
  {
    var n := DirPart(comps, slashed);
    assert comps[..0] == [];
    if comps == [] {
      assert LeadsToDir(t, comps, cur, 0);
    } else if n == 0 {
      assert LeadsToDir(t, comps, cur, 0);
    } else {
      var rest := comps[1..];
      assert DirPart(rest, slashed) == n - 1 by {
        assert rest != [] ==> rest[|rest| - 1] == comps[|comps| - 1];
      }
      var step := if comps[0] == DOT then Some(cur) else if comps[0] == DOTDOT then Some(t[cur].parent)
                  else FindChild(t, cur, comps[0]);
      assert comps[..1] == [comps[0]];
      assert ResolveFrom(t, comps[..1], cur) == step;
      if step.None? || !LiveDir(t, step.value) {
        assert !LeadsToDir(t, comps, cur, 1);
      } else {
        StepPrefixes(t, comps, cur, n, step.value);
        DirsAfterStep(t, comps, cur, n, step.value);
        CreateDirIs(t, rest, step.value, slashed);
      }
    }
  }

  /** Some entry is not in use. */
  ghost predicate HasRoom(t: Table) {
    exists i :: 0 <= i < MAX_ENTRIES && !Used(t[i])
  }

  /** The directory is there, its last component is not taken in it, and an entry is free. */
  ghost predicate CanCreate(s: State, path: CString, cwd: nat)
    requires Inv(s) && LiveDir(s.table, cwd)
  {
    var (comps, start) := (Components(path, 0), StartDir(path, s.super.rootId, cwd));
    var n := DirPart(comps, Slashed(path));
    && comps != [] && HasRoom(s.table)
    && Live(s.table, start) && DirsOnTheWay(s.table, comps, start, n)
    && var dir := ResolveFrom(s.table, comps[..n], start);
       dir.Some? && FindChild(s.table, dir.value, comps[|comps| - 1]).None?
  }

  /** Entry e is a fresh child `name` of dir. */
  ghost predicate FreshChild(e: Entry, dir: nat, name: seq<u8>, typ: u8, perm: u8) {
    && Used(e) && e.parent == dir && CStr(e.name) == name
    && e.typ == typ && e.perm == perm && e.start == 0 && e.size == 0 && e.cap == 0
  }

  /** id is the lowest entry not in use. */
  ghost predicate LowestFree(t: Table, id: nat) {
    id < MAX_ENTRIES && !Used(t[id]) && forall j | 0 <= j < id :: Used(t[j])
  }

  /** An insert succeeds exactly when the name is free and an entry is. */
  lemma InsertSucceeds(s: State, dir: nat, name: Name, typ: u8, perm: u8)
    requires dir < MAX_ENTRIES
    ensures var (c, id) := Insert(s, dir, name, typ, perm);
            && (id.Some? <==> FindChild(s.table, dir, name).None? && HasRoom(s.table))
            && (id.None? ==> c == s)
            && (id.Some? ==> LowestFree(s.table, id.value) && c.super == s.super
                             && c.table == s.table[id.value := c.table[id.value]]
                             && FreshChild(c.table[id.value], dir, name, typ, perm))
  {
    var id := Insert(s, dir, name, typ, perm).1;
    if id.Some? {
      StoredNameReads(s.table[id.value].name, name);
    }
  }

  lemma TargetIs(s: State, path: CString, cwd: nat)
    requires Inv(s) && LiveDir(s.table, cwd)
    ensures var (comps, start) := (Components(path, 0), StartDir(path, s.super.rootId, cwd));
            var n := DirPart(comps, Slashed(path));
            && Live(s.table, start)
            && Target(s, path, cwd)
               == (if comps != [] && DirsOnTheWay(s.table, comps, start, n) && LeadsToDir(s.table, comps, start, n)
                   then Some((ResolveFrom(s.table, comps[..n], start).value, comps[|comps| - 1])) else None)
  {
    var (comps, start) := (Components(path, 0), StartDir(path, s.super.rootId, cwd));
    assert Live(s.table, start);
    CreateDirIs(s.table, comps, start, Slashed(path));
    var n := DirPart(comps, Slashed(path));
    assert DirsOnTheWay(s.table, comps, start, n) ==> LeadsToDir(s.table, comps, start, n);
    EmptyPath();
  }

  /** Create succeeds exactly then, and the new entry is the lowest free one, a child of that
      directory named by the last component, with the given type and permissions. */
  lemma CreateSucceeds(s: State, path: CString, cwd: nat, typ: u8, perm: u8)
    requires Inv(s) && LiveDir(s.table, cwd)
    ensures var (c, id) := Create(s, path, cwd, typ, perm);
            var (comps, start) := (Components(path, 0), StartDir(path, s.super.rootId, cwd));
            && (id.Some? <==> CanCreate(s, path, cwd))
            && (id.None? ==> c == s)
            && (id.Some? ==>
                  && LowestFree(s.table, id.value) && c.super == s.super
                  && c.table == s.table[id.value := c.table[id.value]]
                  && Live(s.table, start)
                  && var dir := ResolveFrom(s.table, comps[..DirPart(comps, Slashed(path))], start);
                     dir.Some? && FreshChild(c.table[id.value], dir.value, comps[|comps| - 1], typ, perm))
  {
    TargetIs(s, path, cwd);
    var target := Target(s, path, cwd);
    var (comps, start) := (Components(path, 0), StartDir(path, s.super.rootId, cwd));
    var n := DirPart(comps, Slashed(path));
    assert DirsOnTheWay(s.table, comps, start, n) ==> LeadsToDir(s.table, comps, start, n);
    if target.Some? {
      InsertSucceeds(s, target.value.0, target.value.1, typ, perm);
    }
  }

  lemma NameBehind(p: CString, name: CString)
    requires name != [] && |name| <= 31 && SLASH !in name && name != [46] && name != [46, 46]
    ensures Components(p + [SLASH] + name, 0) == Components(p, 0) + [name]
    ensures PlainLast(Components(p + [SLASH] + name, 0), Slashed(p + [SLASH] + name))
  {
    JoinedPaths(p, name);
    OneName(name);
  }

  lemma WayBefore(s: State, p: CString, name: Name, cwd: nat)
    requires Inv(s) && LiveDir(s.table, cwd)
    ensures var start := StartDir(p + [SLASH] + name, s.super.rootId, cwd);
            && Live(s.table, cwd) && Live(s.table, start) && Live(s.table, s.super.rootId)
            && ResolveFrom(s.table, Components(p, 0), start)
               == if p == [] then Some(s.super.rootId) else Lookup(s.table, s.super.rootId, p, cwd)
  {
    EmptyPath();
    assert p != [] ==> (p + [SLASH] + name)[0] == p[0];
  }

  /** A name behind a slash goes into the directory that the path before it leads to. */
  lemma CreatedUnder(s: State, p: CString, name: CString, cwd: nat, typ: u8, perm: u8)
    requires Inv(s) && LiveDir(s.table, cwd)
    requires name != [] && |name| <= 31 && SLASH !in name && name != [46] && name != [46, 46]
    requires Create(s, p + [SLASH] + name, cwd, typ, perm).1.Some?
    ensures var (c, id) := Create(s, p + [SLASH] + name, cwd, typ, perm);
            var dir := if p == [] then Some(s.super.rootId) else Lookup(s.table, s.super.rootId, p, cwd);
            && id.value < MAX_ENTRIES && IsTree(c.table, s.super.rootId) && Live(c.table, cwd)
            && Some(c.table[id.value].parent) == dir && CStr(c.table[id.value].name) == name
            && Lookup(c.table, s.super.rootId, p + [SLASH] + name, cwd) == id
  {
    var path: CString := p + [SLASH] + name;
    CreateSucceeds(s, path, cwd, typ, perm);
    CreateThenLookup(s, path, cwd, typ, perm);
    NameBehind(p, name);
    WayBefore(s, p, name, cwd);
  }

  // ---- remove and truncate ------------------------------------------------------------------

  /** Remove succeeds exactly for a path that leads to an entry other than the root which is
      no directory with something in it; then that entry is cleared and no other changes. */
  lemma RemoveSucceeds(s: State, path: CString, cwd: nat)
    requires Inv(s) && Live(s.table, cwd)
    ensures var id := Lookup(s.table, s.super.rootId, path, cwd);
            var (r, ok) := Remove(s, path, cwd);
            && (ok <==> id.Some? && id.value != s.super.rootId
                        && !exists i :: Live(s.table, i) && s.table[i].parent == id.value)
            && (ok ==> !Used(r.table[id.value]) && r.super == s.super
                       && forall i | 0 <= i < MAX_ENTRIES && i != id.value :: r.table[i] == s.table[i])
            && (!ok ==> r == s)
  {
    var id := Lookup(s.table, s.super.rootId, path, cwd);
    if id.Some? {
      if i :| Live(s.table, i) && s.table[i].parent == id.value {
        assert LiveDir(s.table, s.table[i].parent);
      } else {
        assert Childless(s.table, id.value);
      }
    }
  }

  /** Truncate succeeds exactly for a writable file; size 0, and the sectors stay its own. */
  lemma TruncateSucceeds(s: State, id: nat)
    ensures var (r, ok) := Truncate(s, id);
            && (ok <==> id < MAX_ENTRIES && s.table[id].used != 0 && s.table[id].typ == 1 && s.table[id].perm / 2 % 2 == 1)
            && (ok ==> r.super == s.super && r.table == s.table[id := s.table[id].(size := 0)])
            && (!ok ==> r == s)
  {
  }
}
