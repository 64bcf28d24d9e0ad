/** The SimpleFS entry table as a tree of names: lookup, path resolution, and
    what creating and removing an entry does to every path. */
module SfsTree {
  import opened Words
  import opened SfsLayout
  import opened SfsPath
  import opened SfsData

  predicate IsDir(e: Entry) { Used(e) && e.typ == TYPE_DIR }
  predicate Live(t: Table, i: int) { 0 <= i < MAX_ENTRIES && Used(t[i]) }
  predicate LiveDir(t: Table, i: int) { 0 <= i < MAX_ENTRIES && IsDir(t[i]) }

  predicate Is(t: Table, i: nat, parent: nat, name: CString)
    requires i < MAX_ENTRIES
  {
    Used(t[i]) && t[i].parent == parent && CStr(t[i].name) == name
  }

  ghost predicate ParentsLive(t: Table) {
    forall i {:trigger Live(t, i)} | Live(t, i) :: LiveDir(t, t[i].parent)
  }

  /** The n-th ancestor. */
  ghost function Up(t: Table, i: nat, n: nat): nat
    requires ParentsLive(t) && Live(t, i)
    decreases n
  {
    if n == 0 then i else Up(t, t[i].parent, n - 1)
  }

  predicate RootOk(t: Table, root: nat) {
    LiveDir(t, root) && t[root].parent == root && CStr(t[root].name) == [SLASH]
  }

  ghost predicate NamesOk(t: Table, root: nat) {
    forall i {:trigger Live(t, i)} | Live(t, i) ::
      0 in t[i].name && CStr(t[i].name) != [] && (i != root ==> SLASH !in CStr(t[i].name))
  }

  predicate SameName(t: Table, i: int, j: int)
    requires Live(t, i) && Live(t, j)
  {
    t[i].parent == t[j].parent && CStr(t[i].name) == CStr(t[j].name)
  }

  ghost predicate NamesUnique(t: Table) {
    forall i, j {:trigger SameName(t, i, j)} | Live(t, i) && Live(t, j) && SameName(t, i, j) :: i == j
  }

  ghost predicate UnderRoot(t: Table, root: nat, i: int)
    requires ParentsLive(t) && Live(t, i)
  {
    exists n: nat :: Up(t, i, n) == root
  }

  ghost predicate Rooted(t: Table, root: nat)
    requires ParentsLive(t)
  {
    forall i {:trigger UnderRoot(t, root, i)} | Live(t, i) :: UnderRoot(t, root, i)
  }

  /** Every used entry's parents are live directories that lead to the root, and
      no two entries of a directory share a name. */
  ghost predicate IsTree(t: Table, root: nat) {
    RootOk(t, root) && ParentsLive(t) && NamesOk(t, root) && NamesUnique(t) && Rooted(t, root)
  }

  // ---- lookup ---------------------------------------------------------------

  function FindFrom(t: Table, parent: nat, name: CString, i: nat): (r: Option<nat>)
    requires i <= MAX_ENTRIES
    ensures r.Some? ==> i <= r.value < MAX_ENTRIES && Is(t, r.value, parent, name)
    ensures r.None? ==> forall j | i <= j < MAX_ENTRIES :: !Is(t, j, parent, name)
    ensures r.Some? ==> forall j | i <= j < r.value :: !Is(t, j, parent, name)
    decreases MAX_ENTRIES - i
  {
    if i == MAX_ENTRIES then None
    else if Is(t, i, parent, name) then Some(i)
    else FindFrom(t, parent, name, i + 1)
  }

  function FindChild(t: Table, parent: nat, name: CString): (r: Option<nat>)
    ensures r.Some? ==> r.value < MAX_ENTRIES && Is(t, r.value, parent, name)
    ensures r.None? ==> forall j | 0 <= j < MAX_ENTRIES :: !Is(t, j, parent, name)
  {
    FindFrom(t, parent, name, 0)
  }

  function FreeFrom(t: Table, i: nat): (r: Option<nat>)
    requires i <= MAX_ENTRIES
    ensures r.Some? ==> i <= r.value < MAX_ENTRIES && !Used(t[r.value])
    ensures r.Some? ==> forall j | i <= j < r.value :: Used(t[j])
    ensures r.None? ==> forall j | i <= j < MAX_ENTRIES :: Used(t[j])
    decreases MAX_ENTRIES - i
  {
    if i == MAX_ENTRIES then None
    else if !Used(t[i]) then Some(i)
    else FreeFrom(t, i + 1)
  }

  // ---- paths ----------------------------------------------------------------

  function StartDir(path: CString, root: nat, cwd: nat): nat {
    if path != [] && path[0] == SLASH then root else cwd
  }

  ghost function ResolveFrom(t: Table, comps: seq<Name>, cur: nat): (r: Option<nat>)
    requires ParentsLive(t) && Live(t, cur)
    ensures r.Some? ==> Live(t, r.value)
  {
    if comps == [] then Some(cur)
    else if comps[0] == DOT then ResolveFrom(t, comps[1..], cur)
    else if comps[0] == DOTDOT then ResolveFrom(t, comps[1..], t[cur].parent)
    else
      var child := FindChild(t, cur, comps[0]);
      if child.None? then None else ResolveFrom(t, comps[1..], child.value)
  }

  /** Where a path leads, starting at the root or at the current directory. */
  ghost function Lookup(t: Table, root: nat, path: CString, cwd: nat): (r: Option<nat>)
    requires ParentsLive(t) && Live(t, root) && Live(t, cwd)
    ensures r.Some? ==> Live(t, r.value)
  {
    ResolveFrom(t, Components(path, 0), StartDir(path, root, cwd))
  }

  /** The directory a new entry goes into. The last component is skipped unless
      it is followed by a slash. */
  ghost function CreateDir(t: Table, comps: seq<Name>, cur: nat, slashed: bool): (r: Option<nat>)
    requires ParentsLive(t) && LiveDir(t, cur)
    ensures r.Some? ==> LiveDir(t, r.value)
  {
    if comps == [] then Some(cur)
    else if comps[0] == DOT then CreateDir(t, comps[1..], cur, slashed)
    else if comps[0] == DOTDOT then
      assert Live(t, cur);
      CreateDir(t, comps[1..], t[cur].parent, slashed)
    else if |comps| == 1 && !slashed then Some(cur)
    else
      var child := FindChild(t, cur, comps[0]);
      if child.None? || t[child.value].typ != TYPE_DIR then None
      else CreateDir(t, comps[1..], child.value, slashed)
  }

  // ---- adding an entry -------------------------------------------------------

  /** t' is t with entry `idx` newly in use as child `name` of directory `dir`. */
  predicate Adds(t: Table, t': Table, idx: nat, dir: nat, name: Name) {
    && idx < MAX_ENTRIES && !Used(t[idx]) && LiveDir(t, dir)
    && t' == t[idx := t'[idx]]
    && Is(t', idx, dir, name) && 0 in t'[idx].name
    && FindChild(t, dir, name).None?
  }

  /** Entries in use in t keep their place in t'. */
  ghost predicate Extends(t: Table, t': Table) {
    forall i {:trigger Live(t, i)} {:trigger Live(t', i)} | Live(t, i) ::
      Live(t', i) && t'[i].parent == t[i].parent
  }

  lemma {:induction false} UpKept(t: Table, t': Table, i: nat, n: nat)
    requires ParentsLive(t) && ParentsLive(t') && Live(t, i) && Extends(t, t')
    ensures Live(t', i) && Up(t', i, n) == Up(t, i, n)
    decreases n
  {
    if n > 0 {
      UpKept(t, t', t[i].parent, n - 1);
    }
  }

  lemma AddKeepsRooted(t: Table, t': Table, root: nat, idx: nat, dir: nat, name: Name)
    requires ParentsLive(t) && ParentsLive(t') && Rooted(t, root) && Adds(t, t', idx, dir, name)
    ensures Rooted(t', root)
  {
    forall i | Live(t', i)
      ensures UnderRoot(t', root, i)
    {
      var j := if i == idx then dir else i;
      assert Live(t, j) && UnderRoot(t, root, j);
      var n: nat :| Up(t, j, n) == root;
      UpKept(t, t', j, n);
      assert i == idx ==> Up(t', i, n + 1) == root;
    }
  }

  lemma AddKeepsUnique(t: Table, t': Table, idx: nat, dir: nat, name: Name)
    requires NamesUnique(t) && Adds(t, t', idx, dir, name)
    ensures NamesUnique(t')
  {
    forall i, j | Live(t', i) && Live(t', j) && SameName(t', i, j)
      ensures i == j
    {
      assert !Is(t, i, dir, name) && !Is(t, j, dir, name);
      assert Live(t, i) && Live(t, j) ==> SameName(t, i, j);
    }
  }

  lemma AddKeepsTree(t: Table, t': Table, root: nat, idx: nat, dir: nat, name: Name)
    requires IsTree(t, root) && Adds(t, t', idx, dir, name)
    ensures IsTree(t', root)
  {
    assert forall i | Live(t', i) :: i == idx || Live(t, i);
    assert ParentsLive(t');
    AddKeepsRooted(t, t', root, idx, dir, name);
    AddKeepsUnique(t, t', idx, dir, name);
  }

  lemma AddFindChild(t: Table, t': Table, root: nat, idx: nat, dir: nat, name: Name, cur: nat, c: Name)
    requires IsTree(t, root) && Adds(t, t', idx, dir, name)
    ensures FindChild(t', cur, c) == if cur == dir && c == name then Some(idx) else FindChild(t, cur, c)
  {
    AddKeepsTree(t, t', root, idx, dir, name);
    var f, f' := FindChild(t, cur, c), FindChild(t', cur, c);
    if f.Some? {
      assert Is(t', f.value, cur, c);
    }
    if f'.Some? && f'.value != idx {
      assert Is(t, f'.value, cur, c);
    }
    if f.Some? && f'.Some? {
      assert SameName(t', f.value, f'.value);
    }
    if cur == dir && c == name {
      assert Is(t', idx, cur, c);
    }
  }

  /** Every path that resolved before still gives its old id. */
  lemma {:induction false} AddKeepsPaths(t: Table, t': Table, root: nat, idx: nat, dir: nat, name: Name,
                                         comps: seq<Name>, cur: nat)
    requires IsTree(t, root) && Adds(t, t', idx, dir, name) && Live(t, cur)
    requires ResolveFrom(t, comps, cur).Some?
    ensures ParentsLive(t') && Live(t', cur)
    ensures ResolveFrom(t', comps, cur) == ResolveFrom(t, comps, cur)
    decreases comps
  {
    AddKeepsTree(t, t', root, idx, dir, name);
    if comps != [] {
      if comps[0] == DOT {
        AddKeepsPaths(t, t', root, idx, dir, name, comps[1..], cur);
      } else if comps[0] == DOTDOT {
        AddKeepsPaths(t, t', root, idx, dir, name, comps[1..], t[cur].parent);
      } else {
        AddFindChild(t, t', root, idx, dir, name, cur, comps[0]);
        AddKeepsPaths(t, t', root, idx, dir, name, comps[1..], FindChild(t, cur, comps[0]).value);
      }
    }
  }

  /** The path names its new entry plainly: no trailing slash, and a last
      component other than "." and "..". */
  predicate PlainLast(comps: seq<Name>, slashed: bool) {
    comps != [] && !slashed && comps[|comps| - 1] != DOT && comps[|comps| - 1] != DOTDOT
  }

  /** When the last component is not plain, the directory chosen for the new
      entry is simply what the whole path resolves to. */
  lemma {:induction false} OddCreateDirResolves(t: Table, comps: seq<Name>, cur: nat, slashed: bool)
    requires ParentsLive(t) && LiveDir(t, cur) && !PlainLast(comps, slashed)
    requires CreateDir(t, comps, cur, slashed).Some?
    ensures ResolveFrom(t, comps, cur) == CreateDir(t, comps, cur, slashed)
    decreases comps
  {
    assert Live(t, cur);
    if comps != [] {
      assert |comps| > 1 ==> comps[1..][|comps| - 2] == comps[|comps| - 1];
      if comps[0] == DOT {
        OddCreateDirResolves(t, comps[1..], cur, slashed);
      } else if comps[0] == DOTDOT {
        OddCreateDirResolves(t, comps[1..], t[cur].parent, slashed);
      } else {
        OddCreateDirResolves(t, comps[1..], FindChild(t, cur, comps[0]).value, slashed);
      }
    }
  }

  /** A single plain name, just added to directory `cur`, is found there. */
  lemma PlainNameResolves(t: Table, t': Table, root: nat, idx: nat, name: Name, cur: nat)
    requires IsTree(t, root) && LiveDir(t, cur) && Adds(t, t', idx, cur, name) && name != DOT && name != DOTDOT
    requires ParentsLive(t') && Live(t', cur)
    ensures ResolveFrom(t', [name], cur) == Some(idx)
  {
    AddFindChild(t, t', root, idx, cur, name, cur, name);
    assert [name][1..] == [];
  }

  lemma {:induction false} PlainCreateResolves(t: Table, t': Table, root: nat, idx: nat, comps: seq<Name>, cur: nat)
    requires IsTree(t, root) && LiveDir(t, cur) && PlainLast(comps, false)
    requires CreateDir(t, comps, cur, false).Some?
    requires Adds(t, t', idx, CreateDir(t, comps, cur, false).value, comps[|comps| - 1])
    ensures ParentsLive(t') && Live(t', cur)
    ensures ResolveFrom(t', comps, cur) == Some(idx)
    decreases comps
  {
    var dir, name := CreateDir(t, comps, cur, false).value, comps[|comps| - 1];
    AddKeepsTree(t, t', root, idx, dir, name);
    assert Live(t, cur);
    if |comps| == 1 {
      assert comps == [name];
      PlainNameResolves(t, t', root, idx, name, cur);
    } else {
      assert comps[1..][|comps| - 2] == name;
      assert PlainLast(comps[1..], false);
      if comps[0] == DOT {
        PlainCreateResolves(t, t', root, idx, comps[1..], cur);
      } else if comps[0] == DOTDOT {
        PlainCreateResolves(t, t', root, idx, comps[1..], t[cur].parent);
      } else {
        AddFindChild(t, t', root, idx, dir, name, cur, comps[0]);
        PlainCreateResolves(t, t', root, idx, comps[1..], FindChild(t, cur, comps[0]).value);
      }
    }
  }

  /** Looking a path up right after creating it gives the new id exactly when
      its last component is plain. */
  lemma CreateThenResolve(t: Table, t': Table, root: nat, idx: nat, comps: seq<Name>, cur: nat, slashed: bool)
    requires IsTree(t, root) && LiveDir(t, cur) && comps != []
    requires CreateDir(t, comps, cur, slashed).Some?
    requires Adds(t, t', idx, CreateDir(t, comps, cur, slashed).value, comps[|comps| - 1])
    ensures IsTree(t', root) && Live(t', cur)
    ensures ResolveFrom(t', comps, cur) == Some(idx) <==> PlainLast(comps, slashed)
  {
    var dir, name := CreateDir(t, comps, cur, slashed).value, comps[|comps| - 1];
    AddKeepsTree(t, t', root, idx, dir, name);
    if PlainLast(comps, slashed) {
      PlainCreateResolves(t, t', root, idx, comps, cur);
    } else {
      OddCreateDirResolves(t, comps, cur, slashed);
      AddKeepsPaths(t, t', root, idx, dir, name, comps, cur);
    }
  }

  // ---- removing an entry ------------------------------------------------------

  predicate Childless(t: Table, id: nat) {
    forall i | 0 <= i < MAX_ENTRIES :: Used(t[i]) ==> t[i].parent != id
  }

  lemma RemoveKeepsTree(t: Table, root: nat, id: nat)
    requires IsTree(t, root) && Live(t, id) && id != root && Childless(t, id)
    ensures IsTree(t[id := ZeroEntry()], root)
  {
    var t' := t[id := ZeroEntry()];
    assert forall i | Live(t', i) :: i != id && Live(t, i);
    assert ParentsLive(t');
    forall i | Live(t', i)
      ensures UnderRoot(t', root, i)
    {
      assert UnderRoot(t, root, i);
      var n: nat :| Up(t, i, n) == root;
      UpKept(t', t, i, n);
    }
    forall i, j | Live(t', i) && Live(t', j) && SameName(t', i, j)
      ensures i == j
    {
      assert SameName(t, i, j);
    }
  }

  lemma RemoveFindChild(t: Table, root: nat, id: nat, cur: nat, c: Name)
    requires IsTree(t, root) && Live(t, id)
    ensures var f := FindChild(t, cur, c);
            FindChild(t[id := ZeroEntry()], cur, c) == if f == Some(id) then None else f
  {
    var t' := t[id := ZeroEntry()];
    var f, f' := FindChild(t, cur, c), FindChild(t', cur, c);
    if f'.Some? {
      assert Is(t, f'.value, cur, c);
      assert SameName(t, f'.value, f.value);
    } else if f.Some? && f.value != id {
      assert Is(t', f.value, cur, c);
    }
  }

  /** Walking comps from cur stands on id at some point. */
  ghost predicate Visits(t: Table, comps: seq<Name>, cur: nat, id: nat)
    requires ParentsLive(t) && Live(t, cur)
    decreases comps
  {
    || cur == id
    || (comps != [] &&
        if comps[0] == DOT then Visits(t, comps[1..], cur, id)
        else if comps[0] == DOTDOT then Visits(t, comps[1..], t[cur].parent, id)
        else
          var child := FindChild(t, cur, comps[0]);
          child.Some? && Visits(t, comps[1..], child.value, id))
  }

  /** After a removal exactly the paths that lead over the removed entry stop resolving;
      all others lead where they led. */
  lemma {:induction false} RemoveKeepsPaths(t: Table, root: nat, id: nat, comps: seq<Name>, cur: nat)
    requires IsTree(t, root) && Live(t, id) && id != root && Childless(t, id) && Live(t, cur) && cur != id
    ensures ParentsLive(t[id := ZeroEntry()]) && Live(t[id := ZeroEntry()], cur)
    ensures ResolveFrom(t[id := ZeroEntry()], comps, cur)
         == if Visits(t, comps, cur, id) then None else ResolveFrom(t, comps, cur)
    decreases comps
  {
    RemoveKeepsTree(t, root, id);
    var t' := t[id := ZeroEntry()];
    if comps != [] {
      if comps[0] == DOT {
        RemoveKeepsPaths(t, root, id, comps[1..], cur);
      } else if comps[0] == DOTDOT {
        RemoveKeepsPaths(t, root, id, comps[1..], t[cur].parent);
      } else {
        RemoveFindChild(t, root, id, cur, comps[0]);
        var child := FindChild(t, cur, comps[0]);
        if child.Some? && child.value != id {
          RemoveKeepsPaths(t, root, id, comps[1..], child.value);
        }
      }
    }
  }

  /** Fields other than name, parent, type and use do not matter to the tree. */
  lemma TreeFrame(t: Table, t': Table, root: nat)
    requires IsTree(t, root)
    requires forall i | 0 <= i < MAX_ENTRIES ::
               t'[i].used == t[i].used && t'[i].typ == t[i].typ && t'[i].parent == t[i].parent && t'[i].name == t[i].name
    ensures IsTree(t', root)
  {
    assert forall i | Live(t', i) :: Live(t, i);
    assert ParentsLive(t');
    forall i | Live(t', i)
      ensures UnderRoot(t', root, i)
    {
      assert UnderRoot(t, root, i);
      var n: nat :| Up(t, i, n) == root;
      UpKept(t, t', i, n);
    }
    forall i, j | Live(t', i) && Live(t', j) && SameName(t', i, j)
      ensures i == j
    {
      assert SameName(t, i, j);
    }
  }
}
