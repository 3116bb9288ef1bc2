/** `zip_tree`: the recursive walk that archives a directory. */
module ZipTree {
  import opened Prelude
  import opened FileTree
  import opened FileSystems
  import opened ExtractSpec
  import opened ArchiveNames

  /** One member of the archive being written; a directory's name ends in a slash. */
  datatype ZipItem = ZipItem(name: string, content: seq<byte>)

  /** The walk passes through `p`: it is not one of the daemon's temp names and not excluded. */
  predicate Passes(p: Path, exclude: set<Path>)
    requires p != []
  {
    !IsTempName(Last(p)) && p !in exclude
  }

  /** `p` is a directory or regular file below `top` with nothing skipped on the way. */
  ghost predicate Archived(v: View, top: Path, exclude: set<Path>, p: Path) {
    && top < p && p in v && (v[p].IDir? || v[p].IFile?)
    && forall k :: |top| < k <= |p| ==> Passes(p[..k], exclude)
  }

  /**
   * What is archived, by the names on the way: every directory and regular file
   * below `top`, unless a name of the daemon's temp form or an excluded path is on
   * its way from there.
   */
  lemma ArchivedIff(v: View, top: Path, exclude: set<Path>, p: Path)
    ensures Archived(v, top, exclude, p) <==>
            && top < p && p in v && (v[p].IDir? || v[p].IFile?)
            && (forall k :: |top| <= k < |p| ==> !exists uuid: string :: p[k] == ".tp-" + uuid + ".tmp")
            && (forall k :: |top| < k <= |p| ==> p[..k] !in exclude)
  {
    hide IsTempName;
    forall k | 0 <= k < |p| ensures Last(p[..k + 1]) == p[k] {
    }
    forall k | 0 <= k < |p| ensures IsTempName(p[k]) <==> exists uuid: string :: p[k] == ".tp-" + uuid + ".tmp" {
      TempNameIff(p[k]);
    }
    if Archived(v, top, exclude, p) {
      forall k | |top| <= k < |p| ensures !IsTempName(p[k]) {
        assert Passes(p[..k + 1], exclude);
      }
    }
    forall k | |top| < k <= |p| ensures Passes(p[..k], exclude) <==> !IsTempName(p[k - 1]) && p[..k] !in exclude {
      assert Last(p[..(k - 1) + 1]) == p[k - 1];
    }
  }

  function ItemFor(v: View, base: Path, p: Path): ZipItem
    requires p in v && base <= p
  {
    ZipItem(StoredName(p[|base|..]) + (if v[p].IDir? then "/" else ""), if v[p].IFile? then v[p].content else [])
  }

  /** `paths` holds every archived path below `top` exactly once. */
  ghost predicate Lists(paths: seq<Path>, v: View, top: Path, exclude: set<Path>) {
    && (forall i, j :: 0 <= i < j < |paths| ==> paths[i] != paths[j])
    && (forall p :: p in paths <==> Archived(v, top, exclude, p))
  }

  /** `items` are the archive members of `paths`, in order. */
  ghost predicate Renders(items: seq<ZipItem>, paths: seq<Path>, v: View, base: Path) {
    && |items| == |paths|
    && forall i :: 0 <= i < |paths| ==> paths[i] in v && base <= paths[i] && items[i] == ItemFor(v, base, paths[i])
  }

  ghost function Below(t: Tree, top: Path): set<Path> {
    set p | p in t && top < p
  }

  lemma BelowShrinks(t: Tree, top: Path, c: Path)
    requires c in t && top < c
    ensures |Below(t, c)| < |Below(t, top)|
  {
    assert c in Below(t, top) && c !in Below(t, c);
    assert Below(t, c) <= Below(t, top);
    SmallerSet(Below(t, c), Below(t, top));
  }

  lemma {:induction false} SmallerSet<T>(a: set<T>, b: set<T>)
    requires a < b
    ensures |a| < |b|
  {
    var x :| x in b && x !in a;
    var rest := b - {x};
    if a != rest {
      SmallerSet(a, rest);
    }
  }

  /** What is archived below `top` by way of its child `c`. */
  lemma ArchivedVia(v: View, top: Path, exclude: set<Path>, c: Path, p: Path)
    requires c != [] && Parent(c) == top && c in v
    ensures Archived(v, top, exclude, p) && c <= p <==>
            && Passes(c, exclude)
            && ((p == c && (v[c].IDir? || v[c].IFile?)) || Archived(v, c, exclude, p))
  {
    ParentLast(c);
    if c <= p {
      assert p[..|c|] == c && p[..|p|] == p;
    }
  }

  /** Below something that is no directory there is nothing. */
  lemma NothingInside(d: Disk, c: Path, p: Path)
    requires ValidDisk(d) && c in d.tree && !d.tree[c].Dir? && c < p
    ensures p !in d.tree
  {
    assert p[..|c|] == c;
    if p in d.tree {
      PrefixIsDir(d.tree, p, |c|);
    }
  }

  /** Progress of the loop over the children of `top`: those in `todo` are still to come. */
  ghost predicate Progress(paths: seq<Path>, v: View, top: Path, exclude: set<Path>, todo: set<Path>) {
    && (forall i, j :: 0 <= i < j < |paths| ==> paths[i] != paths[j])
    && (forall p :: p in paths <==> Archived(v, top, exclude, p) && p[..|top| + 1] !in todo)
  }

  /** Child `c` contributes `more`, and nothing else does. */
  lemma ChildDone(paths: seq<Path>, more: seq<Path>, v: View, top: Path, exclude: set<Path>, todo: set<Path>, c: Path)
    requires Progress(paths, v, top, exclude, todo) && c in todo && c != [] && Parent(c) == top && c in v
    requires forall i, j :: 0 <= i < j < |more| ==> more[i] != more[j]
    requires forall p :: p in more <==> Archived(v, top, exclude, p) && c <= p
    ensures Progress(paths + more, v, top, exclude, todo - {c})
  {
    var all := paths + more;
    forall p | Archived(v, top, exclude, p) ensures c <= p <==> p[..|top| + 1] == c {
    }
    forall i, j | 0 <= i < |paths| && 0 <= j < |more| ensures paths[i] != more[j] {
      assert paths[i] in paths && more[j] in more;
    }
    assert forall p :: p in all <==> p in paths || p in more;
  }

  lemma NothingYet(d: Disk, top: Path, exclude: set<Path>, todo: set<Path>)
    requires ValidDisk(d) && todo == set p | p in d.tree && p != [] && Parent(p) == top
    ensures Progress([], ViewOf(d), top, exclude, todo)
  {
    forall p | Archived(ViewOf(d), top, exclude, p) ensures p[..|top| + 1] in todo {
      var c := p[..|top| + 1];
      if |c| < |p| {
        PrefixIsDir(d.tree, p, |c|);
      } else {
        assert c == p;
      }
      assert Parent(c) == top;
    }
  }

  /** The paths one loop iteration adds for child `c` are exactly those archived by way of `c`. */
  lemma ChildContributes(d: Disk, top: Path, exclude: set<Path>, c: Path, more: seq<Path>, inner: seq<Path>)
    requires ValidDisk(d) && c in d.tree && c != [] && Parent(c) == top
    requires
      if !Passes(c, exclude) || d.tree[c].Link? || d.tree[c].Other? then more == []
      else if d.tree[c].Dir? then more == [c] + inner && Lists(inner, ViewOf(d), c, exclude)
      else more == [c]
    ensures forall i, j :: 0 <= i < j < |more| ==> more[i] != more[j]
    ensures forall p :: p in more <==> Archived(ViewOf(d), top, exclude, p) && c <= p
  {
    var v := ViewOf(d);
    forall p ensures p in more <==> Archived(v, top, exclude, p) && c <= p {
      ArchivedVia(v, top, exclude, c, p);
      if !d.tree[c].Dir? && c < p {
        NothingInside(d, c, p);
      }
    }
    if more != [] && d.tree[c].Dir? {
      assert !Archived(v, c, exclude, c);
      assert forall j :: 0 <= j < |inner| ==> inner[j] in inner;
    }
  }

  lemma RendersAppend(a: seq<ZipItem>, ps: seq<Path>, b: seq<ZipItem>, qs: seq<Path>, v: View, base: Path)
    requires Renders(a, ps, v, base) && Renders(b, qs, v, base)
    ensures Renders(a + b, ps + qs, v, base)
  {
    hide ItemFor;
    var items, paths := a + b, ps + qs;
    forall i | 0 <= i < |paths|
      ensures paths[i] in v && base <= paths[i] && items[i] == ItemFor(v, base, paths[i])
    {
      if i < |ps| {
        assert paths[i] == ps[i] && items[i] == a[i];
      } else {
        assert paths[i] == qs[i - |ps|] && items[i] == b[i - |ps|];
      }
    }
  }

  lemma RenderFile(d: Disk, base: Path, c: Path)
    requires ValidDisk(d) && c in d.tree && base <= c && d.tree[c].File?
    ensures Renders([ZipItem(StoredName(c[|base|..]), d.data[d.tree[c].ino])], [c], ViewOf(d), base)
  {
    assert StoredName(c[|base|..]) + "" == StoredName(c[|base|..]);
  }

  lemma RenderDir(d: Disk, base: Path, c: Path)
    requires ValidDisk(d) && IsDir(d.tree, c) && base <= c
    ensures Renders([ZipItem(StoredName(c[|base|..]) + "/", [])], [c], ViewOf(d), base)
  {}

  // ----- the writer -----

  datatype ZipError = ReadFailed(io: IoError) | DuplicateName(name: string)

  ghost predicate DistinctNames(items: seq<ZipItem>) {
    forall i, j :: 0 <= i < j < |items| ==> items[i].name != items[j].name
  }

  /** No two archived paths share a stored name. */
  ghost predicate DistinctlyNamed(v: View, base: Path, exclude: set<Path>) {
    forall p, q :: Archived(v, base, exclude, p) && Archived(v, base, exclude, q) && p != q ==>
      ItemFor(v, base, p).name != ItemFor(v, base, q).name
  }

  /** The zip writer: it refuses a second member of the same name. */
  class ZipWriter {
    var items: seq<ZipItem>

    ghost predicate Valid()
      reads this
    {
      DistinctNames(items)
    }

    constructor ()
      ensures Valid() && items == []
    {
      items := [];
    }

    method Add(item: ZipItem) returns (r: Result<(), ZipError>)
      requires Valid()
      modifies this
      ensures Valid()
      ensures r.Ok? ==> items == old(items) + [item]
      ensures r.Err? ==> items == old(items) && exists i :: 0 <= i < |items| && items[i].name == item.name
    {
      if exists i :: 0 <= i < |items| && items[i].name == item.name {
        return Err(DuplicateName(item.name));
      }
      items := items + [item];
      r := Ok(());
    }
  }

  /** `top` is where the walk may be: the base itself or an archived directory. */
  ghost predicate OnWalk(v: View, base: Path, exclude: set<Path>, top: Path) {
    top == base || Archived(v, base, exclude, top)
  }

  lemma ArchivedThrough(v: View, base: Path, exclude: set<Path>, top: Path, p: Path)
    requires OnWalk(v, base, exclude, top) && Archived(v, top, exclude, p)
    ensures Archived(v, base, exclude, p)
  {
    forall k | |base| < k <= |p| ensures Passes(p[..k], exclude) {
      if k <= |top| {
        assert p[..k] == top[..k];
      }
    }
  }

  /** The members written so far are those of `done`: archived, and not at or below `c`, whose turn it is. */
  ghost predicate Before(done: seq<Path>, v: View, base: Path, exclude: set<Path>, c: Path) {
    forall p :: p in done ==> Archived(v, base, exclude, p) && !(c <= p)
  }

  /** A refused member shows two archived paths of the same stored name. */
  lemma Refused(items: seq<ZipItem>, done: seq<Path>, v: View, base: Path, exclude: set<Path>, c: Path)
    requires Renders(items, done, v, base) && Before(done, v, base, exclude, c) && Archived(v, base, exclude, c)
    requires exists i :: 0 <= i < |items| && items[i].name == ItemFor(v, base, c).name
    ensures !DistinctlyNamed(v, base, exclude)
  {
    var i :| 0 <= i < |items| && items[i].name == ItemFor(v, base, c).name;
    assert done[i] in done;
  }

  lemma RenderedDistinct(items: seq<ZipItem>, paths: seq<Path>, v: View, base: Path, exclude: set<Path>)
    requires DistinctNames(items) && Renders(items, paths, v, base) && Lists(paths, v, base, exclude)
    ensures DistinctlyNamed(v, base, exclude)
  {
    hide ItemFor, Archived;
    forall p, q | Archived(v, base, exclude, p) && Archived(v, base, exclude, q) && p != q
      ensures p in v && q in v && base <= p && base <= q && ItemFor(v, base, p).name != ItemFor(v, base, q).name
    {
      var i :| 0 <= i < |paths| && paths[i] == p;
      var j :| 0 <= j < |paths| && paths[j] == q;
      assert items[i].name != items[j].name;
    }
  }

  /** Names without backslashes never collide. */
  lemma PlainDistinct(v: View, base: Path, exclude: set<Path>)
    requires forall p :: Archived(v, base, exclude, p) ==>
               forall i :: |base| <= i < |p| ==> OsName(p[i]) && PlainName(p[i])
    ensures DistinctlyNamed(v, base, exclude)
  {
    hide OsName, PlainName, EnclosedName, Comps, ItemFor, Passes;
    forall p, q | Archived(v, base, exclude, p) && Archived(v, base, exclude, q) && p != q
      ensures ItemFor(v, base, p).name != ItemFor(v, base, q).name
    {
      ArchivedReturns(v, base, exclude, p);
      ArchivedReturns(v, base, exclude, q);
      var r, s := p[|base|..], q[|base|..];
      assert base + r == p && base + s == q;
      if ItemFor(v, base, p).name == ItemFor(v, base, q).name {
        CompsInjective(r, s);
      }
    }
  }

  lemma ArchivedReturns(v: View, base: Path, exclude: set<Path>, p: Path)
    requires Archived(v, base, exclude, p) && forall i :: |base| <= i < |p| ==> OsName(p[i]) && PlainName(p[i])
    ensures EnclosedName(ItemFor(v, base, p).name) == Some(Comps(p[|base|..]))
  {
    hide OsName, PlainName, StoredName, EnclosedName;
    var r := p[|base|..];
    assert forall i :: 0 <= i < |r| ==> r[i] == p[|base| + i];
    PlainNameReturns(r, v[p].IDir?);
  }

  lemma CompsInjective(p: Path, q: Path)
    requires Comps(p) == Comps(q)
    ensures p == q
  {
    forall i | 0 <= i < |p| ensures p[i] == q[i] {
      assert Comps(p)[i] == Normal(p[i]) && Comps(q)[i] == Normal(q[i]);
    }
  }

  // ----- the walk -----

  /** Add child `c` of `current` and what is archived below it, if anything. */
  method ZipChild(writer: ZipWriter, fs: FileSystem, base: Path, current: Path, c: Path, exclude: set<Path>,
                  ghost done: seq<Path>)
    returns (r: Result<(), ZipError>, ghost more: seq<Path>)
    requires fs.Valid() && base <= current && c in fs.disk.tree && c != [] && Parent(c) == current
    requires OnWalk(ViewOf(fs.disk), base, exclude, current)
    requires writer.Valid() && Renders(writer.items, done, ViewOf(fs.disk), base)
    requires Before(done, ViewOf(fs.disk), base, exclude, c)
    modifies writer
    ensures writer.Valid()
    ensures r.Ok? ==>
              && (forall i, j :: 0 <= i < j < |more| ==> more[i] != more[j])
              && (forall p :: p in more <==> Archived(ViewOf(fs.disk), current, exclude, p) && c <= p)
              && Renders(writer.items, done + more, ViewOf(fs.disk), base)
    ensures r.Err? ==> fs.faults.read || !DistinctlyNamed(ViewOf(fs.disk), base, exclude)
    decreases |Below(fs.disk.tree, current)|, 0
  {
    hide Archived, WellFormed, StoredName, DistinctNames, DistinctlyNamed, Renders;
    more := [];
    var failing: bool := *;
    if fs.faults.read && failing {
      return Err(ReadFailed(Io)), more;
    }
    ParentLast(c);
    ghost var v := ViewOf(fs.disk);
    ghost var inner: seq<Path> := [];
    var node := fs.disk.tree[c];
    assert done + [] == done;
    if !node.Link? && Passes(c, exclude) && (node.Dir? || node.File?) {
      var rel := StoredName(c[|base|..]);
      var item := if node.Dir? then ZipItem(rel + "/", []) else ZipItem(rel, fs.disk.data[node.ino]);
      ChildRenders(fs.disk, base, current, exclude, c, item);
      ghost var items0 := writer.items;
      r := writer.Add(item);
      if r.Err? {
        Refused(items0, done, v, base, exclude, c);
        return;
      }
      RendersAppend(items0, done, [item], [c], v, base);
      more := [c];
      if node.Dir? {
        BelowShrinks(fs.disk.tree, current, c);
        BeforeInside(done, v, base, exclude, c);
        r, inner := ZipTree(writer, fs, base, c, exclude, done + [c]);
        if r.Err? {
          return;
        }
        more := [c] + inner;
        assert done + [c] + inner == done + more;
      }
    }
    ChildContributes(fs.disk, current, exclude, c, more, inner);
    r := Ok(());
  }

  lemma ChildRenders(d: Disk, base: Path, current: Path, exclude: set<Path>, c: Path, item: ZipItem)
    requires ValidDisk(d) && base <= current && c in d.tree && c != [] && Parent(c) == current
    requires OnWalk(ViewOf(d), base, exclude, current) && Passes(c, exclude)
    requires
      var rel := StoredName(c[|base|..]);
      if d.tree[c].Dir? then item == ZipItem(rel + "/", [])
      else d.tree[c].File? && item == ZipItem(rel, d.data[d.tree[c].ino])
    ensures Archived(ViewOf(d), base, exclude, c) && item == ItemFor(ViewOf(d), base, c)
    ensures Renders([item], [c], ViewOf(d), base)
  {
    ParentLast(c);
    ArchivedVia(ViewOf(d), current, exclude, c, c);
    ArchivedThrough(ViewOf(d), base, exclude, current, c);
    if d.tree[c].File? {
      RenderFile(d, base, c);
    } else {
      RenderDir(d, base, c);
    }
  }

  lemma BeforeInside(done: seq<Path>, v: View, base: Path, exclude: set<Path>, c: Path)
    requires Before(done, v, base, exclude, c) && Archived(v, base, exclude, c)
    ensures forall p :: p in done + [c] ==> Archived(v, base, exclude, p) && !(c < p)
  {}

  /** The next child's members come after those of `done` and of its earlier siblings. */
  lemma BeforeNext(done: seq<Path>, paths: seq<Path>, v: View, base: Path, exclude: set<Path>, current: Path,
                   todo: set<Path>, c: Path)
    requires OnWalk(v, base, exclude, current) && c in todo && c != [] && Parent(c) == current
    requires forall p :: p in done ==> Archived(v, base, exclude, p) && !(current < p)
    requires Progress(paths, v, current, exclude, todo)
    ensures Before(done + paths, v, base, exclude, c)
  {
    assert current < c && c[..|current| + 1] == c;
    forall p | p in done + paths ensures Archived(v, base, exclude, p) && !(c <= p) {
      if p in paths {
        ArchivedThrough(v, base, exclude, current, p);
        assert p[..|current| + 1] != c;
      }
    }
  }

  /**
   * Add everything archived below `current` to the writer, one member per path;
   * `done` names the paths behind the members already written, `paths` those
   * behind the new ones. Two paths that differ only in `\` and `/` share a stored
   * name, which the writer refuses.
   */
  method ZipTree(writer: ZipWriter, fs: FileSystem, base: Path, current: Path, exclude: set<Path>,
                 ghost done: seq<Path>)
    returns (r: Result<(), ZipError>, ghost paths: seq<Path>)
    requires fs.Valid() && base <= current && OnWalk(ViewOf(fs.disk), base, exclude, current)
    requires writer.Valid() && Renders(writer.items, done, ViewOf(fs.disk), base)
    requires forall p :: p in done ==> Archived(ViewOf(fs.disk), base, exclude, p) && !(current < p)
    modifies writer
    ensures writer.Valid()
    ensures r.Ok? ==>
              && IsDir(fs.disk.tree, current)
              && Lists(paths, ViewOf(fs.disk), current, exclude)
              && Renders(writer.items, done + paths, ViewOf(fs.disk), base)
    ensures r.Err? ==>
              fs.faults.read || !IsDir(fs.disk.tree, current) || !DistinctlyNamed(ViewOf(fs.disk), base, exclude)
    decreases |Below(fs.disk.tree, current)|, 1
  {
    hide Archived, WellFormed, ItemFor, DistinctNames, DistinctlyNamed, Renders, OnWalk;
    paths := [];
    if !IsDir(fs.disk.tree, current) {
      return Err(ReadFailed(if current in fs.disk.tree then NotADirectory else NotFound)), paths;
    }
    ghost var v := ViewOf(fs.disk);
    var todo := set p | p in fs.disk.tree && p != [] && Parent(p) == current;
    NothingYet(fs.disk, current, exclude, todo);
    assert done + [] == done;
    while todo != {}
      invariant forall p :: p in todo ==> p in fs.disk.tree && p != [] && Parent(p) == current
      invariant Progress(paths, v, current, exclude, todo)
      invariant writer.Valid() && Renders(writer.items, done + paths, v, base)
      decreases |todo|
    {
      var c :| c in todo;
      BeforeNext(done, paths, v, base, exclude, current, todo, c);
      ghost var more;
      r, more := ZipChild(writer, fs, base, current, c, exclude, done + paths);
      if r.Err? {
        return;
      }
      ChildDone(paths, more, v, current, exclude, todo, c);
      assert done + paths + more == done + (paths + more);
      paths := paths + more;
      todo := todo - {c};
    }
    r := Ok(());
  }
}
