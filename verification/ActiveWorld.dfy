/** The `config.json` rewrite that selects a server's active world, and the reader that reports it. */
module ActiveWorld {
  import opened Prelude
  import opened FileTree
  import opened FileSystems
  import SafeFs

  const CONFIG: Name := "config.json"
  const CONFIG_TMP: Name := "config.json.tmp"
  const MAX_SERVER_CONFIG_BYTES: nat := 1024 * 1024

  datatype Json = Null | Bool(b: bool) | Num(n: int) | Str(s: string) | Arr(items: seq<Json>)
      | Obj(members: map<string, Json>)

  /** The JSON library: printing and parsing. */
  datatype JsonText = JsonText(print_: Json -> seq<byte>, parse: seq<byte> -> Option<Json>)

  ghost predicate Faithful(j: JsonText) {
    forall v :: j.parse(j.print_(v)) == Some(v)
  }

  datatype WorldError = UnsafeName | SymlinkRefused | NotJson | NotAnObject | DefaultsNotAnObject
      | IoFailed(io: IoError)

  predicate SafeWorldName(n: string) {
    n != "" && n != "." && '/' !in n && '\\' !in n && '\0' !in n
    && forall i :: 0 <= i < |n| - 1 ==> !(n[i] == '.' && n[i + 1] == '.')
  }

  /** A safe name is a single path component without two dots in a row. */
  lemma SafeWorldNameIff(n: string)
    ensures SafeWorldName(n) <==>
            && n != "" && n != "." && (forall c :: c in n ==> c != '/' && c != '\\' && c != '\0')
            && !exists a: string, b: string :: n == a + ".." + b
  {
    if a: string, b: string :| n == a + ".." + b {
      assert n[|a|] == '.' && n[|a| + 1] == '.';
    }
    if i :| 0 <= i < |n| - 1 && n[i] == '.' && n[i + 1] == '.' {
      assert n == n[..i] + ".." + n[i + 2..];
    }
  }

  // ----- the edit -----

  function Member(v: Json, key: string): Option<Json> {
    if v.Obj? && key in v.members then Some(v.members[key]) else None
  }

  function ActiveWorldOf(v: Json): string {
    match Member(v, "Defaults")
    case None => ""
    case Some(d) =>
      match Member(d, "World")
      case Some(Str(s)) => s
      case _ => ""
  }

  /** Set `Defaults.World`, creating `Defaults` if it is missing. */
  function SetWorld(cfg: Json, world: string): Result<Json, WorldError> {
    if !cfg.Obj? then Err(NotAnObject)
    else
      var d := if "Defaults" in cfg.members then cfg.members["Defaults"] else Obj(map[]);
      if !d.Obj? then Err(DefaultsNotAnObject)
      else Ok(Obj(cfg.members["Defaults" := Obj(d.members["World" := Str(world)])]))
  }

  /** The edit reads back, touches nothing else at either level, and a second one undoes the first. */
  lemma SetWorldIsLens(cfg: Json, world: string, other: string)
    requires SetWorld(cfg, world).Ok?
    ensures
      var out := SetWorld(cfg, world).value;
      && ActiveWorldOf(out) == world
      && (forall k :: k != "Defaults" ==> Member(out, k) == Member(cfg, k))
      && Member(out, "Defaults").Some?
      && (forall k :: k != "World" && Member(cfg, "Defaults").Some? ==>
            Member(Member(out, "Defaults").value, k) == Member(Member(cfg, "Defaults").value, k))
      && SetWorld(out, other) == SetWorld(cfg, other)
  {
    var out := SetWorld(cfg, world).value;
    var d := if "Defaults" in cfg.members then cfg.members["Defaults"] else Obj(map[]);
    var d1 := d.members["World" := Str(world)];
    assert d1["World" := Str(other)] == d.members["World" := Str(other)];
    assert SetWorld(out, other).value.members == SetWorld(cfg, other).value.members;
  }

  // ----- the write -----

  method RefuseSymlink(fs: FileSystem, path: Path) returns (r: Result<(), WorldError>)
    modifies fs`trace
    ensures r.Ok? ==> !(Lookup(fs.disk.tree, path).Ok? && Lookup(fs.disk.tree, path).value.Link?)
    ensures Lookup(fs.disk.tree, path).Ok? && Lookup(fs.disk.tree, path).value.Link? ==> r.Err?
    ensures r.Err? && !fs.faults.stat ==>
              var md := Lookup(fs.disk.tree, path);
              if md.Ok? then md.value.Link? else md.error != NotFound
  {
    var md := fs.Lstat(path);
    match md {
      case Ok(node) =>
        r := if node.Link? then Err(SymlinkRefused) else Ok(());
      case Err(e) =>
        r := if e == NotFound then Ok(()) else Err(IoFailed(e));
    }
  }

  /**
   * Everything but the name `x` is as it was, that too if it is a directory, and no
   * inode that existed has other bytes.
   */
  ghost predicate OnlyName(d0: Disk, d: Disk, x: Path) {
    && SafeFs.KeepsData(d0, d) && d.tree - {x} == d0.tree - {x}
    && (IsDir(d0.tree, x) ==> IsDir(d.tree, x))
  }

  /**
   * A name in a directory leads to that directory's entry, wherever links above it
   * lead, and nowhere if there is none.
   */
  lemma LocateIn(t: Tree, dir: Path, n: Name)
    ensures
      var home := ResolveDir(t, dir);
      if home.Ok? then Locate(t, dir + [n]) == Ok(home.value + [n]) else Locate(t, dir + [n]) == Err(home.error)
  {
    ParentOfChild(dir, n);
  }

  predicate NoFaults(f: Faults) {
    !f.stat && !f.write && !f.remove
  }

  /** `tmp` is opened as a new file; `x` is the entry it names, through whatever links lead to its directory. */
  method CreateFreshTemp(fs: FileSystem, tmp: Path) returns (r: Result<nat, WorldError>)
    requires fs.Valid() && tmp != []
    modifies fs`disk, fs`trace
    ensures fs.Valid()
    ensures Locate(old(fs.disk).tree, tmp).Err? ==> r.Err? && fs.disk == old(fs.disk)
    ensures
      Locate(old(fs.disk).tree, tmp).Ok? ==>
        var d0, x := old(fs.disk), Locate(old(fs.disk).tree, tmp).value;
        && OnlyName(d0, fs.disk, x)
        && (r.Ok? ==>
              && r.value == d0.next && fs.disk.next == r.value + 1 && fs.disk.data == d0.data[r.value := []]
              && fs.disk.tree == (d0.tree - {x})[x := File(r.value)]
              && Locate(d0.tree - {x}, tmp) == Ok(x) && !IsDir(d0.tree, x))
        && (r.Err? && NoFaults(fs.faults) && !IsDir(d0.tree, x) ==>
              fs.disk == d0.(tree := d0.tree - {x}) && Locate(d0.tree - {x}, tmp).Err?)
  {
    hide WellFormed, ResolveDir, Locate;
    ghost var d0 := fs.disk;
    SafeFs.KeepsDataRefl(fs.disk);
    var md := fs.Lstat(tmp);
    if md.Err? && md.error != NotFound {
      return Err(IoFailed(md.error));
    }
    if md.Ok? {
      var gone := fs.RemoveFile(tmp);
      if gone.Err? {
        return Err(IoFailed(gone.error));
      }
      StillThere(d0.tree, tmp);
    }
    ghost var t1 := fs.disk.tree;
    assert Locate(d0.tree, tmp).Ok? ==> t1 == d0.tree - {Locate(d0.tree, tmp).value};
    var handle := fs.OpenNew(tmp);
    if handle.Err? {
      return Err(IoFailed(handle.error));
    }
    r := Ok(handle.value);
  }

  /** With its old entry gone, `tmp` names the same place or none. */
  lemma StillThere(t: Tree, tmp: Path)
    requires tmp != [] && Locate(t, tmp).Ok? && Locate(t, tmp).value in t
    ensures var x := Locate(t, tmp).value; Locate(t - {x}, tmp).Ok? ==> Locate(t - {x}, tmp) == Ok(x)
  {
    var x := Locate(t, tmp).value;
    if Locate(t - {x}, tmp).Ok? {
      ResolveDirAfterRemoving(t, x, Parent(tmp));
    }
  }

  /** `target` now is a fresh file holding `body`, and the temp name is gone. */
  ghost predicate Rewritten(d0: Disk, d: Disk, target: Path, tmp: Path, body: seq<byte>) {
    && d.tree == (d0.tree - {tmp})[target := File(d0.next)] && d0.next in d.data && d.data[d0.next] == body
    && SafeFs.KeepsData(d0, d)
  }

  /** The configuration is missing or no link and no directory, and the temp name can be taken. */
  ghost predicate Replaceable(t: Tree, dir: Path, home: Path) {
    var q, x := home + [CONFIG], home + [CONFIG_TMP];
    && (q in t ==> !t[q].Link? && !t[q].Dir?) && !IsDir(t, x)
    // the directory can still be reached with nothing at the temp name
    && ResolveDir(t - {x}, dir).Ok?
  }

  /**
   * Replace the configuration in `dir` through a fresh temp file. It succeeds
   * completely or leaves the configuration alone; wherever it stops, at most the
   * temp name differs, and no existing inode is ever written. Without faults it
   * succeeds exactly if the configuration is replaceable.
   */
  method WriteFileAtomic(fs: FileSystem, dir: Path, body: seq<byte>) returns (r: Result<(), WorldError>)
    requires fs.Valid()
    modifies fs`disk, fs`trace
    ensures fs.Valid()
    ensures ResolveDir(old(fs.disk).tree, dir).Err? ==> r.Err? && fs.disk == old(fs.disk)
    ensures
      ResolveDir(old(fs.disk).tree, dir).Ok? ==>
        var d0, home := old(fs.disk), ResolveDir(old(fs.disk).tree, dir).value;
        && (r.Ok? ==>
              && Rewritten(d0, fs.disk, home + [CONFIG], home + [CONFIG_TMP], body)
              && Replaceable(d0.tree, dir, home) && ResolveDir(fs.disk.tree, dir) == Ok(home))
        && (r.Err? ==> OnlyName(d0, fs.disk, home + [CONFIG_TMP]))
        && (r.Err? && NoFaults(fs.faults) ==> !Replaceable(d0.tree, dir, home))
        && (r.Err? && NoFaults(fs.faults) && LosesWay(d0.tree, dir, home) ==>
              fs.disk.tree == d0.tree - {home + [CONFIG_TMP]})
  {
    hide WellFormed, ResolveDir, Locate, SafeFs.KeepsData;
    ghost var d0 := fs.disk;
    var target, tmp := dir + [CONFIG], dir + [CONFIG_TMP];
    LocateIn(d0.tree, dir, CONFIG);
    LocateIn(d0.tree, dir, CONFIG_TMP);
    SafeFs.KeepsDataRefl(d0);
    var free := RefuseSymlink(fs, target);
    if free.Err? {
      return Err(free.error);
    }
    var handle := CreateFreshTemp(fs, tmp);
    if handle.Err? {
      if ResolveDir(d0.tree, dir).Ok? {
        LocateIn(d0.tree - {ResolveDir(d0.tree, dir).value + [CONFIG_TMP]}, dir, CONFIG_TMP);
      }
      return Err(handle.error);
    }
    ghost var home := ResolveDir(d0.tree, dir).value;
    ghost var q, x := home + [CONFIG], home + [CONFIG_TMP];
    assert q[|home|] != x[|home|];
    ghost var d1 := fs.disk;
    var w := fs.Write(handle.value, body);
    ghost var k :| 0 <= k <= |body| && fs.disk == AppendTo(d1, handle.value, body[..k]) && (w.Ok? ==> k == |body|);
    assert [] + body[..k] == body[..k] && body[..|body|] == body;
    ghost var d2 := fs.disk;
    WayStays(d0.tree, d2.tree, dir, home, x);
    TempFilled(d0, d2, target, q, tmp, x, body[..k]);
    var moved: Result<(), IoError> := Err(Io);
    if w.Ok? {
      moved := fs.Move(tmp, target);
    }
    if moved.Err? {
      var _ := fs.RemoveFile(tmp);
      return Err(IoFailed(moved.error));
    }
    WayAfterwards(d0.tree, fs.disk.tree, dir, home, q, x);
    r := Ok(());
  }

  /** All is well but for a link at the temp name, which the way to the directory leads over. */
  ghost predicate LosesWay(t: Tree, dir: Path, home: Path) {
    var q, x := home + [CONFIG], home + [CONFIG_TMP];
    (q in t ==> !t[q].Link? && !t[q].Dir?) && !IsDir(t, x) && ResolveDir(t - {x}, dir).Err?
  }

  /** After the temp file is made, `dir` still leads to `home`. */
  lemma WayStays(t0: Tree, t2: Tree, dir: Path, home: Path, x: Path)
    requires x == home + [CONFIG_TMP] && Locate(t0 - {x}, dir + [CONFIG_TMP]) == Ok(x)
    requires x in t2 && t2 == (t0 - {x})[x := t2[x]]
    ensures ResolveDir(t0 - {x}, dir) == Ok(home) && ResolveDir(t2, dir) == Ok(home)
    ensures Locate(t2, dir + [CONFIG]) == Ok(home + [CONFIG]) && Locate(t2, dir + [CONFIG_TMP]) == Ok(x)
  {
    LocateIn(t0 - {x}, dir, CONFIG_TMP);
    assert ResolveDir(t0 - {x}, dir).value + [CONFIG_TMP] == home + [CONFIG_TMP];
    assert ResolveDir(t0 - {x}, dir).value == home by {
      ParentOfChild(home, CONFIG_TMP);
      ParentOfChild(ResolveDir(t0 - {x}, dir).value, CONFIG_TMP);
    }
    ResolveDirAfterAdding(t0 - {x}, x, t2[x], dir);
    LocateIn(t2, dir, CONFIG);
    LocateIn(t2, dir, CONFIG_TMP);
  }

  /** And so it does with the new configuration in place, which replaced nothing a path could run through. */
  lemma WayAfterwards(t0: Tree, t3: Tree, dir: Path, home: Path, q: Path, x: Path)
    requires q != x && ResolveDir(t0 - {x}, dir) == Ok(home) && q in t3 && t3 == (t0 - {x})[q := t3[q]]
    requires q in t0 ==> !t0[q].Dir? && !t0[q].Link?
    ensures ResolveDir(t3, dir) == Ok(home)
  {
    var t1 := t0 - {x};
    assert t1 - {q} == t3 - {q};
    ResolveDirPastLeaf(t1, t3, q, dir);
  }

  /** What renaming or removing the filled temp file does. */
  lemma TempFilled(d0: Disk, d2: Disk, target: Path, q: Path, tmp: Path, x: Path, content: seq<byte>)
    requires ValidDisk(d0) && q != x && !IsDir(d0.tree, x) && Locate(d2.tree, target) == Ok(q)
             && Locate(d2.tree, tmp) == Ok(x)
    requires d2.tree == (d0.tree - {x})[x := File(d0.next)] && d2.data == d0.data[d0.next := content]
             && d2.next > d0.next
    ensures Rename(d2, tmp, target).Ok? ==>
              Rewritten(d0, Rename(d2, tmp, target).value, q, x, content) && !IsDir(d0.tree, q)
    ensures Unlink(d2, tmp).Ok? && OnlyName(d0, Unlink(d2, tmp).value, x) && OnlyName(d0, d2, x)
  {
    FreshInode(d0, d2, content);
    TempTree(d0.tree, d2.tree, x, File(d0.next));
    if Rename(d2, tmp, target).Ok? {
      assert IsDir(d2.tree, q) <==> IsDir(d0.tree, q);
    }
  }

  lemma FreshInode(d0: Disk, d2: Disk, content: seq<byte>)
    requires ValidDisk(d0) && d2.data == d0.data[d0.next := content] && d2.next > d0.next
    ensures SafeFs.KeepsData(d0, d2)
  {
    assert d0.next !in d0.data;
  }

  lemma TempTree(t0: Tree, t: Tree, x: Path, node: Node)
    requires t == (t0 - {x})[x := node]
    ensures t - {x} == t0 - {x} && (t - {x}) - {x} == t0 - {x}
  {}

  /** The bytes of the regular file at physical entry `p`. */
  function FileBytes(d: Disk, p: Path): Option<seq<byte>> {
    if p in d.tree && d.tree[p].File? && d.tree[p].ino in d.data then Some(d.data[d.tree[p].ino]) else None
  }

  /** `read_active_world`: a regular file of at most 1 MiB, else no world. */
  function ReadActiveWorld(d: Disk, dir: Path, j: JsonText): string {
    match Locate(d.tree, dir + [CONFIG])
    case Err(_) => ""
    case Ok(p) =>
      match FileBytes(d, p)
      case None => ""
      case Some(bytes) =>
        if |bytes| > MAX_SERVER_CONFIG_BYTES then ""
        else match j.parse(bytes)
          case None => ""
          case Some(v) => ActiveWorldOf(v)
  }

  /** The configuration to be written, if the present one can be read and edited. */
  function Edited(d: Disk, q: Path, world: string, j: JsonText): Option<Json> {
    if !SafeWorldName(world) || (q in d.tree && !d.tree[q].File?) then None
    else
      var before := FileBytes(d, q);
      var cfg := if before.Some? then j.parse(before.value) else Some(Obj(map[]));
      if cfg.None? then None
      else match SetWorld(cfg.value, world)
        case Ok(v) => Some(v)
        case Err(_) => None
  }

  /**
   * Write the world into the configuration. A successful call leaves the edited
   * configuration in place; without faults there is one exactly if the present
   * configuration can be edited and replaced. A failed call leaves the old one in
   * place. It also reads as before, unless a link in the temp file's place, which the
   * call removes, was on the very way to the directory: then it reads as no world.
   */
  method WriteActiveWorld(fs: FileSystem, dir: Path, world: string, j: JsonText) returns (r: Result<(), WorldError>)
    requires fs.Valid()
    modifies fs`disk, fs`trace
    ensures fs.Valid()
    ensures ResolveDir(old(fs.disk).tree, dir).Err? ==> r.Err? && fs.disk == old(fs.disk)
    ensures
      ResolveDir(old(fs.disk).tree, dir).Ok? ==>
        var d0, home := old(fs.disk), ResolveDir(old(fs.disk).tree, dir).value;
        var q, x := home + [CONFIG], home + [CONFIG_TMP];
        var edited := Edited(d0, q, world, j);
        && (r.Ok? ==>
              && edited.Some? && Replaceable(d0.tree, dir, home)
              && Rewritten(d0, fs.disk, q, x, j.print_(edited.value)) && ResolveDir(fs.disk.tree, dir) == Ok(home))
        && (r.Err? && NoFaults(fs.faults) && !fs.faults.read ==> edited.None? || !Replaceable(d0.tree, dir, home))
        && (r.Err? ==> OnlyName(d0, fs.disk, x) && FileBytes(fs.disk, q) == FileBytes(d0, q))
        && (r.Err? && (ResolveDir(d0.tree - {x}, dir).Ok? || !(x in d0.tree && d0.tree[x].Link?)) ==>
              ReadActiveWorld(fs.disk, dir, j) == ReadActiveWorld(d0, dir, j))
        && (NoFaults(fs.faults) && !fs.faults.read && edited.Some? && LosesWay(d0.tree, dir, home) ==>
              r.Err? && ReadActiveWorld(fs.disk, dir, j) == "")
  {
    hide WellFormed, ResolveDir, Locate, SafeFs.KeepsData, SetWorld, Rewritten, ReadActiveWorld;
    ghost var d0 := fs.disk;
    ghost var home := ResolveDir(d0.tree, dir);
    var path := dir + [CONFIG];
    SafeFs.KeepsDataRefl(d0);
    LocateIn(d0.tree, dir, CONFIG);
    if !SafeWorldName(world) {
      return Err(UnsafeName);
    }
    var free := RefuseSymlink(fs, path);
    if free.Err? {
      return Err(free.error);
    }
    var failing: bool := *;
    if fs.faults.read && failing {
      return Err(IoFailed(Io));
    }
    var bytes := None;
    match Lookup(fs.disk.tree, path) {
      case Ok(File(ino)) =>
        bytes := Some(fs.disk.data[ino]);
      case Ok(_) =>
        return Err(IoFailed(IsADirectory));
      case Err(e) =>
        if e != NotFound {
          return Err(IoFailed(e));
        }
    }
    var cfg := if bytes.Some? then j.parse(bytes.value) else Some(Obj(map[]));
    if cfg.None? {
      return Err(NotJson);
    }
    var edited := SetWorld(cfg.value, world);
    if edited.Err? {
      return Err(edited.error);
    }
    r := WriteFileAtomic(fs, dir, j.print_(edited.value));
    if r.Err? && home.Ok? {
      UntouchedConfig(d0, fs.disk, dir, home.value, j);
    }
  }

  lemma UntouchedConfig(d0: Disk, d: Disk, dir: Path, home: Path, j: JsonText)
    requires ValidDisk(d0) && ValidDisk(d) && ResolveDir(d0.tree, dir) == Ok(home)
             && OnlyName(d0, d, home + [CONFIG_TMP])
    ensures FileBytes(d, home + [CONFIG]) == FileBytes(d0, home + [CONFIG])
    ensures
      var x := home + [CONFIG_TMP];
      && (ResolveDir(d0.tree - {x}, dir).Ok? || !(x in d0.tree && d0.tree[x].Link?) ==>
            ReadActiveWorld(d, dir, j) == ReadActiveWorld(d0, dir, j))
      && (ResolveDir(d0.tree - {x}, dir).Err? && d.tree == d0.tree - {x} ==> ReadActiveWorld(d, dir, j) == "")
  {
    var q, x := home + [CONFIG], home + [CONFIG_TMP];
    assert q[|home|] != x[|home|];
    assert q in d.tree <==> q in d.tree - {x};
    assert q in d0.tree <==> q in d0.tree - {x};
    if q in d0.tree {
      assert (d.tree - {x})[q] == (d0.tree - {x})[q];
    }
    LocateIn(d0.tree, dir, CONFIG);
    LocateIn(d.tree, dir, CONFIG);
    SameWay(d0.tree, d.tree, dir, home, x);
  }

  /** A change at `x` alone leaves the way to `home` alone if it leads there without `x`, or if no link was at `x`. */
  lemma SameWay(t0: Tree, t: Tree, dir: Path, home: Path, x: Path)
    requires t0 - {x} == t - {x} && (IsDir(t0, x) ==> IsDir(t, x)) && ResolveDir(t0, dir) == Ok(home)
    ensures ResolveDir(t0 - {x}, dir).Ok? || !(x in t0 && t0[x].Link?) ==> ResolveDir(t, dir) == Ok(home)
  {
    if ResolveDir(t0 - {x}, dir).Ok? {
      if x in t0 {
        ResolveDirAfterRemoving(t0, x, dir);
      } else {
        assert t0 - {x} == t0;
      }
      if x in t {
        assert t == (t0 - {x})[x := t[x]];
        ResolveDirAfterAdding(t0 - {x}, x, t[x], dir);
      } else {
        assert t == t0 - {x};
      }
    } else if IsDir(t0, x) {
      assert t == (t - {x})[x := Dir] && t0 == (t0 - {x})[x := Dir];
    } else if !(x in t0 && t0[x].Link?) {
      ResolveDirPastLeaf(t0, t, x, dir);
    }
  }

  /** A server directory that is reached over a link at its own temp name. */
  function Winding(config: seq<byte>): (Disk, Path) {
    (Disk(map[[] := Dir, ["srv"] := Dir, ["srv", CONFIG] := File(0), ["srv", CONFIG_TMP] := Link([CurDir])],
          map[0 := config], 1, 0),
     ["srv", CONFIG_TMP])
  }

  lemma WindingWay(t: Tree, dir: Path)
    requires dir == ["srv", CONFIG_TMP] && IsDir(t, ["srv"]) && dir in t && t[dir] == Link([CurDir])
    ensures Canonical(t, Comps(dir)) == Ok(["srv"]) && Canonical(t - {dir}, Comps(dir)) == Err(NotFound)
  {
    var cs, t' := Comps(dir), t - {dir};
    var last := [Normal(CONFIG_TMP)];
    assert cs[0] == Normal("srv") && cs[1..] == last && last[1..] == [];
    assert [] + ["srv"] == ["srv"] && ["srv"] + [CONFIG_TMP] == dir;
    assert Walk(t, [], cs, MAX_LINKS) == Walk(t, ["srv"], last, MAX_LINKS);
    assert [CurDir] + [] == [CurDir] && [CurDir][1..] == [];
    assert Walk(t, ["srv"], last, MAX_LINKS) == Walk(t, ["srv"], [CurDir], MAX_LINKS - 1);
    assert Walk(t, ["srv"], [CurDir], MAX_LINKS - 1) == Walk(t, ["srv"], [], MAX_LINKS - 1);
    assert Walk(t', [], cs, MAX_LINKS) == Walk(t', ["srv"], last, MAX_LINKS) == Err(NotFound);
  }

  lemma WindingIsValid(config: seq<byte>)
    ensures ValidDisk(Winding(config).0)
  {
    var t := Winding(config).0.tree;
    forall p: Path | p in t && p != [] ensures IsDir(t, Parent(p)) {
      if |p| == 1 {
        assert Parent(p) == [];
      } else {
        assert Parent(p) == ["srv"];
      }
    }
  }

  /** Such a directory loses its way: the configuration reads as a world before and as none after. */
  lemma WindingLosesWay(config: seq<byte>, j: JsonText)
    requires |config| <= MAX_SERVER_CONFIG_BYTES && j.parse(config).Some?
    ensures
      var (d, dir) := Winding(config);
      && ValidDisk(d) && ResolveDir(d.tree, dir) == Ok(["srv"]) && LosesWay(d.tree, dir, ["srv"])
      && ReadActiveWorld(d, dir, j) == ActiveWorldOf(j.parse(config).value)
  {
    hide ValidDisk, Canonical, ActiveWorldOf, Comps;
    var (d, dir) := Winding(config);
    WindingIsValid(config);
    assert ["srv"] + [CONFIG_TMP] == dir && ["srv"] + [CONFIG] == ["srv", CONFIG];
    WindingWay(d.tree, dir);
    LocateIn(d.tree, dir, CONFIG);
  }

  /**
   * Reading after a successful write reports the world that was written, exactly
   * if the printed configuration is at most 1 MiB; a larger one reads as no world.
   */
  lemma ReadAfterWrite(d0: Disk, d: Disk, dir: Path, home: Path, cfg: Json, world: string, j: JsonText)
    requires Faithful(j) && SafeWorldName(world) && SetWorld(cfg, world).Ok? && ResolveDir(d.tree, dir) == Ok(home)
    requires Rewritten(d0, d, home + [CONFIG], home + [CONFIG_TMP], j.print_(SetWorld(cfg, world).value))
    ensures ReadActiveWorld(d, dir, j) == world <==> |j.print_(SetWorld(cfg, world).value)| <= 1_048_576
  {
    LocateIn(d.tree, dir, CONFIG);
    SetWorldIsLens(cfg, world, world);
    assert j.parse(j.print_(SetWorld(cfg, world).value)) == Some(SetWorld(cfg, world).value);
  }
}
