/**
 * `safe_fs`: temp-and-rename writes, link-refusing directory chains and archive
 * extraction with a byte budget and a rollback log.
 */
module SafeFs {
  import opened Prelude
  import opened FileTree
  import opened FileSystems
  import opened ExtractSpec

  const TEMP_ATTEMPTS: nat := 8

  ghost predicate KeepsData(d0: Disk, d: Disk) {
    && d0.next <= d.next
    && forall i :: i in d0.data ==> i in d.data && d.data[i] == d0.data[i]
  }

  lemma KeepsDataRefl(d: Disk)
    ensures KeepsData(d, d)
  {}

  /**
   * Nothing but names strictly below `base` differs, no inode that existed in
   * `d0` has other bytes, and every link is one that was there before.
   */
  ghost predicate Confined(d0: Disk, d: Disk, base: Path) {
    && (forall p :: !(base < p) ==> (p in d0.tree <==> p in d.tree))
    && (forall p :: !(base < p) && p in d0.tree && p in d.tree ==> d.tree[p] == d0.tree[p])
    && KeepsData(d0, d)
    && (forall p :: p in d.tree && d.tree[p].Link? ==> p in d0.tree && d0.tree[p] == d.tree[p])
  }

  /** The disk after a complete temp-and-rename write of `content` at physical entry `q`. */
  function Installed(d: Disk, q: Path, content: seq<byte>): Disk {
    Disk(d.tree[q := File(d.next)], d.data[d.next := content], d.next + 1, d.written + |content|)
  }

  /** The entry `target` names, which is no directory, now is a fresh file holding `content`. */
  ghost predicate Replaced(d0: Disk, d: Disk, target: Path, content: seq<byte>) {
    && Locate(d0.tree, target).Ok? && !IsDir(d0.tree, Locate(d0.tree, target).value)
    && d == Installed(d0, Locate(d0.tree, target).value, content)
  }

  /** A temp file that could not be removed, next to the entry `target` names. */
  ghost predicate LeftTemp(t0: Tree, t1: Tree, target: Path, x: Path) {
    && Locate(t0, target).Ok? && Locate(t0, target).value != []
    && x != [] && x !in t0 && Parent(x) == Parent(Locate(t0, target).value) && IsTempName(Last(x))
    && x in t1 && t1[x].File? && t1 == t0[x := t1[x]]
  }

  /** Outcome of a write that failed: the names are as before, or one temp file is left because removal failed too. */
  ghost predicate Abandoned(d0: Disk, d: Disk, target: Path, mayLeave: bool) {
    && KeepsData(d0, d)
    && (d.tree == d0.tree || (mayLeave && exists x :: LeftTemp(d0.tree, d.tree, target, x)))
  }

  // ---------------------------------------------------------------------
  // What the trace tells
  // ---------------------------------------------------------------------

  /** Nothing was added to the trace but `lstat`s on which nothing hangs. */
  ghost predicate Silent(tr: seq<Call>, tr': seq<Call>) {
    tr <= tr' && forall i :: |tr| <= i < |tr'| ==> tr'[i].Asked? && !tr'[i].deciding
  }

  /** The same, and then `target` was renamed over. */
  ghost predicate EndsInRename(tr: seq<Call>, tr': seq<Call>, target: Path) {
    && |tr| < |tr'| && tr <= tr' && tr'[|tr'| - 1] == Renamed(target)
    && forall i :: |tr| <= i < |tr'| - 1 ==> tr'[i].Asked? && !tr'[i].deciding
  }

  /** A deciding `lstat` that gave an error, so that its path counts as new. */
  predicate Missed(c: Call) {
    c.Asked? && c.deciding && c.answer.Err?
  }

  /** From call `from` on, `p` was taken for new and then written. */
  ghost predicate TakenForNew(tr: seq<Call>, from: nat, p: Path) {
    exists i, j :: from <= i < j < |tr| && Missed(tr[i]) && tr[i].path == p && tr[j] == Renamed(p)
  }

  /** Every path taken for new has been written. */
  ghost predicate Settled(tr: seq<Call>, from: nat) {
    forall i :: from <= i < |tr| && Missed(tr[i]) ==> exists j :: i < j < |tr| && tr[j] == Renamed(tr[i].path)
  }

  /** `files` are the paths taken for new and written. */
  ghost predicate Records(tr: seq<Call>, from: nat, files: seq<Path>) {
    forall p :: p in files <==> TakenForNew(tr, from, p)
  }

  /** The names of `t0` that were taken for new, because the `lstat` on them failed, and written. */
  ghost function Misjudged(tr: seq<Call>, from: nat, t0: Tree): set<Path> {
    set p | p in t0 && TakenForNew(tr, from, p)
  }

  lemma SilentTrans(tr: seq<Call>, tr': seq<Call>, tr'': seq<Call>)
    ensures Silent(tr, tr)
    ensures Silent(tr, tr') && Silent(tr', tr'') ==> Silent(tr, tr'')
    ensures Silent(tr, tr') && (exists t, p, r :: tr'' == tr' + [Asked(t, p, r, false)]) ==> Silent(tr, tr'')
  {}

  lemma SilentRecords(tr: seq<Call>, tr': seq<Call>, from: nat, files: seq<Path>)
    requires Silent(tr, tr') && from <= |tr| && Settled(tr, from) && Records(tr, from, files)
    ensures tr <= tr' && Settled(tr', from) && Records(tr', from, files)
  {
    forall p ensures TakenForNew(tr', from, p) <==> TakenForNew(tr, from, p) {
      if TakenForNew(tr, from, p) {
        var i, j :| from <= i < j < |tr| && Missed(tr[i]) && tr[i].path == p && tr[j] == Renamed(p);
        assert Missed(tr'[i]) && tr'[j] == Renamed(p);
      }
      if TakenForNew(tr', from, p) {
        var i, j :| from <= i < j < |tr'| && Missed(tr'[i]) && tr'[i].path == p && tr'[j] == Renamed(p);
        assert Missed(tr[i]) && tr[j] == Renamed(p);
      }
    }
    forall i | from <= i < |tr'| && Missed(tr'[i]) ensures exists j :: i < j < |tr'| && tr'[j] == Renamed(tr'[i].path) {
      assert Missed(tr[i]);
      var j :| i < j < |tr| && tr[j] == Renamed(tr[i].path);
      assert tr'[j] == Renamed(tr'[i].path);
    }
  }

  /** A deciding `lstat` whose write does not come about records nothing. */
  lemma FailedRecords(tr: seq<Call>, c: Call, tr': seq<Call>, from: nat, files: seq<Path>)
    requires c.Asked? && Silent(tr + [c], tr') && from <= |tr| && Records(tr, from, files)
    ensures Records(tr', from, files)
  {
    forall p ensures TakenForNew(tr', from, p) <==> TakenForNew(tr, from, p) {
      if TakenForNew(tr, from, p) {
        var i, j :| from <= i < j < |tr| && Missed(tr[i]) && tr[i].path == p && tr[j] == Renamed(p);
        assert Missed(tr'[i]) && tr'[j] == Renamed(p);
      }
      if TakenForNew(tr', from, p) {
        var i, j :| from <= i < j < |tr'| && Missed(tr'[i]) && tr'[i].path == p && tr'[j] == Renamed(p);
        assert tr'[|tr|] == c;
        assert Missed(tr[i]) && tr[j] == Renamed(p);
      }
    }
  }

  /** One whose write does records its path exactly if it gave an error. */
  lemma WrittenRecords(tr: seq<Call>, c: Call, tr': seq<Call>, from: nat, files: seq<Path>)
    requires c.Asked? && c.deciding && EndsInRename(tr + [c], tr', c.path) && from <= |tr|
    requires Settled(tr, from) && Records(tr, from, files)
    ensures Settled(tr', from) && Records(tr', from, if c.answer.Err? then files + [c.path] else files)
  {
    var files' := if c.answer.Err? then files + [c.path] else files;
    var last := |tr'| - 1;
    assert tr'[|tr|] == c && tr'[last] == Renamed(c.path);
    forall p ensures p in files' <==> TakenForNew(tr', from, p) {
      if p in files {
        var i, j :| from <= i < j < |tr| && Missed(tr[i]) && tr[i].path == p && tr[j] == Renamed(p);
        assert Missed(tr'[i]) && tr'[j] == Renamed(p);
      }
      if c.answer.Err? && p == c.path {
        assert Missed(tr'[|tr|]) && tr'[last] == Renamed(p);
      }
      if TakenForNew(tr', from, p) {
        var i, j :| from <= i < j < |tr'| && Missed(tr'[i]) && tr'[i].path == p && tr'[j] == Renamed(p);
        if i < |tr| {
          assert Missed(tr[i]);
          var k :| i < k < |tr| && tr[k] == Renamed(tr[i].path);
          assert TakenForNew(tr, from, p);
        }
      }
    }
    forall i | from <= i < |tr'| && Missed(tr'[i]) ensures exists j :: i < j < |tr'| && tr'[j] == Renamed(tr'[i].path) {
      if i < |tr| {
        assert Missed(tr[i]);
        var j :| i < j < |tr| && tr[j] == Renamed(tr[i].path);
        assert tr'[j] == Renamed(tr'[i].path);
      } else {
        assert i == |tr|;
      }
    }
  }

  // ---------------------------------------------------------------------
  // Atomic writes
  // ---------------------------------------------------------------------

  method CreateTemp(fs: FileSystem, target: Path) returns (r: Result<(Path, nat), IoError>)
    requires fs.Valid()
    modifies fs`disk
    ensures fs.Valid()
    ensures r.Ok? ==>
              && target != [] && r.value.0 != []
              && Parent(r.value.0) == Parent(target) && IsTempName(Last(r.value.0))
              && CreateNew(old(fs.disk), r.value.0) == Ok(fs.disk)
              && r.value.1 == old(fs.disk).next && r.value.1 in fs.disk.data && fs.disk.written == old(fs.disk).written
    ensures r.Err? ==> fs.disk == old(fs.disk)
    ensures r.Err? && !fs.faults.write && target != [] && Locate(fs.disk.tree, target).Ok? ==> r.error == NoTempName
  {
    if target == [] {
      return Err(InvalidInput);
    }
    var dir := Parent(target);
    var tries := 0;
    while tries < TEMP_ATTEMPTS
      invariant fs.Valid() && fs.disk == old(fs.disk)
    {
      var uuid: string := *;
      var tmp := dir + [TempName(uuid)];
      ParentOfChild(dir, TempName(uuid));
      TempNameIsTemp(uuid);
      var handle := fs.OpenNew(tmp);
      match handle {
        case Ok(ino) =>
          return Ok((tmp, ino));
        case Err(e) =>
          if e != AlreadyExists {
            return Err(e);
          }
      }
      tries := tries + 1;
    }
    r := Err(NoTempName);
  }

  method Commit(fs: FileSystem, tmp: Path, target: Path) returns (r: Result<(), IoError>)
    requires fs.Valid()
    modifies fs`disk, fs`trace
    ensures fs.Valid()
    ensures if r.Ok? then EndsInRename(old(fs.trace), fs.trace, target) else Silent(old(fs.trace), fs.trace)
    ensures r.Ok? ==> Rename(old(fs.disk), tmp, target) == Ok(fs.disk)
    ensures r.Err? ==>
              exists u: Result<(), IoError> ::
                Did(old(fs.disk), fs.disk, u, Unlink(old(fs.disk), tmp), fs.faults.remove)
    ensures r.Err? && !fs.faults.write ==>
              Lookup(old(fs.disk).tree, target) == Ok(Dir) || Rename(old(fs.disk), tmp, target).Err?
  {
    var md := fs.Lstat(target);
    if md == Ok(Dir) {
      r := Err(InvalidInput);
    } else {
      r := fs.Move(tmp, target);
    }
    if r.Err? {
      var u := fs.RemoveFile(tmp);
    }
  }

  /** `Rename(tmp, target)` and `Unlink(tmp)` right after `tmp` was created next to `target` and filled. */
  lemma TempOutcomes(d0: Disk, d1: Disk, tmp: Path, target: Path, content: seq<byte>)
    requires ValidDisk(d0) && tmp != [] && target != [] && Parent(tmp) == Parent(target)
    requires CreateNew(d0, tmp).Ok? && d1 == AppendTo(CreateNew(d0, tmp).value, d0.next, content)
    ensures Locate(d0.tree, tmp).Ok? && Locate(d0.tree, target).Ok? && Locate(d0.tree, target).value != []
    ensures Lookup(d1.tree, target) == Ok(Dir) || Rename(d1, tmp, target).Err? ==> Lookup(d0.tree, target) == Ok(Dir)
    ensures
      var q := Locate(d0.tree, target).value;
      && (Rename(d1, tmp, target).Ok? <==> !IsDir(d0.tree, q))
      && (Rename(d1, tmp, target).Ok? ==> Replaced(d0, Rename(d1, tmp, target).value, target, content))
      && (Rename(d1, tmp, target).Ok? ==> Rename(d1, tmp, target).value.written == d0.written + |content|)
    ensures Unlink(d1, tmp).Ok? && Unlink(d1, tmp).value.tree == d0.tree
    ensures KeepsData(d0, d1) && Unlink(d1, tmp).value.data == d1.data && Unlink(d1, tmp).value.next == d1.next
    ensures IsTempName(Last(tmp)) ==> LeftTemp(d0.tree, d1.tree, target, Locate(d0.tree, tmp).value)
  {
    var dir := ResolveDir(d0.tree, Parent(target)).value;
    var x, q := Locate(d0.tree, tmp).value, Locate(d0.tree, target).value;
    ParentOfChild(dir, Last(tmp));
    ParentOfChild(dir, Last(target));
    ResolveDirAfterAdding(d0.tree, x, File(d0.next), Parent(target));
    assert d1.tree == d0.tree[x := File(d0.next)];
    assert Locate(d1.tree, tmp) == Ok(x) && Locate(d1.tree, target) == Ok(q);
    assert d1.tree - {x} == d0.tree;
    assert d1.data[d0.next] == content;
    if x != q {
      assert IsDir(d1.tree, q) <==> IsDir(d0.tree, q);
      assert (d1.tree - {x})[q := File(d0.next)] == d0.tree[q := File(d0.next)];
    }
  }

  lemma TempRemoved(d0: Disk, d1: Disk, d2: Disk, u: Result<(), IoError>, tmp: Path, target: Path, mayFail: bool)
    requires tmp != [] && IsTempName(Last(tmp)) && KeepsData(d0, d1) && Locate(d0.tree, tmp).Ok?
    requires Unlink(d1, tmp).Ok? && Unlink(d1, tmp).value.tree == d0.tree
    requires Unlink(d1, tmp).value.data == d1.data && Unlink(d1, tmp).value.next == d1.next
    requires LeftTemp(d0.tree, d1.tree, target, Locate(d0.tree, tmp).value)
    requires Did(d1, d2, u, Unlink(d1, tmp), mayFail)
    ensures Abandoned(d0, d2, target, mayFail) && d2.written == d1.written
  {}

  method WriteAtomic(fs: FileSystem, target: Path, e: ZipEntry, budget: u64) returns (r: Result<nat, IoError>)
    requires fs.Valid()
    modifies fs`disk, fs`trace
    ensures fs.Valid()
    ensures if r.Ok? then EndsInRename(old(fs.trace), fs.trace, target) else Silent(old(fs.trace), fs.trace)
    ensures r.Ok? ==> FillResult(e, budget) == Ok(r.value) && Replaced(old(fs.disk), fs.disk, target, Copied(e, budget))
    ensures r.Err? ==> Abandoned(old(fs.disk), fs.disk, target, fs.faults.remove)
    ensures fs.disk.written <= old(fs.disk).written + |Copied(e, budget)|
    ensures r.Err? && !fs.faults.write && target != [] && Locate(old(fs.disk).tree, target).Ok? ==>
              r.error == NoTempName || Lookup(old(fs.disk).tree, target) == Ok(Dir) || FillResult(e, budget).Err?
  {
    hide WellFormed, Copied, FillResult, LeftTemp, Locate, CreateNew, Rename, Unlink, KeepsData, Replaced;
    ghost var d0 := fs.disk;
    var md := fs.Lstat(target);
    assert KeepsData(d0, d0) by { KeepsDataRefl(d0); }
    if md == Ok(Dir) {
      return Err(InvalidInput);
    }
    var handle := CreateTemp(fs, target);
    if handle.Err? {
      return Err(handle.error);
    }
    var (tmp, ino) := handle.value;
    var copied := Copied(e, budget);
    var w := fs.Write(ino, copied);
    ghost var d1 := fs.disk;
    ghost var k :| 0 <= k <= |copied| && d1 == AppendTo(CreateNew(d0, tmp).value, ino, copied[..k])
        && (w.Ok? ==> k == |copied|);
    assert k == |copied| ==> copied[..k] == copied;
    TempOutcomes(d0, d1, tmp, target, copied[..k]);
    var filled: Result<nat, IoError> := if w.Err? then Err(w.error) else FillResult(e, budget);
    if filled.Err? {
      var u := fs.RemoveFile(tmp);
      TempRemoved(d0, d1, fs.disk, u, tmp, target, fs.faults.remove);
      return Err(filled.error);
    }
    var done := Commit(fs, tmp, target);
    if done.Err? {
      ghost var u :| Did(d1, fs.disk, u, Unlink(d1, tmp), fs.faults.remove);
      TempRemoved(d0, d1, fs.disk, u, tmp, target, fs.faults.remove);
      return Err(done.error);
    }
    r := Ok(filled.value);
  }

  // ---------------------------------------------------------------------
  // The rollback log
  // ---------------------------------------------------------------------

  ghost predicate ParentsFirst(dirs: seq<Path>) {
    forall i, j :: 0 <= i < j < |dirs| ==> !(dirs[j] <= dirs[i])
  }

  ghost predicate Distinct(ps: seq<Path>) {
    forall i, j :: 0 <= i < j < |ps| ==> ps[i] != ps[j]
  }

  /** Names that existed still exist, and what was a directory, and only that, is one. */
  ghost predicate NamesKept(t0: Tree, t: Tree) {
    forall p :: p in t0 ==> p in t && (t0[p].Dir? <==> t[p].Dir?)
  }

  ghost predicate DirLog(t0: Tree, t: Tree, base: Path, dirs: seq<Path>) {
    && (forall i :: 0 <= i < |dirs| ==> base < dirs[i] && IsDir(t, dirs[i]) && dirs[i] !in t0)
    && ParentsFirst(dirs)
  }

  ghost predicate FileLog(t0: Tree, t: Tree, base: Path, files: seq<Path>, exact: bool) {
    && (forall i :: 0 <= i < |files| ==> base < files[i] && files[i] in t && !t[files[i]].Dir?)
    && (exact ==> Distinct(files) && forall i :: 0 <= i < |files| ==> files[i] !in t0)
  }

  ghost predicate Accounted(t0: Tree, t: Tree, files: seq<Path>, dirs: seq<Path>) {
    forall p :: p in t ==> p in t0 || p in files || p in dirs
  }

  /**
   * What holds between any two steps of an extraction below `base` that started
   * on `d0`: `files` and `dirs` are the names it has added.
   */
  ghost predicate Logged(d0: Disk, d: Disk, base: Path, files: seq<Path>, dirs: seq<Path>, faults: Faults) {
    && ValidDisk(d0) && ValidDisk(d) && Confined(d0, d, base)
    && base in d.tree && !d.tree[base].Link?
    && NamesKept(d0.tree, d.tree)
    && DirLog(d0.tree, d.tree, base, dirs)
    && FileLog(d0.tree, d.tree, base, files, !faults.stat)
    && (!faults.remove ==> Accounted(d0.tree, d.tree, files, dirs))
  }

  lemma LoggedStart(d: Disk, base: Path, faults: Faults)
    requires ValidDisk(d) && base in d.tree && !d.tree[base].Link?
    ensures Logged(d, d, base, [], [], faults)
  {}

  lemma BelowBase(base: Path, p: Path)
    requires p != [] && base <= Parent(p)
    ensures base < p
  {}

  /** Adding an entry, or replacing a file by a file, keeps both logs true. */
  lemma LogsSurvive(t0: Tree, t: Tree, q: Path, node: Node, base: Path, files: seq<Path>, dirs: seq<Path>, exact: bool)
    requires NamesKept(t0, t) && DirLog(t0, t, base, dirs) && FileLog(t0, t, base, files, exact)
    requires q in t ==> (t[q].Dir? <==> node.Dir?)
    ensures NamesKept(t0, t[q := node])
    ensures DirLog(t0, t[q := node], base, dirs) && FileLog(t0, t[q := node], base, files, exact)
  {}

  lemma DirLogAppend(t0: Tree, t: Tree, base: Path, dirs: seq<Path>, p: Path)
    requires WellFormed(t) && NamesKept(t0, t) && DirLog(t0, t, base, dirs)
    requires base < p && p !in t
    ensures DirLog(t0, t[p := Dir], base, dirs + [p])
  {
    var dirs' := dirs + [p];
    forall i, j | 0 <= i < j < |dirs'| ensures !(dirs'[j] <= dirs'[i]) {
      if j == |dirs| {
        NothingBelowMissing(t, p, dirs[i]);
      }
    }
  }

  lemma FileLogAppend(t0: Tree, t: Tree, base: Path, files: seq<Path>, exact: bool, q: Path, node: Node)
    requires NamesKept(t0, t) && FileLog(t0, t, base, files, exact)
    requires base < q && !IsDir(t, q) && !node.Dir? && (exact ==> q !in t)
    ensures FileLog(t0, t[q := node], base, files + [q], exact)
  {}

  lemma AccountedAppend(t0: Tree, t: Tree, files: seq<Path>, dirs: seq<Path>, q: Path, node: Node)
    requires Accounted(t0, t, files, dirs)
    ensures Accounted(t0, t[q := node], files + [q], dirs)
    ensures Accounted(t0, t[q := node], files, dirs + [q])
    ensures q in t ==> Accounted(t0, t[q := node], files, dirs)
  {
    assert forall p :: p in files + [q] <==> p in files || p == q;
    assert forall p :: p in dirs + [q] <==> p in dirs || p == q;
  }

  lemma LoggedMkDir(d0: Disk, d: Disk, base: Path, files: seq<Path>, dirs: seq<Path>, faults: Faults, p: Path)
    requires Logged(d0, d, base, files, dirs, faults)
    requires p != [] && base < p && IsDir(d.tree, Parent(p)) && p !in d.tree
    ensures Logged(d0, d.(tree := d.tree[p := Dir]), base, files, dirs + [p], faults)
  {
    AddEntryValid(d.tree, p, Dir);
    LogsSurvive(d0.tree, d.tree, p, Dir, base, files, dirs, !faults.stat);
    DirLogAppend(d0.tree, d.tree, base, dirs, p);
    if !faults.remove {
      AccountedAppend(d0.tree, d.tree, files, dirs, p, Dir);
    }
  }

  lemma InstallConfined(d0: Disk, d: Disk, base: Path, q: Path, content: seq<byte>)
    requires ValidDisk(d0) && ValidDisk(d) && Confined(d0, d, base) && base < q
    ensures Confined(d0, Installed(d, q, content), base)
  {
    assert d.next !in d.data;
  }

  lemma InstallValid(d: Disk, q: Path, content: seq<byte>)
    requires ValidDisk(d) && q != [] && IsDir(d.tree, Parent(q)) && !IsDir(d.tree, q)
    ensures ValidDisk(Installed(d, q, content))
  {
    AddEntryValid(d.tree, q, File(d.next));
  }

  /** A completed write keeps the log true, recorded if the name was free. */
  lemma LoggedInstall(d0: Disk, d: Disk, base: Path, files: seq<Path>, dirs: seq<Path>, faults: Faults,
                      q: Path, content: seq<byte>, recorded: bool)
    requires Logged(d0, d, base, files, dirs, faults)
    requires q != [] && base < q && IsDir(d.tree, Parent(q)) && !IsDir(d.tree, q)
    requires q !in d.tree ==> recorded
    requires !faults.stat && recorded ==> q !in d.tree
    ensures Logged(d0, Installed(d, q, content), base, if recorded then files + [q] else files, dirs, faults)
  {
    var node := File(d.next);
    InstallValid(d, q, content);
    InstallConfined(d0, d, base, q, content);
    LogsSurvive(d0.tree, d.tree, q, node, base, files, dirs, !faults.stat);
    if recorded {
      FileLogAppend(d0.tree, d.tree, base, files, !faults.stat, q, node);
    }
    if !faults.remove {
      AccountedAppend(d0.tree, d.tree, files, dirs, q, node);
    }
  }

  lemma LoggedReplaced(d0: Disk, d: Disk, d': Disk, base: Path, files: seq<Path>, dirs: seq<Path>, faults: Faults,
                       target: Path, content: seq<byte>, recorded: bool)
    requires Logged(d0, d, base, files, dirs, faults) && Replaced(d, d', target, content)
    requires target != [] && base < target && (Locate(d.tree, target).Ok? ==> Locate(d.tree, target).value == target)
    requires target !in d.tree ==> recorded
    requires !faults.stat && recorded ==> target !in d.tree
    ensures Logged(d0, d', base, if recorded then files + [target] else files, dirs, faults)
    ensures ViewOf(d') == ViewOf(d)[target := IFile(content)]
    ensures d'.written == d.written + |content|
  {
    hide Confined, NamesKept, DirLog, FileLog, Accounted;
    LocatedInDir(d.tree, target);
    LoggedInstall(d0, d, base, files, dirs, faults, target, content, recorded);
    ViewInstall(d, target, content);
  }

  lemma LoggedAbandoned(d0: Disk, d: Disk, d': Disk, base: Path, files: seq<Path>, dirs: seq<Path>, faults: Faults,
                        target: Path)
    requires Logged(d0, d, base, files, dirs, faults) && ValidDisk(d')
    requires target != [] && base <= Parent(target)
             && (Locate(d.tree, target).Ok? ==> Locate(d.tree, target).value == target)
    requires Abandoned(d, d', target, faults.remove)
    ensures Logged(d0, d', base, files, dirs, faults)
  {
    if d'.tree != d.tree {
      var x :| LeftTemp(d.tree, d'.tree, target, x);
      BelowBase(base, x);
      LogsSurvive(d0.tree, d.tree, x, d'.tree[x], base, files, dirs, !faults.stat);
    }
  }

  // ---------------------------------------------------------------------
  // Extraction
  // ---------------------------------------------------------------------

  datatype ExtractError =
    | TooManyEntries | BadBase(io: IoError) | ReadEntry | MakeDir(io: IoError) | TooBig | WriteFailed(io: IoError)

  lemma ViewMkDir(d: Disk, p: Path)
    requires p !in d.tree
    ensures ViewOf(d.(tree := d.tree[p := Dir])) == ViewOf(d)[p := IDir]
  {}

  lemma ViewInstall(d: Disk, q: Path, content: seq<byte>)
    requires ValidDisk(d)
    ensures ViewOf(Installed(d, q, content)) == ViewOf(d)[q := IFile(content)]
  {
    var v, v' := ViewOf(d)[q := IFile(content)], ViewOf(Installed(d, q, content));
    forall p | p in v ensures v[p] == v'[p] {
      if p != q && d.tree[p].File? {
        assert d.tree[p].ino in d.data;
      }
    }
  }

  /** An entry the chain may stand on: `base` itself, or a real directory below it. */
  ghost predicate OnChain(t: Tree, base: Path, p: Path) {
    base <= p && p in t && !t[p].Link? && (p == base || IsDir(t, p))
  }

  /**
   * Enter child `n` of `cur`, creating and recording it if it is missing; `None`
   * if something else than a real directory is there. The source's branch for
   * losing a race against another creator cannot be reached without one.
   */
  method EnterDir(fs: FileSystem, base: Path, cur: Path, n: Name, created: seq<Path>, ghost d0: Disk,
                  ghost files: seq<Path>)
    returns (r: Result<Option<Path>, IoError>, created': seq<Path>)
    requires Logged(d0, fs.disk, base, files, created, fs.faults) && OnChain(fs.disk.tree, base, cur)
    modifies fs`disk, fs`trace
    ensures Silent(old(fs.trace), fs.trace)
    ensures Logged(d0, fs.disk, base, files, created', fs.faults)
    ensures fs.disk.written == old(fs.disk).written
    ensures r.Err? ==> fs.disk == old(fs.disk)
    ensures
      var v, next := ViewOf(old(fs.disk)), cur + [n];
      && (r.Ok? && r.value.None? ==>
            fs.disk == old(fs.disk) && v[cur].IDir? && next in v && !v[next].IDir?)
      && (r.Ok? && r.value.Some? ==>
            && r.value.value == next && OnChain(fs.disk.tree, base, next) && v[cur].IDir?
            && (next in v ==> v[next].IDir?)
            && ViewOf(fs.disk) == if next in v then v else v[next := IDir])
      && (r.Err? && !fs.faults.write && !fs.faults.stat ==> !v[cur].IDir?)
  {
    hide Confined, NamesKept, DirLog, FileLog, Accounted, WellFormed, ResolveDir;
    var next := cur + [n];
    created' := created;
    ParentOfChild(cur, n);
    BelowBase(base, next);
    NextLookup(fs.disk.tree, cur, n);
    var md := fs.Lstat(next);
    match md {
      case Ok(node) =>
        if !node.Dir? {
          return Ok(None), created';
        }
      case Err(e) =>
        if e != NotFound {
          return Err(e), created';
        }
        LoggedMkDir(d0, fs.disk, base, files, created', fs.faults, next);
        ViewMkDir(fs.disk, next);
        var made := fs.CreateDir(next);
        if made.Err? {
          return Err(made.error), created';
        }
        created' := created' + [next];
    }
    r := Ok(Some(next));
  }

  /** Walk `rel` below `base`, creating missing directories and recording them in the log. */
  method EnsureDirChain(fs: FileSystem, base: Path, rel: seq<Component>, created: seq<Path>,
                        ghost d0: Disk, ghost files: seq<Path>)
    returns (r: Result<Option<Path>, IoError>, created': seq<Path>, ghost steps: nat)
    requires Logged(d0, fs.disk, base, files, created, fs.faults)
    modifies fs`disk, fs`trace
    ensures Silent(old(fs.trace), fs.trace)
    ensures Logged(d0, fs.disk, base, files, created', fs.faults)
    ensures fs.disk.written == old(fs.disk).written
    ensures r.Ok? ==> Chain(ViewOf(old(fs.disk)), base, rel) ==
                      (ViewOf(fs.disk), if r.value.Some? then Reached(r.value.value) else Blocked)
    ensures r.Ok? && r.value.Some? ==> OnChain(fs.disk.tree, base, r.value.value)
    // an error leaves the directories of the components entered so far
    ensures steps <= |rel| && (r.Err? ==> ViewOf(fs.disk) == Chain(ViewOf(old(fs.disk)), base, rel[..steps]).0)
    ensures r.Err? && !fs.faults.write && !fs.faults.stat ==> Chain(ViewOf(old(fs.disk)), base, rel).1.Failed?
  {
    hide Confined, NamesKept, DirLog, FileLog, Accounted, Silent;
    SilentTrans(fs.trace, fs.trace, fs.trace);
    ghost var v0 := ViewOf(fs.disk);
    var cur := base;
    created' := created;
    var i := 0;
    steps := 0;
    while i < |rel|
      invariant 0 <= i <= |rel|
      invariant Logged(d0, fs.disk, base, files, created', fs.faults)
      invariant fs.disk.written == old(fs.disk).written && Silent(old(fs.trace), fs.trace)
      invariant OnChain(fs.disk.tree, base, cur)
      invariant Chain(v0, base, rel) == Chain(ViewOf(fs.disk), cur, rel[i..])
      invariant Chain(v0, base, rel[..i]) == (ViewOf(fs.disk), Reached(cur))
    {
      assert rel[i..][0] == rel[i] && rel[i..][1..] == rel[i + 1..] && rel[..i + 1] == rel[..i] + [rel[i]];
      ChainSnoc(v0, base, rel[..i], rel[i]);
      steps := i;
      match rel[i] {
        case CurDir =>
        case Normal(n) =>
          var entered;
          ghost var tr := fs.trace;
          entered, created' := EnterDir(fs, base, cur, n, created', d0, files);
          SilentTrans(old(fs.trace), tr, fs.trace);
          if entered.Err? {
            return Err(entered.error), created', steps;
          }
          if entered.value.None? {
            return Ok(None), created', steps;
          }
          cur := entered.value.value;
        case _ =>
          return Ok(None), created', steps;
      }
      i := i + 1;
    }
    steps := i;
    r := Ok(Some(cur));
  }

  /** What `lstat` and `mkdir` see at a child of a real entry. */
  lemma NextLookup(t: Tree, cur: Path, n: Name)
    requires WellFormed(t) && cur in t && !t[cur].Link?
    ensures IsDir(t, cur) ==> Locate(t, cur + [n]) == Ok(cur + [n])
    ensures !IsDir(t, cur) ==> Lookup(t, cur + [n]) == Err(NotADirectory) && cur + [n] !in t
  {
    if IsDir(t, cur) {
      LocateInRealDir(t, cur, n);
    } else {
      LocateBelowNonDir(t, cur, n);
      ParentOfChild(cur, n);
    }
  }

  /** What a failed write leaves to see: nothing new, or one temp file. */
  lemma AbandonedView(d: Disk, d': Disk, base: Path, target: Path, mayLeave: bool)
    returns (temp: Option<(Path, seq<byte>)>)
    requires ValidDisk(d) && ValidDisk(d') && Abandoned(d, d', target, mayLeave)
    requires target != [] && base <= Parent(target)
             && (Locate(d.tree, target).Ok? ==> Locate(d.tree, target).value == target)
    ensures temp.Some? ==> base < temp.value.0 && IsTempName(Last(temp.value.0))
    ensures ViewOf(d') == if temp.Some? then ViewOf(d)[temp.value.0 := IFile(temp.value.1)] else ViewOf(d)
  {
    temp := None;
    if d'.tree != d.tree {
      var x :| LeftTemp(d.tree, d'.tree, target, x);
      BelowBase(base, x);
      temp := Some((x, d'.data[d'.tree[x].ino]));
    }
  }

  /** Write `target`, which counts as replaced if `existed` and as added otherwise. */
  method ReplaceEntry(fs: FileSystem, base: Path, target: Path, e: ZipEntry, remaining: u64, existed: bool,
                      files: seq<Path>, ghost dirs: seq<Path>, ghost d0: Disk)
    returns (r: Result<nat, IoError>, files': seq<Path>, ghost temp: Option<(Path, seq<byte>)>)
    requires Logged(d0, fs.disk, base, files, dirs, fs.faults) && target != [] && base <= Parent(target)
    requires Locate(fs.disk.tree, target).Ok? ==> Locate(fs.disk.tree, target).value == target
    requires target !in fs.disk.tree ==> !existed
    requires !fs.faults.stat && !existed ==> target !in fs.disk.tree
    modifies fs`disk, fs`trace
    ensures Logged(d0, fs.disk, base, files', dirs, fs.faults)
    ensures if r.Ok? then EndsInRename(old(fs.trace), fs.trace, target) else Silent(old(fs.trace), fs.trace)
    ensures r.Ok? ==>
              && Locate(old(fs.disk).tree, target).Ok? && !IsDir(old(fs.disk).tree, target)
              && FillResult(e, remaining) == Ok(r.value) && fs.disk.written == old(fs.disk).written + r.value
              && ViewOf(fs.disk) == ViewOf(old(fs.disk))[target := IFile(Copied(e, remaining))]
              && files' == if existed then files else files + [target]
    ensures r.Err? ==>
              && files' == files && (temp.Some? ==> base < temp.value.0 && IsTempName(Last(temp.value.0)))
              && ViewOf(fs.disk) == if temp.Some? then ViewOf(old(fs.disk))[temp.value.0 := IFile(temp.value.1)]
                                    else ViewOf(old(fs.disk))
    ensures fs.disk.written <= old(fs.disk).written + |Copied(e, remaining)|
    ensures r.Err? && !fs.faults.write && Locate(old(fs.disk).tree, target).Ok? ==>
              r.error == NoTempName || IsDir(old(fs.disk).tree, target) || FillResult(e, remaining).Err?
  {
    hide Confined, NamesKept, DirLog, FileLog, Accounted, WellFormed, Abandoned, Copied, FillResult, ResolveDir;
    hide LeftTemp, KeepsData, EndsInRename, Silent;
    CopiedBound(e, remaining);
    BelowBase(base, target);
    files', temp := files, None;
    ghost var d := fs.disk;
    r := WriteAtomic(fs, target, e, remaining);
    if r.Err? {
      LoggedAbandoned(d0, d, fs.disk, base, files, dirs, fs.faults, target);
      temp := AbandonedView(d, fs.disk, base, target, fs.faults.remove);
    } else {
      LoggedReplaced(d0, d, fs.disk, base, files, dirs, fs.faults, target, Copied(e, remaining), !existed);
      files' := if existed then files else files + [target];
    }
  }

  /** Write one file entry into the reached directory `parent`; `start` is where the extraction's calls begin. */
  method ExtractFile(fs: FileSystem, base: Path, parent: Path, name: Name, e: ZipEntry, remaining: u64,
                     files: seq<Path>, ghost dirs: seq<Path>, ghost d0: Disk, ghost start: nat)
    returns (r: Result<EntryEnd, ExtractError>, files': seq<Path>, ghost temp: Option<(Path, seq<byte>)>)
    requires Logged(d0, fs.disk, base, files, dirs, fs.faults) && OnChain(fs.disk.tree, base, parent)
    requires start <= |fs.trace| && Settled(fs.trace, start) && Records(fs.trace, start, files)
    modifies fs`disk, fs`trace
    ensures Logged(d0, fs.disk, base, files', dirs, fs.faults)
    ensures old(fs.trace) <= fs.trace && Records(fs.trace, start, files') && (r.Ok? ==> Settled(fs.trace, start))
    ensures files' == files || (r.Ok? && files' == files + [parent + [name]])
    ensures
      var v, p := ViewOf(old(fs.disk)), parent + [name];
      && (r.Ok? && r.value.Skipped? ==> fs.disk == old(fs.disk) && v[parent].IDir? && p in v && v[p].IDir?)
      && (r.Ok? && !r.value.Skipped? ==>
            && v[parent].IDir? && !(p in v && v[p].IDir?)
            && FillResult(e, remaining).Ok? && r.value == Wrote(FillResult(e, remaining).value)
            && fs.disk.written == old(fs.disk).written + r.value.bytes
            && ViewOf(fs.disk) == v[p := IFile(Copied(e, remaining))])
      && (r.Err? ==>
            && (temp.Some? ==> base < temp.value.0 && IsTempName(Last(temp.value.0)))
            && ViewOf(fs.disk) == if temp.Some? then v[temp.value.0 := IFile(temp.value.1)] else v)
      && (r.Err? && !fs.faults.write && !fs.faults.stat ==>
            || !v[parent].IDir? || r.error == WriteFailed(NoTempName)
            || (FillResult(e, remaining).Err? && !(p in v && v[p].IDir?)))
    ensures fs.disk.written <= old(fs.disk).written + |Copied(e, remaining)|
  {
    hide Logged, WellFormed, Copied, FillResult, ResolveDir, EndsInRename, Silent, Settled, Records, Missed;
    hide ViewOf, ItemAt;
    ViewShowsDirs(fs.disk);
    var outPath := parent + [name];
    files', temp := files, None;
    ParentOfChild(parent, name);
    LoggedValid(d0, fs.disk, base, files, dirs, fs.faults);
    NextLookup(fs.disk.tree, parent, name);
    ghost var tr := fs.trace;
    var md := fs.Lstat(outPath, deciding := true);
    ghost var asked := Asked(fs.disk.tree, outPath, md, true);
    if md == Ok(Dir) {
      AnsweredRecords(tr, asked, start, files);
      return Ok(Skipped), files', temp;
    }
    var existed := md.Ok?;
    ghost var tr1 := fs.trace;
    var w;
    w, files', temp := ReplaceEntry(fs, base, outPath, e, remaining, existed, files, dirs, d0);
    TraceGrows(tr, asked, fs.trace, outPath);
    if w.Err? {
      FailedRecords(tr, asked, fs.trace, start, files);
      r := if w.error == SizeLimit then Err(TooBig) else Err(WriteFailed(w.error));
      return;
    }
    WrittenRecords(tr, asked, fs.trace, start, files);
    r := Ok(Wrote(w.value));
  }

  lemma ViewShowsDirs(d: Disk)
    ensures ViewOf(d).Keys == d.tree.Keys && forall p :: p in d.tree ==> (ViewOf(d)[p].IDir? <==> d.tree[p].Dir?)
  {}

  lemma LoggedValid(d0: Disk, d: Disk, base: Path, files: seq<Path>, dirs: seq<Path>, faults: Faults)
    requires Logged(d0, d, base, files, dirs, faults)
    ensures ValidDisk(d)
  {}

  lemma TraceGrows(tr: seq<Call>, c: Call, tr': seq<Call>, target: Path)
    ensures Silent(tr + [c], tr') || EndsInRename(tr + [c], tr', target) ==> tr <= tr'
  {}

  /** A deciding `lstat` that was answered and led to nothing records nothing. */
  lemma AnsweredRecords(tr: seq<Call>, c: Call, from: nat, files: seq<Path>)
    requires c.Asked? && c.answer.Ok? && from <= |tr| && Settled(tr, from) && Records(tr, from, files)
    ensures Settled(tr + [c], from) && Records(tr + [c], from, files)
  {
    var tr' := tr + [c];
    assert Silent(tr', tr');
    FailedRecords(tr, c, tr', from, files);
    forall i | from <= i < |tr'| && Missed(tr'[i]) ensures exists j :: i < j < |tr'| && tr'[j] == Renamed(tr'[i].path) {
      assert Missed(tr[i]);
      var j :| i < j < |tr| && tr[j] == Renamed(tr[i].path);
      assert tr'[j] == Renamed(tr'[i].path);
    }
  }

  /** One iteration of the extraction loop. */
  method ExtractEntry(fs: FileSystem, base: Path, e: ZipEntry, remaining: u64, files: seq<Path>, dirs: seq<Path>,
                      ghost d0: Disk, ghost start: nat)
    returns (r: Result<EntryEnd, ExtractError>, files': seq<Path>, dirs': seq<Path>, ghost halt: Halt)
    requires Logged(d0, fs.disk, base, files, dirs, fs.faults)
    requires start <= |fs.trace| && Settled(fs.trace, start) && Records(fs.trace, start, files)
    modifies fs`disk, fs`trace
    ensures Logged(d0, fs.disk, base, files', dirs', fs.faults)
    ensures old(fs.trace) <= fs.trace && Records(fs.trace, start, files') && (r.Ok? ==> Settled(fs.trace, start))
    ensures r.Err? ==> files' == files
    ensures forall p :: p in files' ==> p in files || Lands(base, e, p)
    ensures r.Ok? ==>
              && ExtractOne(ViewOf(old(fs.disk)), base, e, remaining) == (ViewOf(fs.disk), r.value) && !r.value.Aborted?
              && fs.disk.written == old(fs.disk).written + if r.value.Wrote? then r.value.bytes else 0
    ensures r.Err? ==> CanHalt(base, e, halt) && ViewOf(fs.disk) == Halted(ViewOf(old(fs.disk)), base, e, halt)
    ensures r.Err? ==> fs.disk.written <= old(fs.disk).written + remaining + 1
    ensures r.Err? && !fs.faults.write && !fs.faults.stat ==>
              ExtractOne(ViewOf(old(fs.disk)), base, e, remaining).1.Aborted? || r.error == WriteFailed(NoTempName)
  {
    hide Logged, FillResult, Copied, Settled, Records, Silent, Lands, IsLinkMode;
    CopiedBound(e, remaining);
    files', dirs', halt := files, dirs, Halt(0, None);
    ghost var tr := fs.trace;
    if !e.readable {
      return Err(ReadEntry), files', dirs', halt;
    }
    if e.name.None? || IsLinkMode(e.mode) {
      return Ok(Skipped), files', dirs', halt;
    }
    var rel := e.name.value;
    var reached;
    ghost var steps;
    if e.isDir {
      reached, dirs', steps := EnsureDirChain(fs, base, rel, dirs, d0, files);
      SilentRecords(tr, fs.trace, start, files);
      halt := Halt(steps, None);
      r := if reached.Err? then Err(MakeDir(reached.error)) else Ok(if reached.value.Some? then MadeDir else Skipped);
      return;
    }
    if rel == [] || !rel[|rel| - 1].Normal? {
      return Ok(Skipped), files', dirs', halt;
    }
    if e.declared > remaining {
      return Err(TooBig), files', dirs', halt;
    }
    var up := rel[..|rel| - 1];
    reached, dirs', steps := EnsureDirChain(fs, base, up, dirs, d0, files);
    SilentRecords(tr, fs.trace, start, files);
    assert up[..steps] == rel[..steps];
    if reached.Err? {
      halt := Halt(steps, None);
      return Err(MakeDir(reached.error)), files', dirs', halt;
    }
    if reached.value.None? {
      return Ok(Skipped), files', dirs', halt;
    }
    ghost var temp;
    FileLands(ViewOf(old(fs.disk)), base, e);
    r, files', temp :=
      ExtractFile(fs, base, reached.value.value, rel[|rel| - 1].name, e, remaining, files, dirs', d0, start);
    halt := Halt(|up|, temp);
  }

  /** The place a file entry is written to is the one its name spells. */
  lemma FileLands(v: View, base: Path, e: ZipEntry)
    requires e.readable && e.name.Some? && !e.isDir && !IsLinkMode(e.mode)
    requires e.name.value != [] && e.name.value[|e.name.value| - 1].Normal?
    ensures
      var rel := e.name.value;
      var end := Chain(v, base, rel[..|rel| - 1]).1;
      end.Reached? ==> Lands(base, e, end.dir + [rel[|rel| - 1].name])
  {
    var rel := e.name.value;
    var up, n := rel[..|rel| - 1], rel[|rel| - 1].name;
    assert rel == up + [Normal(n)];
    ChainLeads(v, base, up);
    NamesOfPlain(up, Normal(n));
  }

  method ExtractEntries(fs: FileSystem, base: Path, entries: seq<ZipEntry>, limit: u64)
    returns (r: Result<Stats, ExtractError>, files: seq<Path>, dirs: seq<Path>, ghost broke: Break)
    requires fs.Valid() && base in fs.disk.tree && !fs.disk.tree[base].Link?
    modifies fs`disk, fs`trace
    ensures Logged(old(fs.disk), fs.disk, base, files, dirs, fs.faults)
    ensures old(fs.trace) <= fs.trace && Records(fs.trace, |old(fs.trace)|, files)
    ensures r.Err? ==>
              && CanBreak(ViewOf(old(fs.disk)), base, entries, limit, broke) && broke.removed == {}
              && (forall p :: p in files ==> Landed(base, entries[..broke.entries], p))
              && ViewOf(fs.disk) == Broken(ViewOf(old(fs.disk)), base, entries, limit, broke)
    ensures r.Ok? ==>
              exists left: u64 ::
                && ExtractAll(ViewOf(old(fs.disk)), base, entries, limit, Stats(0, 0)) ==
                    Done(ViewOf(fs.disk), r.value, left)
                && fs.disk.written + left == old(fs.disk).written + limit
    ensures r.Err? ==> fs.disk.written <= old(fs.disk).written + limit + 1
    ensures r.Err? && !fs.faults.write && !fs.faults.stat ==>
              || ExtractAll(ViewOf(old(fs.disk)), base, entries, limit, Stats(0, 0)).Stopped?
              || r.error == WriteFailed(NoTempName)
  {
    hide Logged, ExtractOne, Settled, Records, CanHalt, Halted, Landed, Lands;
    LoggedStart(fs.disk, base, fs.faults);
    ghost var d0 := fs.disk;
    ghost var whole := ExtractAll(ViewOf(d0), base, entries, limit, Stats(0, 0));
    ghost var start := |fs.trace|;
    NothingRecorded(fs.trace);
    files, dirs, broke := [], [], Break(0, Halt(0, None), {});
    var stats := Stats(0, 0);
    var remaining: u64 := limit;
    var i := 0;
    assert entries[0..] == entries;
    while i < |entries|
      invariant 0 <= i <= |entries|
      invariant Logged(d0, fs.disk, base, files, dirs, fs.faults)
      invariant old(fs.trace) <= fs.trace && Settled(fs.trace, start) && Records(fs.trace, start, files)
      invariant forall p :: p in files ==> Landed(base, entries[..i], p)
      invariant fs.disk.written + remaining == d0.written + limit
      invariant whole == ExtractAll(ViewOf(fs.disk), base, entries[i..], remaining, stats)
      invariant ExtractAll(ViewOf(d0), base, entries[..i], limit, Stats(0, 0)) ==
                Done(ViewOf(fs.disk), stats, remaining)
    {
      assert entries[i..][0] == entries[i] && entries[i..][1..] == entries[i + 1..];
      assert entries[..i + 1] == entries[..i] + [entries[i]];
      ExtractAllSnoc(ViewOf(d0), base, entries[..i], entries[i], limit, Stats(0, 0));
      ghost var v := ViewOf(fs.disk);
      WroteWithinBudget(v, base, entries[i], remaining);
      var one;
      ghost var halt;
      ghost var files0 := files;
      one, files, dirs, halt := ExtractEntry(fs, base, entries[i], remaining, files, dirs, d0, start);
      if one.Ok? {
        LandedNext(base, entries, i, files0, files);
      }
      if one.Err? {
        broke := Break(i, halt, {});
        return Err(one.error), files, dirs, broke;
      }
      match one.value {
        case Wrote(n) =>
          remaining := remaining - n;
          stats := stats.(written := stats.written + 1);
        case Skipped =>
          stats := stats.(skipped := stats.skipped + 1);
        case _ =>
      }
      i := i + 1;
    }
    r := Ok(stats);
  }

  lemma NothingRecorded(tr: seq<Call>)
    ensures Settled(tr, |tr|) && Records(tr, |tr|, [])
  {}

  lemma LandedNext(base: Path, es: seq<ZipEntry>, i: nat, files: seq<Path>, files': seq<Path>)
    requires i < |es| && (forall p :: p in files ==> Landed(base, es[..i], p))
    requires forall p :: p in files' ==> p in files || Lands(base, es[i], p)
    ensures forall p :: p in files' ==> Landed(base, es[..i + 1], p)
  {
    forall p | p in files' ensures Landed(base, es[..i + 1], p) {
      if p in files {
        var k :| 0 <= k < i && Lands(base, es[..i][k], p);
        assert Lands(base, es[..i + 1][k], p);
      } else {
        assert Lands(base, es[..i + 1][i], p);
      }
    }
  }

  // ---------------------------------------------------------------------
  // Rollback
  // ---------------------------------------------------------------------

  /** `d'` is `d` without some of the names in `gone`. */
  ghost predicate Shrunk(d: Disk, d': Disk, gone: seq<Path>) {
    && d'.data == d.data && d'.next == d.next && d'.written == d.written
    && (forall p :: p in d'.tree ==> p in d.tree && d'.tree[p] == d.tree[p])
    && (forall p :: p in d.tree ==> p in d'.tree || p in gone)
  }

  ghost predicate AllGone(t: Tree, ps: seq<Path>) {
    forall i :: 0 <= i < |ps| ==> ps[i] !in t
  }

  /** Removing one more recorded name. */
  lemma ShrinkOne(d: Disk, d1: Disk, d2: Disk, gone: seq<Path>, k: nat)
    requires k < |gone| && Shrunk(d, d1, gone[k + 1..])
    requires d2 == d1 || (d2 == d1.(tree := d1.tree - {gone[k]}))
    ensures Shrunk(d, d2, gone[k..])
    ensures AllGone(d1.tree, gone[k + 1..]) && gone[k] !in d2.tree ==> AllGone(d2.tree, gone[k..])
  {
    assert gone[k..] == [gone[k]] + gone[k + 1..];
    assert forall p :: p in gone[k..] <==> p == gone[k] || p in gone[k + 1..];
  }

  method RemoveFiles(fs: FileSystem, files: seq<Path>)
    requires fs.Valid()
    requires forall i :: 0 <= i < |files| ==> files[i] in fs.disk.tree && !fs.disk.tree[files[i]].Dir?
    modifies fs`disk
    ensures fs.Valid() && Shrunk(old(fs.disk), fs.disk, files)
    ensures !fs.faults.remove ==> AllGone(fs.disk.tree, files)
  {
    ghost var d := fs.disk;
    var k := |files|;
    assert files[|files|..] == [];
    while k > 0
      invariant 0 <= k <= |files|
      invariant fs.Valid() && Shrunk(d, fs.disk, files[k..])
      invariant forall p :: IsDir(d.tree, p) ==> IsDir(fs.disk.tree, p)
      invariant !fs.faults.remove ==> AllGone(fs.disk.tree, files[k..])
    {
      k := k - 1;
      var f := files[k];
      ghost var d1 := fs.disk;
      FileStillNamed(d.tree, d1.tree, f);
      var _ := fs.RemoveFile(f);
      ShrinkOne(d, d1, fs.disk, files, k);
    }
    assert files[0..] == files;
  }

  /** A file's directory outlives it, so its path still names the same entry. */
  lemma FileStillNamed(t: Tree, t1: Tree, f: Path)
    requires WellFormed(t) && WellFormed(t1) && f in t && !t[f].Dir?
    requires forall p :: IsDir(t, p) ==> IsDir(t1, p)
    ensures Locate(t1, f) == Ok(f)
  {
    ParentLast(f);
    LocateInRealDir(t1, Parent(f), Last(f));
  }

  /** With the files gone, the last recorded directory has nothing left in it. */
  lemma DirIsEmpty(t0: Tree, t: Tree, t1: Tree, base: Path, files: seq<Path>, dirs: seq<Path>, k: nat)
    requires WellFormed(t0) && DirLog(t0, t, base, dirs) && Accounted(t0, t, files, dirs) && k < |dirs|
    requires forall p :: p in t1 ==> p in t
    requires AllGone(t1, files) && AllGone(t1, dirs[k + 1..])
    ensures !exists c :: c in t1 && c != [] && Parent(c) == dirs[k]
  {
    forall j | k < j < |dirs| ensures dirs[j] !in t1 {
      assert dirs[k + 1..][j - k - 1] == dirs[j];
    }
    forall c | c in t1 && c != [] ensures Parent(c) != dirs[k] {
      assert Parent(c) <= c;
      if c in t0 {
        assert IsDir(t0, Parent(c));
      } else {
        assert c in dirs;
      }
    }
  }

  lemma ShrunkNone(d: Disk)
    ensures Shrunk(d, d, []) && AllGone(d.tree, [])
  {}

  lemma StillGone(d: Disk, d1: Disk, files: seq<Path>, gone: seq<Path>)
    requires Shrunk(d, d1, gone) && AllGone(d.tree, files)
    ensures AllGone(d1.tree, files) && forall p :: p in d1.tree ==> p in d.tree
  {}

  method RemoveDirs(fs: FileSystem, base: Path, dirs: seq<Path>, ghost t0: Tree, ghost files: seq<Path>)
    requires fs.Valid() && WellFormed(t0) && DirLog(t0, fs.disk.tree, base, dirs)
    modifies fs`disk
    ensures fs.Valid() && Shrunk(old(fs.disk), fs.disk, dirs)
    ensures !fs.faults.remove && old(Accounted(t0, fs.disk.tree, files, dirs)) && old(AllGone(fs.disk.tree, files)) ==>
              AllGone(fs.disk.tree, dirs)
  {
    hide Shrunk, AllGone, Accounted, DirLog, Locate, WellFormed;
    ghost var d := fs.disk;
    ghost var exact := !fs.faults.remove && Accounted(t0, d.tree, files, dirs) && AllGone(d.tree, files);
    ShrunkNone(d);
    var k := |dirs|;
    assert dirs[|dirs|..] == [];
    while k > 0
      invariant 0 <= k <= |dirs|
      invariant fs.Valid() && Shrunk(d, fs.disk, dirs[k..])
      invariant exact ==> AllGone(fs.disk.tree, dirs[k..])
    {
      k := k - 1;
      ghost var d1 := fs.disk;
      DirStillThere(d, d1, base, dirs, k, t0);
      if exact {
        StillGone(d, d1, files, dirs[k + 1..]);
        DirIsEmpty(t0, d.tree, d1.tree, base, files, dirs, k);
      }
      var _ := fs.RemoveDir(dirs[k]);
      ShrinkOne(d, d1, fs.disk, dirs, k);
    }
    assert dirs[0..] == dirs;
  }

  /** Its turn comes once: a recorded directory is still there when reached. */
  lemma DirStillThere(d: Disk, d1: Disk, base: Path, dirs: seq<Path>, k: nat, t0: Tree)
    requires ValidDisk(d1) && DirLog(t0, d.tree, base, dirs) && k < |dirs| && Shrunk(d, d1, dirs[k + 1..])
    ensures dirs[k] != [] && IsDir(d1.tree, dirs[k]) && Locate(d1.tree, dirs[k]) == Ok(dirs[k])
  {
    assert forall j :: k < j < |dirs| ==> dirs[j] != dirs[k];
    LocateEntry(d1.tree, dirs[k]);
  }

  /** Extraction followed by any rollback leaves everything outside `base`, all inodes and all old directories alone. */
  lemma RollbackConfined(d0: Disk, d: Disk, d1: Disk, d2: Disk, base: Path, files: seq<Path>, dirs: seq<Path>,
                         faults: Faults)
    requires Logged(d0, d, base, files, dirs, faults) && Shrunk(d, d1, files) && Shrunk(d1, d2, dirs)
    ensures Confined(d0, d2, base)
    ensures forall p :: IsDir(d0.tree, p) ==> IsDir(d2.tree, p)
    ensures d2.written == d.written
  {
    forall p | p in d.tree && (!(base < p) || IsDir(d0.tree, p)) ensures p in d2.tree {
      assert p in d1.tree;
    }
  }

  /** With no removal failing, the names left are those from before that were not recorded, each of the same kind. */
  lemma RollbackExact(d0: Disk, d: Disk, d1: Disk, d2: Disk, base: Path, files: seq<Path>, dirs: seq<Path>,
                      faults: Faults)
    requires Logged(d0, d, base, files, dirs, faults) && Shrunk(d, d1, files) && Shrunk(d1, d2, dirs)
    requires !faults.remove && AllGone(d1.tree, files) && AllGone(d2.tree, dirs)
    ensures NamesLeft(d0.tree, d2.tree, set p | p in files && p in d0.tree)
  {
    forall p | p in d0.tree && p !in files ensures p in d2.tree {
      assert p !in dirs;
    }
    forall p | p in d2.tree ensures p in d0.tree && p !in files {
      assert p in d1.tree && p !in files && p !in dirs;
    }
  }

  /** The names left are those of `t0` without `lost`, each of the same kind. */
  ghost predicate NamesLeft(t0: Tree, t: Tree, lost: set<Path>) {
    && (forall p :: p in t <==> p in t0 && p !in lost)
    && (forall p :: p in t0 && p in t ==> (t0[p].Dir? <==> t[p].Dir?))
  }

  ghost predicate SameNames(t0: Tree, t: Tree) {
    NamesLeft(t0, t, {})
  }

  /** With no removal failing, exactly the misjudged names are lost; so none are exactly if none was misjudged. */
  lemma LostIsMisjudged(t0: Tree, t: Tree, tr: seq<Call>, from: nat, files: seq<Path>)
    requires Records(tr, from, files) && NamesLeft(t0, t, set p | p in files && p in t0)
    ensures NamesLeft(t0, t, Misjudged(tr, from, t0)) && (SameNames(t0, t) <==> Misjudged(tr, from, t0) == {})
  {
    assert (set p | p in files && p in t0) == Misjudged(tr, from, t0);
  }

  /** And whatever fails, no others are. */
  lemma OnlyMisjudgedLost(d0: Disk, d: Disk, d1: Disk, d2: Disk, base: Path, tr: seq<Call>, from: nat,
                          files: seq<Path>, dirs: seq<Path>, faults: Faults)
    requires Logged(d0, d, base, files, dirs, faults) && Shrunk(d, d1, files) && Shrunk(d1, d2, dirs)
    requires Records(tr, from, files)
    ensures forall p :: p in d0.tree && p !in d2.tree ==> p in Misjudged(tr, from, d0.tree)
  {
    hide TakenForNew;
    forall p | p in d0.tree && p !in d2.tree ensures p in files {
      assert p in d.tree && p !in dirs;
    }
  }

  lemma NoneMisjudged(d0: Disk, d: Disk, base: Path, tr: seq<Call>, from: nat, files: seq<Path>, dirs: seq<Path>,
                      faults: Faults)
    requires Logged(d0, d, base, files, dirs, faults) && Records(tr, from, files) && !faults.stat
    ensures Misjudged(tr, from, d0.tree) == {}
  {}

  lemma SameData(d: Disk, d': Disk)
    requires d.data == d'.data && forall p :: p in d'.tree ==> p in d.tree && d'.tree[p] == d.tree[p]
    ensures ViewOf(d') == ViewOf(d) - (d.tree.Keys - d'.tree.Keys)
  {}

  /** What a rollback takes away is below `base`, and the rest looks as before it. */
  lemma RollbackView(d0: Disk, d: Disk, d1: Disk, d2: Disk, base: Path, files: seq<Path>, dirs: seq<Path>,
                     faults: Faults)
    requires Logged(d0, d, base, files, dirs, faults) && Shrunk(d, d1, files) && Shrunk(d1, d2, dirs)
    ensures
      var removed := d.tree.Keys - d2.tree.Keys;
      ViewOf(d2) == ViewOf(d) - removed && forall p :: p in removed ==> base < p && (p in files || p !in d0.tree)
  {
    hide Confined, NamesKept, Accounted, ValidDisk, ItemAt, IsDir;
    var removed := d.tree.Keys - d2.tree.Keys;
    forall p | p in removed ensures base < p && (p in files || p !in d0.tree) {
      assert p in files || p in dirs;
    }
    SameData(d, d2);
  }

  /** Take away what is on record, files first, in reverse order; failing removals are passed over. */
  method RollBack(fs: FileSystem, base: Path, files: seq<Path>, dirs: seq<Path>, ghost d0: Disk, ghost start: nat)
    requires Logged(d0, fs.disk, base, files, dirs, fs.faults) && Records(fs.trace, start, files)
    modifies fs`disk
    ensures fs.Valid() && Confined(d0, fs.disk, base) && fs.disk.written == old(fs.disk).written
    ensures forall p :: IsDir(d0.tree, p) ==> IsDir(fs.disk.tree, p)
    ensures forall p :: p in d0.tree && p !in fs.disk.tree ==> p in Misjudged(fs.trace, start, d0.tree)
    ensures !fs.faults.remove ==>
              var lost := Misjudged(fs.trace, start, d0.tree);
              NamesLeft(d0.tree, fs.disk.tree, lost) && (SameNames(d0.tree, fs.disk.tree) <==> lost == {})
    ensures
      var removed := old(fs.disk).tree.Keys - fs.disk.tree.Keys;
      && ViewOf(fs.disk) == ViewOf(old(fs.disk)) - removed
      && forall p :: p in removed ==> base < p && (p in files || p !in d0.tree)
  {
    hide Logged, DirLog, Accounted, ViewOf, Records, Misjudged, NamesLeft, SameNames, Confined;
    ghost var d := fs.disk;
    LoggedForRollback(d0, d, base, files, dirs, fs.faults);
    RemoveFiles(fs, files);
    ghost var d1 := fs.disk;
    DirLogAfterFiles(d0, d, d1, base, files, dirs, fs.faults);
    RemoveDirs(fs, base, dirs, d0.tree, files);
    RollbackConfined(d0, d, d1, fs.disk, base, files, dirs, fs.faults);
    OnlyMisjudgedLost(d0, d, d1, fs.disk, base, fs.trace, start, files, dirs, fs.faults);
    RollbackView(d0, d, d1, fs.disk, base, files, dirs, fs.faults);
    if !fs.faults.remove {
      RollbackExact(d0, d, d1, fs.disk, base, files, dirs, fs.faults);
      LostIsMisjudged(d0.tree, fs.disk.tree, fs.trace, start, files);
    }
  }

  /** Extract `entries` below the directory `base` names, within the given limits. */
  method ExtractZip(fs: FileSystem, base: seq<Component>, entries: seq<ZipEntry>, maxBytes: u64, maxEntries: nat)
    returns (r: Result<Stats, ExtractError>, ghost broke: Break)
    requires fs.Valid()
    modifies fs`disk, fs`trace
    ensures fs.Valid() && old(fs.trace) <= fs.trace
    // refused before anything is touched
    ensures |entries| > maxEntries || Canonical(old(fs.disk).tree, base).Err? ==> r.Err? && fs.disk == old(fs.disk)
    // containment, on every outcome and whatever fails
    ensures Canonical(old(fs.disk).tree, base).Ok? ==>
              Confined(old(fs.disk), fs.disk, Canonical(old(fs.disk).tree, base).value)
    ensures forall p :: IsDir(old(fs.disk).tree, p) ==> IsDir(fs.disk.tree, p)
    // a successful call did exactly what the specification says, within the byte limit
    ensures r.Ok? ==>
              && Canonical(old(fs.disk).tree, base).Ok?
              && exists left: u64 ::
                && var b := Canonical(old(fs.disk).tree, base).value;
                && ExtractAll(ViewOf(old(fs.disk)), b, entries, maxBytes, Stats(0, 0))
                    == Done(ViewOf(fs.disk), r.value, left)
                && fs.disk.written + left == old(fs.disk).written + maxBytes
    ensures fs.disk.written <= old(fs.disk).written + maxBytes + 1
    // whatever fails, no old name is lost but one whose deciding `lstat` failed before it was replaced
    ensures forall p :: p in old(fs.disk).tree && p !in fs.disk.tree ==>
              p in Misjudged(fs.trace, |old(fs.trace)|, old(fs.disk).tree)
    // a failed call whose removals work is rolled back to exactly the names there were without those
    ensures r.Err? && !fs.faults.remove ==>
              var lost := Misjudged(fs.trace, |old(fs.trace)|, old(fs.disk).tree);
              && NamesLeft(old(fs.disk).tree, fs.disk.tree, lost)
              && (SameNames(old(fs.disk).tree, fs.disk.tree) <==> lost == {})
    ensures !fs.faults.stat ==> Misjudged(fs.trace, |old(fs.trace)|, old(fs.disk).tree) == {}
    // whatever fails and wherever it stops, removals included, it broke off where the specification can
    ensures r.Err? && |entries| <= maxEntries && Canonical(old(fs.disk).tree, base).Ok? ==>
              var v, b := ViewOf(old(fs.disk)), Canonical(old(fs.disk).tree, base).value;
              CanBreak(v, b, entries, maxBytes, broke) && ViewOf(fs.disk) == Broken(v, b, entries, maxBytes, broke)
    // without faults it only fails where the specification stops
    ensures
      && r.Err? && !fs.faults.write && !fs.faults.stat
      && |entries| <= maxEntries && Canonical(old(fs.disk).tree, base).Ok? ==>
        var b := Canonical(old(fs.disk).tree, base).value;
        || ExtractAll(ViewOf(old(fs.disk)), b, entries, maxBytes, Stats(0, 0)).Stopped?
        || r.error == WriteFailed(NoTempName)
  {
    hide NamesKept, DirLog, FileLog, Accounted, ExtractAll, Walk, WellFormed, ViewOf, Records, Misjudged, Landed;
    hide IsDir, Confined, CanBreak, Broken, NamesLeft, SameNames;
    ghost var d0, start := fs.disk, |fs.trace|;
    broke := Break(0, Halt(0, None), {});
    NothingLost(d0.tree, fs.trace);
    if |entries| > maxEntries {
      ConfinedRefl(d0);
      return Err(TooManyEntries), broke;
    }
    match Canonical(fs.disk.tree, base)
    case Err(e) =>
      return Err(BadBase(e)), broke;
    case Ok(b) =>
      CanonicalBase(d0, base);
      var files, dirs;
      r, files, dirs, broke := ExtractEntries(fs, b, entries, maxBytes);
      ghost var d, tr := fs.disk, fs.trace;
      if !fs.faults.stat {
        NoneMisjudged(d0, d, b, tr, start, files, dirs, fs.faults);
      }
      if r.Err? {
        RollBack(fs, b, files, dirs, d0, start);
        ghost var removed := d.tree.Keys - fs.disk.tree.Keys;
        BrokenRemoved(ViewOf(d0), b, entries, maxBytes, broke, removed, files);
        broke := broke.(removed := removed);
      } else {
        LoggedKeepsNames(d0, d, b, files, dirs, fs.faults);
      }
  }

  lemma NothingLost(t: Tree, tr: seq<Call>)
    ensures NamesLeft(t, t, {}) && SameNames(t, t) && Misjudged(tr, |tr|, t) == {}
  {}

  lemma BrokenRemoved(v: View, base: Path, es: seq<ZipEntry>, limit: u64, b: Break, removed: set<Path>,
                      files: seq<Path>)
    requires CanBreak(v, base, es, limit, b) && b.removed == {}
    requires forall p :: p in removed ==> base < p && (p in files || p !in v)
    requires forall p :: p in files ==> Landed(base, es[..b.entries], p)
    ensures CanBreak(v, base, es, limit, b.(removed := removed))
    ensures Broken(v, base, es, limit, b.(removed := removed)) == Broken(v, base, es, limit, b) - removed
  {}

  lemma ConfinedRefl(d: Disk)
    ensures forall b :: Confined(d, d, b)
  {}

  lemma CanonicalBase(d: Disk, base: seq<Component>)
    requires ValidDisk(d) && Canonical(d.tree, base).Ok?
    ensures var b := Canonical(d.tree, base).value; b in d.tree && !d.tree[b].Link?
  {
    WalkLandsOnEntry(d.tree, [], base, MAX_LINKS);
  }

  lemma LoggedForRollback(d0: Disk, d: Disk, base: Path, files: seq<Path>, dirs: seq<Path>, faults: Faults)
    requires Logged(d0, d, base, files, dirs, faults)
    ensures ValidDisk(d) && forall i :: 0 <= i < |files| ==> files[i] in d.tree && !d.tree[files[i]].Dir?
  {}

  lemma LoggedKeepsNames(d0: Disk, d: Disk, base: Path, files: seq<Path>, dirs: seq<Path>, faults: Faults)
    requires Logged(d0, d, base, files, dirs, faults)
    ensures forall p :: IsDir(d0.tree, p) ==> IsDir(d.tree, p)
    ensures forall p :: p in d0.tree ==> p in d.tree
  {}

  lemma DirLogAfterFiles(d0: Disk, d: Disk, d1: Disk, base: Path, files: seq<Path>, dirs: seq<Path>, faults: Faults)
    requires Logged(d0, d, base, files, dirs, faults) && Shrunk(d, d1, files)
    ensures WellFormed(d0.tree) && DirLog(d0.tree, d1.tree, base, dirs)
    ensures !faults.remove ==> Accounted(d0.tree, d1.tree, files, dirs)
  {
    forall i | 0 <= i < |dirs| ensures IsDir(d1.tree, dirs[i]) {
      assert dirs[i] !in files;
    }
  }

  /** An existing file `q` below `base`, an entry `e` for it, and a free temp name beside it. */
  ghost predicate Overwrites(d: Disk, base: Path, q: Path, tmp: Path, e: ZipEntry, limit: u64) {
    && ValidDisk(d) && base in d.tree && !d.tree[base].Link?
    && base < q && q in d.tree && !d.tree[q].Dir?
    && tmp != [] && Parent(tmp) == Parent(q) && tmp !in d.tree && IsTempName(Last(tmp))
    && e.readable && e.name == Some(Comps(q[|base|..])) && !IsLinkMode(e.mode) && !e.isDir
    && e.declared <= limit && FillResult(e, limit).Ok?
  }

  /**
   * A run that loses a name, call by call. `e` is a file entry for an existing file
   * `q`, followed by an entry that cannot be read. The `lstat` of `q` fails, so `q`
   * counts as added; the write goes through, as its own `lstat`s may still work; the
   * second entry stops the extraction and the rollback removes `q`.
   */
  lemma FailedStatLosesName(d: Disk, base: Path, q: Path, tmp: Path, e: ZipEntry, bad: ZipEntry, limit: u64,
                            faults: Faults)
    requires Overwrites(d, base, q, tmp, e, limit) && !bad.readable && faults.stat
    ensures
      var content, failed := Copied(e, limit), Err(Io);
      // entering the directories above `q` changes nothing
      && Chain(ViewOf(d), base, Comps(q[|base|..])[..|q| - |base| - 1]) == (ViewOf(d), Reached(Parent(q)))
      // `lstat` may fail, and `write_atomic` may still find a file and go on to create, fill and rename
      && MayAnswer(d.tree, q, failed, faults.stat) && MayAnswer(d.tree, q, Ok(d.tree[q]), faults.stat)
      && CreateNew(d, tmp).Ok? && d.next in CreateNew(d, tmp).value.data
      && var d1 := AppendTo(CreateNew(d, tmp).value, d.next, content);
      && Lookup(d1.tree, q) == Ok(d.tree[q]) && Rename(d1, tmp, q) == Ok(Installed(d, q, content))
      // so `q` is on record as added, the next entry stops the loop, and the rollback removes `q`
      && var tr, d2 := LosingTrace(d.tree, d1.tree, q), Installed(d, q, content);
      && Settled(tr, 0) && Records(tr, 0, [q]) && Misjudged(tr, 0, d.tree) == {q}
      && Logged(d, d2, base, [q], [], faults)
      && ExtractAll(ViewOf(d), base, [e, bad], limit, Stats(0, 0)) == Stopped
      && Unlink(d2, q).Ok? && NamesLeft(d.tree, Unlink(d2, q).value.tree, {q})
  {
    hide Logged, Chain, Copied, FillResult, Rename, CreateNew, Installed, AppendTo, Unlink, NamesLeft, Lookup;
    hide ExtractAll, ViewOf, WellFormed, Settled, Records, Misjudged, LosingTrace;
    OverwriteEnters(d, base, q);
    OverwriteGoesThrough(d, base, q, tmp, e, limit);
    OverwriteRecorded(d, base, q, tmp, e, limit, faults);
    UnreadableStops(ViewOf(d), base, e, bad, limit);
    LosingTraceRecords(d.tree, AppendTo(CreateNew(d, tmp).value, d.next, Copied(e, limit)).tree, q);
  }

  /** The calls of that run: only the first, deciding `lstat` fails. */
  ghost function LosingTrace(t: Tree, t1: Tree, q: Path): seq<Call>
    requires q in t
  {
    [Asked(t, q, Err(Io), true), Asked(t, q, Ok(t[q]), false), Asked(t1, q, Ok(t[q]), false), Renamed(q)]
  }

  lemma LosingTraceRecords(t: Tree, t1: Tree, q: Path)
    requires q in t
    ensures var tr := LosingTrace(t, t1, q); Settled(tr, 0) && Records(tr, 0, [q]) && Misjudged(tr, 0, t) == {q}
  {
    var tr := LosingTrace(t, t1, q);
    assert tr[3] == Renamed(tr[0].path) && Missed(tr[0]);
    assert TakenForNew(tr, 0, q);
  }

  lemma UnreadableStops(v: View, base: Path, e: ZipEntry, bad: ZipEntry, limit: u64)
    requires !bad.readable
    ensures ExtractAll(v, base, [e, bad], limit, Stats(0, 0)) == Stopped
  {
    hide Chain;
    WroteWithinBudget(v, base, e, limit);
    assert [e, bad][1..] == [bad];
  }

  lemma OverwriteEnters(d: Disk, base: Path, q: Path)
    requires ValidDisk(d) && base < q && q in d.tree
    ensures Chain(ViewOf(d), base, Comps(q[|base|..])[..|q| - |base| - 1]) == (ViewOf(d), Reached(Parent(q)))
  {
    hide Chain, ViewOf, Comps;
    var p, rel := Parent(q), q[|base|..];
    assert p[|base|..] == rel[..|rel| - 1] && p[..|base|] == base;
    CompsPrefix(rel, |rel| - 1);
    ChainOverDirs(d, base, p, |base|);
    assert Comps(p[|base|..])[0..] == Comps(p[|base|..]);
  }

  lemma OverwriteGoesThrough(d: Disk, base: Path, q: Path, tmp: Path, e: ZipEntry, limit: u64)
    requires Overwrites(d, base, q, tmp, e, limit)
    ensures Lookup(d.tree, q) == Ok(d.tree[q])
    ensures CreateNew(d, tmp).Ok? && d.next in CreateNew(d, tmp).value.data
    ensures
      var d1 := AppendTo(CreateNew(d, tmp).value, d.next, Copied(e, limit));
      Lookup(d1.tree, q) == Ok(d.tree[q]) && Rename(d1, tmp, q) == Ok(Installed(d, q, Copied(e, limit)))
  {
    hide Copied, FillResult, Rename, CreateNew, Locate, AppendTo, Comps, IsLinkMode;
    var content := Copied(e, limit);
    LocateEntry(d.tree, q);
    ParentLast(tmp);
    LocateInRealDir(d.tree, Parent(q), Last(tmp));
    CreatedAndFilled(d, tmp, content);
    var d1 := AppendTo(CreateNew(d, tmp).value, d.next, content);
    TempOutcomes(d, d1, tmp, q, content);
    LocateEntry(d1.tree, q);
  }

  lemma OverwriteRecorded(d: Disk, base: Path, q: Path, tmp: Path, e: ZipEntry, limit: u64, faults: Faults)
    requires Overwrites(d, base, q, tmp, e, limit) && faults.stat
    ensures
      var d2 := Installed(d, q, Copied(e, limit));
      && Logged(d, d2, base, [q], [], faults)
      && Unlink(d2, q).Ok? && NamesLeft(d.tree, Unlink(d2, q).value.tree, {q})
  {
    hide Copied, FillResult;
    var d2 := Installed(d, q, Copied(e, limit));
    LoggedStart(d, base, faults);
    LoggedInstall(d, d, base, [], [], faults, q, Copied(e, limit), true);
    assert [] + [q] == [q];
    LocateEntry(d2.tree, q);
  }

  lemma CreatedAndFilled(d: Disk, tmp: Path, content: seq<byte>)
    requires ValidDisk(d) && Locate(d.tree, tmp) == Ok(tmp) && tmp !in d.tree
    ensures CreateNew(d, tmp).Ok? && d.next in CreateNew(d, tmp).value.data
    ensures AppendTo(CreateNew(d, tmp).value, d.next, content).tree == d.tree[tmp := File(d.next)]
    ensures ValidDisk(AppendTo(CreateNew(d, tmp).value, d.next, content))
  {
    CreateNewValid(d, tmp);
  }

  /** A chain over existing directories makes none. */
  lemma {:induction false} ChainOverDirs(d: Disk, base: Path, p: Path, i: nat)
    requires ValidDisk(d) && base <= p && IsDir(d.tree, p) && |base| <= i <= |p|
    ensures Chain(ViewOf(d), p[..i], Comps(p[|base|..])[i - |base|..]) == (ViewOf(d), Reached(p))
    decreases |p| - i
  {
    var cs := Comps(p[|base|..])[i - |base|..];
    if i == |p| {
      assert p[..i] == p && cs == [];
    } else {
      PrefixIsDir(d.tree, p, i);
      if i + 1 < |p| {
        PrefixIsDir(d.tree, p, i + 1);
      } else {
        assert p[..i + 1] == p;
      }
      assert p[..i] + [p[i]] == p[..i + 1];
      assert cs[0] == Normal(p[i]) && cs[1..] == Comps(p[|base|..])[i + 1 - |base|..];
      ChainOverDirs(d, base, p, i + 1);
    }
  }
}
