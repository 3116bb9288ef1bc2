/**
 * Archiving a directory and extracting the archive: what comes back, for every
 * source tree and every target directory.
 */
module RoundTrip {
  import opened Prelude
  import opened FileTree
  import opened FileSystems
  import opened ExtractSpec
  import opened ArchiveNames
  import opened ZipTree

  /** How the zip reader presents a member that was written as `it`. */
  function ReadBack(it: ZipItem): ZipEntry
    requires |it.content| < U64_SIZE
  {
    var isDir := it.name != "" && it.name[|it.name| - 1] == '/';
    var mode := if isDir then 0x41ED else 0x81A4;
    ZipEntry(true, EnclosedName(it.name), Some(mode), isDir, |it.content|, it.content, false)
  }

  ghost function TotalBytes(es: seq<ZipEntry>): nat {
    if es == [] then 0 else |es[0].content| + TotalBytes(es[1..])
  }

  /** How many members are files. */
  ghost function FileCount(es: seq<ZipEntry>): nat {
    if es == [] then 0 else (if es[0].isDir then 0 else 1) + FileCount(es[1..])
  }

  function Size(item: Item): nat {
    if item.IFile? then |item.content| else 0
  }

  /** The bytes of all files of a tree. */
  ghost function TreeBytes(a: map<Path, Item>): nat
    decreases |a.Keys|
  {
    if a == map[] then 0
    else
      var r :| r in a;
      Size(a[r]) + TreeBytes(a - {r})
  }

  /** The order of summation does not matter. */
  lemma {:induction false} TreeBytesAt(a: map<Path, Item>, r: Path)
    requires r in a
    ensures TreeBytes(a) == Size(a[r]) + TreeBytes(a - {r})
    decreases |a.Keys|
  {
    var x :| x in a && TreeBytes(a) == Size(a[x]) + TreeBytes(a - {x});
    if x != r {
      TreeBytesAt(a - {x}, r);
      TreeBytesAt(a - {r}, x);
      assert a - {x} - {r} == a - {r} - {x};
    }
  }

  /** The paths below `base`, relative to it. */
  ghost function Rels(v: View, base: Path): set<Path> {
    set p | p in v && base < p :: p[|base|..]
  }

  /** Everything strictly below `base`, keyed by relative path. */
  ghost function Subtree(v: View, base: Path): map<Path, Item> {
    map r | r in Rels(v, base) && base + r in v :: v[base + r]
  }

  /** The part of a source directory an archive carries, keyed by relative path. */
  ghost function Restorable(v: View, base: Path, exclude: set<Path>): map<Path, Item> {
    map r | r in Rels(v, base) && Archived(v, base, exclude, base + r) :: v[base + r]
  }

  /** Everything in the target is also in the archive, directories as directories and nothing else as one. */
  ghost predicate Compatible(target: map<Path, Item>, archive: map<Path, Item>) {
    forall r :: r in target ==> r in archive && (target[r].IDir? <==> archive[r].IDir?)
  }

  // ----- the archive as relative paths with contents -----

  ghost predicate DirsAbove(a: map<Path, Item>, r: Path) {
    forall k :: 0 < k < |r| ==> r[..k] in a && a[r[..k]].IDir?
  }

  /** A set of relative paths that is a tree of directories and regular files. */
  ghost predicate Wellrooted(a: map<Path, Item>) {
    forall r :: r in a ==> r != [] && (a[r].IDir? || a[r].IFile?) && DirsAbove(a, r)
  }

  ghost predicate Matches(e: ZipEntry, r: Path, a: map<Path, Item>) {
    && r in a && e.readable && e.name == Some(Comps(r)) && !IsLinkMode(e.mode) && !e.corrupt
    && e.isDir == a[r].IDir? && e.declared == |e.content|
    && e.content == if a[r].IFile? then a[r].content else []
  }

  ghost predicate AllMatch(es: seq<ZipEntry>, rels: seq<Path>, a: map<Path, Item>) {
    |es| == |rels| && forall i :: 0 <= i < |es| ==> Matches(es[i], rels[i], a)
  }

  lemma SubtreeAt(v: View, base: Path, r: Path)
    requires r != []
    ensures r in Subtree(v, base) <==> base + r in v
    ensures r in Subtree(v, base) ==> Subtree(v, base)[r] == v[base + r]
  {
    assert (base + r)[|base|..] == r;
    if base + r in v {
      assert r in Rels(v, base);
    }
  }

  lemma RestorableAt(v: View, base: Path, exclude: set<Path>, r: Path)
    ensures r in Restorable(v, base, exclude) <==> Archived(v, base, exclude, base + r)
  {
    assert (base + r)[|base|..] == r;
    if Archived(v, base, exclude, base + r) {
      assert r in Rels(v, base);
    }
  }

  lemma RestorableIsWellrooted(d: Disk, base: Path, exclude: set<Path>)
    requires ValidDisk(d)
    ensures Wellrooted(Restorable(ViewOf(d), base, exclude))
  {
    var v := ViewOf(d);
    var a := Restorable(v, base, exclude);
    forall r | r in a ensures r != [] && (a[r].IDir? || a[r].IFile?) && DirsAbove(a, r) {
      RestorableAt(v, base, exclude, r);
      var p := base + r;
      forall k | 0 < k < |r| ensures r[..k] in a && a[r[..k]].IDir? {
        PrefixIsDir(d.tree, p, |base| + k);
        var q := p[..|base| + k];
        assert q == base + r[..k];
        assert forall j :: |base| < j <= |q| ==> q[..j] == p[..j];
        RestorableAt(v, base, exclude, r[..k]);
      }
    }
  }

  // ----- extraction onto a target that clashes with nothing -----

  /** Where target and archive share a path, both or neither have a directory there. */
  ghost predicate NoClash(target: map<Path, Item>, a: map<Path, Item>) {
    forall r :: r in target && r in a ==> (target[r].IDir? <==> a[r].IDir?)
  }

  /** Everything of `a` is there, contents included. */
  ghost predicate Covers(target: map<Path, Item>, a: map<Path, Item>) {
    forall r :: r in a ==> r in target && target[r] == a[r]
  }

  /** `NoClash`, read off the target view directly. */
  ghost predicate Fits(w: View, dest: Path, a: map<Path, Item>) {
    forall p :: p in w && dest < p && p[|dest|..] in a ==> (w[p].IDir? <==> a[p[|dest|..]].IDir?)
  }

  /** Below `dest`, `w'` has no names but those of `w` and of the archive. */
  ghost predicate Within(w: View, w': View, dest: Path, a: map<Path, Item>) {
    forall p :: p in w' && dest < p ==> p in w || p[|dest|..] in a
  }

  ghost predicate Extends(w: View, w': View) {
    forall p :: p in w ==> p in w' && w'[p] == w[p]
  }

  lemma NoClashFits(w: View, dest: Path, a: map<Path, Item>)
    ensures NoClash(Subtree(w, dest), a) <==> Fits(w, dest, a)
  {
    var s := Subtree(w, dest);
    if NoClash(s, a) {
      forall p | p in w && dest < p && p[|dest|..] in a ensures w[p].IDir? <==> a[p[|dest|..]].IDir? {
        assert dest + p[|dest|..] == p;
        SubtreeAt(w, dest, p[|dest|..]);
      }
    }
    if Fits(w, dest, a) {
      forall r | r in s && r in a ensures s[r].IDir? <==> a[r].IDir? {
        assert (dest + r)[|dest|..] == r;
        assert s[r] == w[dest + r];
      }
    }
  }

  /** Setting one path of the archive to something of the right kind. */
  lemma FitsSet(w: View, dest: Path, a: map<Path, Item>, r: Path, item: Item)
    requires Fits(w, dest, a) && r in a && (item.IDir? <==> a[r].IDir?)
    ensures Fits(w[dest + r := item], dest, a) && Within(w, w[dest + r := item], dest, a)
  {
    assert (dest + r)[|dest|..] == r;
  }

  lemma {:induction false} ChainInto(w: View, dest: Path, r: Path, i: nat, a: map<Path, Item>)
    requires i <= |r| && Fits(w, dest, a)
    requires dest + r[..i] in w && w[dest + r[..i]].IDir?
    requires forall k :: 0 < k <= |r| ==> r[..k] in a && a[r[..k]].IDir?
    ensures
      var (w', end) := Chain(w, dest + r[..i], Comps(r)[i..]);
      && end == Reached(dest + r) && dest + r in w' && w'[dest + r].IDir?
      && Fits(w', dest, a) && Extends(w, w') && Within(w, w', dest, a)
    decreases |r| - i
  {
    if i == |r| {
      assert r[..i] == r;
    } else {
      var cur := dest + r[..i];
      var p := cur + [r[i]];
      assert p == dest + r[..i + 1];
      assert Comps(r)[i..][0] == Normal(r[i]) && Comps(r)[i..][1..] == Comps(r)[i + 1..];
      assert p[|dest|..] == r[..i + 1];
      if p in w {
        ChainInto(w, dest, r, i + 1, a);
      } else {
        FitsSet(w, dest, a, r[..i + 1], IDir);
        ChainInto(w[p := IDir], dest, r, i + 1, a);
      }
    }
  }

  /** One member of the archive lands where it belongs and disturbs nothing that is already right. */
  lemma RestoreOne(w: View, dest: Path, e: ZipEntry, r: Path, a: map<Path, Item>, remaining: u64)
    requires Wellrooted(a) && Matches(e, r, a) && Fits(w, dest, a) && dest in w && w[dest].IDir?
    requires |e.content| <= remaining < U64_SIZE - 1
    ensures
      var (w', end) := ExtractOne(w, dest, e, remaining);
      && (a[r].IDir? ==> end == MadeDir) && (a[r].IFile? ==> end == Wrote(|e.content|))
      && dest in w' && w'[dest].IDir? && Fits(w', dest, a) && Within(w, w', dest, a)
      && dest + r in w' && w'[dest + r] == a[r]
      && forall q :: q in a && dest + q in w && w[dest + q] == a[q] ==> dest + q in w' && w'[dest + q] == a[q]
  {
    hide Chain, FillResult, Copied, IsLinkMode, Wellrooted;
    assert r != [] && (a[r].IDir? || a[r].IFile?) && DirsAbove(a, r) by {
      WellrootedAt(a, r);
    }
    if a[r].IDir? {
      assert r[..|r|] == r;
      DirsReached(w, dest, r, a);
    } else {
      var up, n := r[..|r| - 1], r[|r| - 1];
      assert forall k :: 0 < k <= |up| ==> up[..k] == r[..k];
      CompsPrefix(r, |r| - 1);
      DirsReached(w, dest, up, a);
      var (w1, _) := Chain(w, dest, Comps(up));
      assert dest + up + [n] == dest + r && (dest + r)[|dest|..] == r;
      FillsIff(e, remaining);
      CopiedWhole(e, remaining);
      FitsSet(w1, dest, a, r, IFile(e.content));
    }
  }

  lemma WellrootedAt(a: map<Path, Item>, r: Path)
    requires Wellrooted(a) && r in a
    ensures r != [] && (a[r].IDir? || a[r].IFile?) && DirsAbove(a, r)
  {}

  lemma DirsReached(w: View, dest: Path, r: Path, a: map<Path, Item>)
    requires Fits(w, dest, a) && dest in w && w[dest].IDir?
    requires forall k :: 0 < k <= |r| ==> r[..k] in a && a[r[..k]].IDir?
    ensures
      var (w', end) := Chain(w, dest, Comps(r));
      && end == Reached(dest + r) && dest + r in w' && w'[dest + r].IDir?
      && Fits(w', dest, a) && Extends(w, w') && Within(w, w', dest, a)
  {
    assert dest + r[..0] == dest && Comps(r)[0..] == Comps(r);
    ChainInto(w, dest, r, 0, a);
  }

  lemma AllMatchSplit(es: seq<ZipEntry>, rels: seq<Path>, a: map<Path, Item>)
    requires AllMatch(es, rels, a) && es != []
    ensures Matches(es[0], rels[0], a) && rels[0] in a && (a[rels[0]].IDir? || a[rels[0]].IFile? || !Wellrooted(a))
    ensures a[rels[0]].IDir? <==> es[0].isDir
    ensures a[rels[0]].IDir? ==> es[0].content == []
    ensures AllMatch(es[1..], rels[1..], a)
  {}

  lemma {:induction false} RestoreAll(w: View, dest: Path, es: seq<ZipEntry>, rels: seq<Path>, a: map<Path, Item>,
                                      remaining: u64, stats: Stats)
    requires Wellrooted(a) && AllMatch(es, rels, a) && Fits(w, dest, a) && dest in w && w[dest].IDir?
    requires TotalBytes(es) <= remaining < U64_SIZE - 1
    ensures
      var out := ExtractAll(w, dest, es, remaining, stats);
      && out.Done? && out.stats == Stats(stats.written + FileCount(es), stats.skipped)
      && Within(w, out.view, dest, a) && Fits(out.view, dest, a) && dest in out.view && out.view[dest].IDir?
      && (forall i :: 0 <= i < |rels| ==> dest + rels[i] in out.view && out.view[dest + rels[i]] == a[rels[i]])
      && (forall q :: q in a && dest + q in w && w[dest + q] == a[q] ==>
            dest + q in out.view && out.view[dest + q] == a[q])
    decreases |es|
  {
    hide ExtractOne, Wellrooted, Fits, Matches, Within;
    if es != [] {
      WroteWithinBudget(w, dest, es[0], remaining);
      AllMatchSplit(es, rels, a);
      RestoreOne(w, dest, es[0], rels[0], a, remaining);
      var (w', end) := ExtractOne(w, dest, es[0], remaining);
      var left := if end.Wrote? then remaining - end.bytes else remaining;
      RestoreAll(w', dest, es[1..], rels[1..], a, left, Count(stats, end));
      assert forall i :: 0 < i < |rels| ==> rels[i] == rels[1..][i - 1];
      WithinTrans(w, w', ExtractAll(w, dest, es, remaining, stats).view, dest, a);
    } else {
      WithinTrans(w, w, w, dest, a);
    }
  }

  lemma WithinTrans(w: View, w1: View, w2: View, dest: Path, a: map<Path, Item>)
    ensures Within(w, w, dest, a)
    ensures Within(w, w1, dest, a) && Within(w1, w2, dest, a) ==> Within(w, w2, dest, a)
  {}

  // ----- extraction never removes a name and never turns a directory into something else -----

  ghost predicate KindsKept(w: View, w': View) {
    forall p :: p in w ==> p in w' && (w[p].IDir? <==> w'[p].IDir?)
  }

  lemma {:induction false} ChainKeepsKinds(w: View, cur: Path, cs: seq<Component>)
    ensures KindsKept(w, Chain(w, cur, cs).0)
    decreases |cs|
  {
    if cs != [] {
      match cs[0]
      case CurDir => ChainKeepsKinds(w, cur, cs[1..]);
      case Normal(n) =>
        var p := cur + [n];
        if cur in w && w[cur].IDir? {
          if p !in w {
            ChainKeepsKinds(w[p := IDir], p, cs[1..]);
          } else if w[p].IDir? {
            ChainKeepsKinds(w, p, cs[1..]);
          }
        }
      case _ =>
    }
  }

  lemma OneKeepsKinds(w: View, dest: Path, e: ZipEntry, remaining: u64)
    ensures KindsKept(w, ExtractOne(w, dest, e, remaining).0)
  {
    if e.name.Some? {
      var rel := e.name.value;
      ChainKeepsKinds(w, dest, rel);
      if rel != [] {
        ChainKeepsKinds(w, dest, rel[..|rel| - 1]);
      }
    }
  }

  lemma {:induction false} AllKeepKinds(w: View, dest: Path, es: seq<ZipEntry>, remaining: u64, stats: Stats)
    ensures var out := ExtractAll(w, dest, es, remaining, stats); out.Done? ==> KindsKept(w, out.view)
    decreases |es|
  {
    if es != [] {
      OneKeepsKinds(w, dest, es[0], remaining);
      WroteWithinBudget(w, dest, es[0], remaining);
      var (w', end) := ExtractOne(w, dest, es[0], remaining);
      if !end.Aborted? {
        AllKeepKinds(w', dest, es[1..], if end.Wrote? then remaining - end.bytes else remaining, Count(stats, end));
      }
    }
  }

  // ----- the two directions together -----

  /** Without a clash nothing is skipped, so an extraction that completes had room for everything. */
  lemma {:induction false} DoneHadRoom(w: View, dest: Path, es: seq<ZipEntry>, rels: seq<Path>, a: map<Path, Item>,
                                       remaining: u64, stats: Stats)
    requires Wellrooted(a) && AllMatch(es, rels, a) && Fits(w, dest, a) && dest in w && w[dest].IDir?
    requires remaining < U64_SIZE - 1
    requires ExtractAll(w, dest, es, remaining, stats).Done?
    ensures TotalBytes(es) <= remaining
    decreases |es|
  {
    hide ExtractOne, Wellrooted, Fits, Matches, Within;
    if es != [] {
      AllMatchSplit(es, rels, a);
      TooBigAborts(w, dest, es[0], rels[0], a, remaining);
      RestoreOne(w, dest, es[0], rels[0], a, remaining);
      var (w', end) := ExtractOne(w, dest, es[0], remaining);
      WroteWithinBudget(w, dest, es[0], remaining);
      var left := if end.Wrote? then remaining - end.bytes else remaining;
      DoneHadRoom(w', dest, es[1..], rels[1..], a, left, Count(stats, end));
    }
  }

  lemma TooBigAborts(w: View, dest: Path, e: ZipEntry, r: Path, a: map<Path, Item>, remaining: u64)
    requires Wellrooted(a) && Matches(e, r, a)
    ensures |e.content| > remaining ==> ExtractOne(w, dest, e, remaining).1.Aborted?
  {}

  /**
   * An archive listing all of `a`, extracted onto any target. Without a clash it
   * completes exactly if the budget suffices, with every file counted and nothing
   * skipped. Once it completes, everything of
   * `a` is there if and only if nothing clashed before, and nothing but `a` is
   * there if and only if the target was compatible before.
   */
  lemma RebuildsIff(w: View, dest: Path, es: seq<ZipEntry>, rels: seq<Path>, a: map<Path, Item>, limit: u64)
    requires Wellrooted(a) && AllMatch(es, rels, a) && (forall r :: r in a ==> r in rels)
    requires dest in w && w[dest].IDir? && limit < U64_SIZE - 1
    ensures
      var out := ExtractAll(w, dest, es, limit, Stats(0, 0));
      && (NoClash(Subtree(w, dest), a) ==> (out.Done? <==> TotalBytes(es) <= limit))
      && (NoClash(Subtree(w, dest), a) && out.Done? ==> out.stats == Stats(FileCount(es), 0))
      && (out.Done? ==> (Covers(Subtree(out.view, dest), a) <==> NoClash(Subtree(w, dest), a)))
      && (out.Done? ==> (Subtree(out.view, dest) == a <==> Compatible(Subtree(w, dest), a)))
  {
    var out := ExtractAll(w, dest, es, limit, Stats(0, 0));
    NoClashFits(w, dest, a);
    if Fits(w, dest, a) {
      if out.Done? {
        DoneHadRoom(w, dest, es, rels, a, limit, Stats(0, 0));
      }
      if TotalBytes(es) <= limit {
        RestoreAll(w, dest, es, rels, a, limit, Stats(0, 0));
        RestoredCovers(out.view, dest, rels, a);
        if Compatible(Subtree(w, dest), a) {
          CompatibleRebuilds(w, out.view, dest, a);
        }
      }
    }
    if out.Done? {
      AllKeepKinds(w, dest, es, limit, Stats(0, 0));
      KeptKinds(w, out.view, dest, a);
    }
  }

  lemma RestoredCovers(v: View, dest: Path, rels: seq<Path>, a: map<Path, Item>)
    requires Wellrooted(a) && (forall r :: r in a ==> r in rels)
    requires forall i :: 0 <= i < |rels| ==> rels[i] in a && dest + rels[i] in v && v[dest + rels[i]] == a[rels[i]]
    ensures Covers(Subtree(v, dest), a)
  {
    forall r | r in a ensures r in Subtree(v, dest) && Subtree(v, dest)[r] == a[r] {
      SubtreeAt(v, dest, r);
    }
  }

  lemma CompatibleRebuilds(w: View, v: View, dest: Path, a: map<Path, Item>)
    requires Covers(Subtree(v, dest), a) && Within(w, v, dest, a) && Compatible(Subtree(w, dest), a)
    ensures Subtree(v, dest) == a
  {
    forall r | r in Subtree(v, dest) ensures r in a {
      var p := dest + r;
      assert p[|dest|..] == r && dest < p;
      if p in w {
        SubtreeAt(w, dest, r);
      }
    }
  }

  /** Old names keep their kind, so what the result shows of them tells what they were. */
  lemma KeptKinds(w: View, w': View, dest: Path, a: map<Path, Item>)
    requires KindsKept(w, w')
    ensures Covers(Subtree(w', dest), a) ==> NoClash(Subtree(w, dest), a)
    ensures Subtree(w', dest) == a ==> Compatible(Subtree(w, dest), a)
  {
    var s, s' := Subtree(w, dest), Subtree(w', dest);
    forall r | r in s ensures r in s' && (s[r].IDir? <==> s'[r].IDir?) {
      assert dest < dest + r;
      SubtreeAt(w', dest, r);
    }
  }

  // ----- from a source directory to its archive and back -----

  lemma FirstApart(es: seq<ZipEntry>, rels: seq<Path>, a: map<Path, Item>)
    requires AllMatch(es, rels, a) && es != [] && (forall r :: r in a ==> r in rels)
    requires forall i, j :: 0 <= i < j < |rels| ==> rels[i] != rels[j]
    ensures rels[0] in a && |es[0].content| == Size(a[rels[0]])
    ensures AllMatch(es[1..], rels[1..], a - {rels[0]})
    ensures forall r :: r in a - {rels[0]} ==> r in rels[1..]
    ensures forall i, j :: 0 <= i < j < |rels[1..]| ==> rels[1..][i] != rels[1..][j]
  {
    assert Matches(es[0], rels[0], a);
    forall i | 0 <= i < |es[1..]| ensures Matches(es[1..][i], rels[1..][i], a - {rels[0]}) {
      MatchesApart(es[i + 1], rels[i + 1], a, rels[0]);
    }
    hide Matches;
    assert rels == [rels[0]] + rels[1..];
  }

  lemma MatchesApart(e: ZipEntry, r: Path, a: map<Path, Item>, x: Path)
    requires Matches(e, r, a) && r != x
    ensures Matches(e, r, a - {x})
  {}

  lemma OneFewer(a: map<Path, Item>, x: Path)
    requires x in a
    ensures |a - {x}| == |a| - 1
  {
    assert (a - {x}).Keys == a.Keys - {x};
  }

  /** An archive that lists a tree without repetition has one member per path and the tree's bytes. */
  lemma {:induction false} ArchiveWeighs(es: seq<ZipEntry>, rels: seq<Path>, a: map<Path, Item>)
    requires AllMatch(es, rels, a) && (forall r :: r in a ==> r in rels)
    requires forall i, j :: 0 <= i < j < |rels| ==> rels[i] != rels[j]
    ensures |es| == |a| && TotalBytes(es) == TreeBytes(a)
    decreases |es|
  {
    hide Matches;
    if es == [] {
      assert a == map[];
    } else {
      FirstApart(es, rels, a);
      OneFewer(a, rels[0]);
      ArchiveWeighs(es[1..], rels[1..], a - {rels[0]});
      TreeBytesAt(a, rels[0]);
    }
  }

  ghost predicate Readable(items: seq<ZipItem>) {
    forall i :: 0 <= i < |items| ==> |items[i].content| < U64_SIZE
  }

  ghost function ReadAll(items: seq<ZipItem>): (es: seq<ZipEntry>)
    requires Readable(items)
    ensures |es| == |items|
  {
    seq(|items|, i requires 0 <= i < |items| => ReadBack(items[i]))
  }

  ghost function RelPaths(paths: seq<Path>, base: Path): (rels: seq<Path>)
    requires forall i :: 0 <= i < |paths| ==> base <= paths[i]
    ensures |rels| == |paths|
  {
    seq(|paths|, i requires 0 <= i < |paths| => paths[i][|base|..])
  }

  /** Names below `base` as the operating system allows them, and free of backslashes where archived. */
  ghost predicate PlainTree(v: View, base: Path, exclude: set<Path>) {
    forall p :: Archived(v, base, exclude, p) ==> forall i :: |base| <= i < |p| ==> OsName(p[i]) && PlainName(p[i])
  }

  lemma MemberMatches(v: View, base: Path, exclude: set<Path>, p: Path)
    requires PlainTree(v, base, exclude) && Archived(v, base, exclude, p)
    requires v[p].IFile? ==> |v[p].content| < U64_SIZE
    ensures Matches(ReadBack(ItemFor(v, base, p)), p[|base|..], Restorable(v, base, exclude))
  {
    var r := p[|base|..];
    assert base + r == p;
    RestorableAt(v, base, exclude, r);
    assert forall i :: 0 <= i < |r| ==> r[i] == p[|base| + i];
    PlainNameReturns(r, v[p].IDir?);
    PlainUnchanged(r);
    StartsPlain(r);
    var name := StoredName(r) + if v[p].IDir? then "/" else "";
    if !v[p].IDir? {
      assert name == StoredName(r);
    }
  }

  /** What `ZipTree` wrote, read back, lists exactly the restorable part of the source. */
  lemma ArchiveMatches(v: View, base: Path, exclude: set<Path>, items: seq<ZipItem>, paths: seq<Path>)
    requires Lists(paths, v, base, exclude) && Renders(items, paths, v, base) && Readable(items)
    requires PlainTree(v, base, exclude)
    ensures AllMatch(ReadAll(items), RelPaths(paths, base), Restorable(v, base, exclude))
    ensures forall r :: r in Restorable(v, base, exclude) ==> r in RelPaths(paths, base)
  {
    var a, rels := Restorable(v, base, exclude), RelPaths(paths, base);
    forall i | 0 <= i < |items| ensures Matches(ReadAll(items)[i], rels[i], a) {
      assert paths[i] in paths;
      MemberMatches(v, base, exclude, paths[i]);
    }
    forall r | r in a ensures r in rels {
      RestorableAt(v, base, exclude, r);
      var i :| 0 <= i < |paths| && paths[i] == base + r;
      assert rels[i] == r;
    }
  }

  /**
   * Archive `base` of a source disk, extract onto `dest` of a target view. Without
   * a clash it completes exactly if the source's files fit the byte limit. Then the
   * target holds all of the source's directories and regular files, bar links,
   * special files, temp names and what is beneath them, if and only if nothing on
   * the target clashed with them before, and holds exactly those if and only if the
   * target had no other names either.
   */
  lemma ArchiveRoundTrip(src: Disk, base: Path, exclude: set<Path>, items: seq<ZipItem>, paths: seq<Path>,
                         w: View, dest: Path, limit: u64)
    requires ValidDisk(src) && Lists(paths, ViewOf(src), base, exclude) && Renders(items, paths, ViewOf(src), base)
    requires PlainTree(ViewOf(src), base, exclude) && Readable(items) && limit < U64_SIZE - 1
    requires dest in w && w[dest].IDir?
    ensures
      var a := Restorable(ViewOf(src), base, exclude);
      var out := ExtractAll(w, dest, ReadAll(items), limit, Stats(0, 0));
      && |items| == |a|
      && (NoClash(Subtree(w, dest), a) ==> (out.Done? <==> TreeBytes(a) <= limit))
      && (out.Done? ==> (Covers(Subtree(out.view, dest), a) <==> NoClash(Subtree(w, dest), a)))
      && (out.Done? ==> (Subtree(out.view, dest) == a <==> Compatible(Subtree(w, dest), a)))
  {
    hide Lists, ItemFor, PlainTree, Readable, AllMatch, Wellrooted, Restorable, ExtractAll, TotalBytes, TreeBytes;
    var a, rels := Restorable(ViewOf(src), base, exclude), RelPaths(paths, base);
    RestorableIsWellrooted(src, base, exclude);
    ArchiveMatches(ViewOf(src), base, exclude, items, paths);
    RelsDistinct(paths, ViewOf(src), base, exclude);
    ArchiveWeighs(ReadAll(items), rels, a);
    RebuildsIff(w, dest, ReadAll(items), rels, a, limit);
  }

  lemma RelsDistinct(paths: seq<Path>, v: View, base: Path, exclude: set<Path>)
    requires Lists(paths, v, base, exclude) && forall i :: 0 <= i < |paths| ==> base <= paths[i]
    ensures var rels := RelPaths(paths, base); forall i, j :: 0 <= i < j < |rels| ==> rels[i] != rels[j]
  {
    var rels := RelPaths(paths, base);
    forall i, j | 0 <= i < j < |rels| ensures rels[i] != rels[j] {
      assert base + rels[i] == paths[i] && base + rels[j] == paths[j];
    }
  }
}
