/**
 * Moving a server between nodes, as a step system in which any step may fail or
 * be the last one before the panel stops, and attempts may follow one another.
 */
module ServerMigration {
  import opened Prelude
  import opened FileTree
  import opened FileSystems
  import opened ExtractSpec
  import opened ZipTree
  import opened RoundTrip
  import Backup
  import SafeFs

  datatype Node = Source | Target

  /** How far one run of `MigrateServer` got. */
  datatype Phase = NotRunning | Preflighted | ArchiveMade | Downloaded | Imported

  /**
   * `record` is the node the server record names; `target` what the target node
   * holds; `archive` the transient archive on the source node.
   */
  datatype State = State(record: Node, target: View, archive: Option<seq<ZipItem>>, phase: Phase)

  /** The server being moved: its stopped, unchanging data on the source and its place on the target. */
  datatype Move = Move(source: Disk, base: Path, dest: Path)

  /**
   * What became of an import on the target. `BrokeOff` covers every way an
   * extraction ends early: an error with its rollback, complete or not, and the
   * daemon dying in the middle of either.
   */
  datatype ImportOutcome =
    | Completed                        // every entry extracted
    | Refused(made: bool)              // nothing extracted; the server directory may have been made
    | BrokeOff(at: Break)

  datatype Event =
    | Preflight(ok: bool)
    | CreateBackup(made: Option<seq<ZipItem>>)
    | Download(ok: bool)
    | Import(outcome: ImportOutcome)
    | CompleteMigration(ok: bool, replyLost: bool)
    | DeleteArchive(ok: bool)
    | PanelStops

  /** An archive that `zip_tree` may produce for the server directory. */
  ghost predicate ArchiveOf(m: Move, items: seq<ZipItem>) {
    Readable(items) && exists paths ::
      Lists(paths, ViewOf(m.source), m.base, {}) && Renders(items, paths, ViewOf(m.source), m.base)
  }

  /** `create_dir_all` of the server directory; the directory it sits in is there. */
  ghost function Prepared(m: Move, target: View): View {
    if m.dest in target then target else target[m.dest := IDir]
  }

  ghost function Import(m: Move, target: View, items: seq<ZipItem>): Extraction
    requires Readable(items)
  {
    ExtractAll(Prepared(m, target), m.dest, ReadAll(items), Backup.MAX_EXTRACT_BYTES, Stats(0, 0))
  }

  /** One step; an event that is not possible in `s` leaves it alone. */
  ghost function Step(m: Move, s: State, e: Event): State {
    match e
    // the server must be stopped, and not on the target already
    case Preflight(ok) => if s.phase.NotRunning? && s.record == Source && ok then s.(phase := Preflighted) else s
    case CreateBackup(made) =>
      if !s.phase.Preflighted? then s
      else if made.Some? && ArchiveOf(m, made.value) then s.(archive := made, phase := ArchiveMade)
      else s.(phase := NotRunning)
    case Download(ok) =>
      if !s.phase.ArchiveMade? then s else s.(phase := if ok && s.archive.Some? then Downloaded else NotRunning)
    case Import(outcome) =>
      if !(s.phase.Downloaded? && s.archive.Some? && Readable(s.archive.value)) then s
      else (match outcome
        case Completed =>
          var out := Import(m, s.target, s.archive.value);
          if out.Done? && |s.archive.value| <= Backup.MAX_EXTRACT_ENTRIES then s.(target := out.view, phase := Imported)
          else s
        case Refused(made) => s.(target := if made then Prepared(m, s.target) else s.target, phase := NotRunning)
        case BrokeOff(at) =>
          var v, es := Prepared(m, s.target), ReadAll(s.archive.value);
          if CanBreak(v, m.dest, es, Backup.MAX_EXTRACT_BYTES, at)
          then s.(target := Broken(v, m.dest, es, Backup.MAX_EXTRACT_BYTES, at), phase := NotRunning)
          else s)
    case CompleteMigration(ok, replyLost) =>
      if !s.phase.Imported? then s
      else s.(record := if ok || replyLost then Target else s.record, phase := NotRunning)
    case DeleteArchive(ok) => if s.phase.NotRunning? && ok then s.(archive := None) else s
    case PanelStops => s.(phase := NotRunning)
  }

  ghost function Run(m: Move, s: State, es: seq<Event>): State
    decreases |es|
  {
    if es == [] then s else Run(m, Step(m, s, es[0]), es[1..])
  }

  /** Everything a backup of the server would restore. */
  ghost function ServerTree(m: Move): map<Path, Item> {
    Restorable(ViewOf(m.source), m.base, {})
  }

  /** The server directory on the target, if it is there, clashes with nothing of the server's tree. */
  ghost predicate TargetFits(m: Move, target: View) {
    && (m.dest in target ==> target[m.dest].IDir?)
    && NoClash(Subtree(target, m.dest), ServerTree(m))
  }

  ghost predicate ValidMove(m: Move) {
    && ValidDisk(m.source) && IsDir(m.source.tree, m.base)
    && PlainTree(ViewOf(m.source), m.base, {})
  }

  /** The node the record names holds the complete server tree. */
  ghost predicate RecordIsSafe(m: Move, s: State) {
    s.record == Target ==> Covers(Subtree(s.target, m.dest), ServerTree(m))
  }

  /** Reachable states: the target is complete once an import has completed, and only then does the record name it. */
  ghost predicate Inv(m: Move, s: State) {
    && RecordIsSafe(m, s)
    && (s.record == Source ==> TargetFits(m, s.target))
    && (s.phase.Imported? ==> Covers(Subtree(s.target, m.dest), ServerTree(m)))
    && (s.phase.ArchiveMade? || s.phase.Downloaded? ==> s.archive.Some? && ArchiveOf(m, s.archive.value))
    && (!s.phase.NotRunning? ==> s.record == Source)
  }

  // ----- the target stays fit -----

  lemma PreparedFits(m: Move, target: View)
    requires TargetFits(m, target)
    ensures var v := Prepared(m, target); TargetFits(m, v) && m.dest in v && v[m.dest].IDir?
    ensures Subtree(Prepared(m, target), m.dest) == Subtree(target, m.dest)
  {
    hide ServerTree, NoClash;
    assert Rels(Prepared(m, target), m.dest) == Rels(target, m.dest);
    assert Subtree(Prepared(m, target), m.dest) == Subtree(target, m.dest);
  }

  /** Taking names away makes no clash. */
  lemma FewerFit(m: Move, v: View, removed: set<Path>)
    requires TargetFits(m, v) && forall p :: p in removed ==> m.dest < p
    ensures TargetFits(m, v - removed)
  {
    NoClashFits(v, m.dest, ServerTree(m));
    NoClashFits(v - removed, m.dest, ServerTree(m));
  }

  /** A temp file is never part of the server tree, ... */
  lemma TempNotInTree(m: Move, r: Path)
    requires r != [] && IsTempName(Last(r))
    ensures r !in ServerTree(m)
  {
    hide IsTempName, Restorable, ViewOf;
    RestorableAt(ViewOf(m.source), m.base, {}, r);
    var q := m.base + r;
    assert q[..|q|] == q && Last(q) == Last(r);
  }

  /** ... so one left behind clashes with nothing. */
  lemma LeftTempFits(m: Move, target: View, p: Path, content: seq<byte>)
    requires TargetFits(m, target) && m.dest < p && IsTempName(Last(p))
    ensures TargetFits(m, target[p := IFile(content)])
  {
    hide ServerTree, IsTempName, NoClash, Subtree;
    TempNotInTree(m, p[|m.dest|..]);
    NoClashFits(target, m.dest, ServerTree(m));
    NoClashFits(target[p := IFile(content)], m.dest, ServerTree(m));
  }

  /** Nor do directories of the server tree, however many of those above one of its members were made. */
  lemma ChainFits(m: Move, v: View, e: ZipEntry, r: Path, steps: nat)
    requires Wellrooted(ServerTree(m)) && Matches(e, r, ServerTree(m)) && steps <= DirSteps(e)
    requires TargetFits(m, v) && m.dest in v && v[m.dest].IDir?
    ensures
      var v' := Chain(v, m.dest, Comps(r)[..steps]).0;
      TargetFits(m, v') && m.dest in v' && v'[m.dest].IDir?
  {
    var a, up := ServerTree(m), r[..steps];
    assert DirsAbove(a, r);
    forall k | 0 < k <= |up| ensures up[..k] in a && a[up[..k]].IDir? {
      assert up[..k] == r[..k];
      if k == |r| {
        assert r[..k] == r;
      }
    }
    CompsPrefix(r, steps);
    assert up[..0] == [] && m.dest + up[..0] == m.dest && Comps(up)[0..] == Comps(up);
    NoClashFits(v, m.dest, a);
    ChainInto(v, m.dest, up, 0, a);
    NoClashFits(Chain(v, m.dest, Comps(up)).0, m.dest, a);
  }

  lemma HaltFits(m: Move, v: View, e: ZipEntry, r: Path, h: Halt)
    requires Wellrooted(ServerTree(m)) && Matches(e, r, ServerTree(m)) && CanHalt(m.dest, e, h)
    requires TargetFits(m, v) && m.dest in v && v[m.dest].IDir?
    ensures TargetFits(m, Halted(v, m.dest, e, h))
  {
    hide TargetFits, Wellrooted, Chain;
    ChainFits(m, v, e, r, h.steps);
    var v' := if h.steps == 0 then v else Chain(v, m.dest, e.name.value[..h.steps]).0;
    if h.temp.Some? {
      LeftTempFits(m, v', h.temp.value.0, h.temp.value.1);
    }
  }

  lemma EntriesFit(m: Move, target: View, es: seq<ZipEntry>, rels: seq<Path>, a: map<Path, Item>)
    requires a == ServerTree(m) && Wellrooted(a) && AllMatch(es, rels, a)
    requires TargetFits(m, target) && m.dest in target
    ensures
      var out := ExtractAll(target, m.dest, es, Backup.MAX_EXTRACT_BYTES, Stats(0, 0));
      out.Done? ==> TargetFits(m, out.view) && m.dest in out.view && out.view[m.dest].IDir?
  {
    var out := ExtractAll(target, m.dest, es, Backup.MAX_EXTRACT_BYTES, Stats(0, 0));
    if out.Done? {
      NoClashFits(target, m.dest, a);
      DoneHadRoom(target, m.dest, es, rels, a, Backup.MAX_EXTRACT_BYTES, Stats(0, 0));
      RestoreAll(target, m.dest, es, rels, a, Backup.MAX_EXTRACT_BYTES, Stats(0, 0));
      NoClashFits(out.view, m.dest, a);
    }
  }

  lemma PrefixMatches(es: seq<ZipEntry>, rels: seq<Path>, a: map<Path, Item>, k: nat)
    requires AllMatch(es, rels, a) && k <= |es|
    ensures AllMatch(es[..k], rels[..k], a) && (k < |es| ==> Matches(es[k], rels[k], a))
  {}

  /**
   * Wherever an import of the server's archive breaks off (after any number of
   * entries, among the directories of the next, with a temp file left, and however
   * much of it a rollback took away again), the target still fits.
   */
  lemma BreakFits(m: Move, target: View, items: seq<ZipItem>, at: Break)
    requires ValidMove(m) && ArchiveOf(m, items) && TargetFits(m, target) && m.dest in target
    requires CanBreak(target, m.dest, ReadAll(items), Backup.MAX_EXTRACT_BYTES, at)
    ensures TargetFits(m, Broken(target, m.dest, ReadAll(items), Backup.MAX_EXTRACT_BYTES, at))
  {
    hide TargetFits, AllMatch, Matches, Wellrooted, ExtractAll, CanHalt, Halted, ReadAll;
    var es, a, k := ReadAll(items), ServerTree(m), at.entries;
    var paths :| Lists(paths, ViewOf(m.source), m.base, {}) && Renders(items, paths, ViewOf(m.source), m.base);
    var rels := RelPaths(paths, m.base);
    RestorableIsWellrooted(m.source, m.base, {});
    ArchiveMatches(ViewOf(m.source), m.base, {}, items, paths);
    PrefixMatches(es, rels, a, k);
    EntriesFit(m, target, es[..k], rels[..k], a);
    var v := ExtractAll(target, m.dest, es[..k], Backup.MAX_EXTRACT_BYTES, Stats(0, 0)).view;
    if k < |es| {
      HaltFits(m, v, es[k], rels[k], at.halt);
      FewerFit(m, Halted(v, m.dest, es[k], at.halt), at.removed);
    } else {
      FewerFit(m, v, at.removed);
    }
  }

  lemma ImportCompletes(m: Move, target: View, items: seq<ZipItem>)
    requires ValidMove(m) && ArchiveOf(m, items) && TargetFits(m, target)
    ensures
      var out := Import(m, target, items);
      out.Done? ==> Covers(Subtree(out.view, m.dest), ServerTree(m)) && TargetFits(m, out.view)
  {
    var paths :| Lists(paths, ViewOf(m.source), m.base, {}) && Renders(items, paths, ViewOf(m.source), m.base);
    var v := Prepared(m, target);
    PreparedFits(m, target);
    ArchiveRoundTrip(m.source, m.base, {}, items, paths, v, m.dest, Backup.MAX_EXTRACT_BYTES);
    AllKeepKinds(v, m.dest, ReadAll(items), Backup.MAX_EXTRACT_BYTES, Stats(0, 0));
  }

  // ----- every run -----

  lemma StepKeepsInv(m: Move, s: State, e: Event)
    requires ValidMove(m) && Inv(m, s)
    ensures Inv(m, Step(m, s, e))
  {
    hide TargetFits, Covers, ArchiveOf, ExtractAll, Prepared, CanBreak, Broken, ReadAll;
    if e.Import? && s.phase.Downloaded? {
      PreparedFits(m, s.target);
      match e.outcome
      case Completed => ImportCompletes(m, s.target, s.archive.value);
      case Refused(_) =>
      case BrokeOff(at) =>
        if Readable(s.archive.value)
           && CanBreak(Prepared(m, s.target), m.dest, ReadAll(s.archive.value), Backup.MAX_EXTRACT_BYTES, at) {
          BreakFits(m, Prepared(m, s.target), s.archive.value, at);
        }
    }
  }

  /**
   * Whatever fails and wherever panel or daemon stop, over any number of attempts:
   * the node the server record names holds the complete server tree.
   */
  lemma {:induction false} MigrationIsSafe(m: Move, s: State, es: seq<Event>)
    requires ValidMove(m) && Inv(m, s)
    ensures Inv(m, Run(m, s, es)) && RecordIsSafe(m, Run(m, s, es))
    decreases |es|
  {
    if es != [] {
      StepKeepsInv(m, s, es[0]);
      MigrationIsSafe(m, Step(m, s, es[0]), es[1..]);
    }
  }

  /** A server on the source and a target that has no copy of it, be its directory missing or empty. */
  lemma FreshTargetFits(m: Move, target: View)
    requires m.dest in target ==> target[m.dest].IDir?
    requires Subtree(target, m.dest) == map[]
    ensures Inv(m, State(Source, target, None, NotRunning))
  {}

  lemma {:induction false} RunSnoc(m: Move, s: State, es: seq<Event>, e: Event)
    ensures Run(m, s, es + [e]) == Step(m, Run(m, s, es), e)
    decreases |es|
  {
    if es != [] {
      assert (es + [e])[1..] == es[1..] + [e];
      RunSnoc(m, Step(m, s, es[0]), es[1..], e);
    }
  }

  /**
   * How an attempt that is under way after `es` came about: the events that took it
   * from one phase to the next, as far as it has got.
   */
  datatype Past = Past(preflight: nat, backup: nat, download: nat, imported: nat)

  /** The attempt began with a preflight that succeeded, and has not ended since. */
  ghost predicate Began(m: Move, s: State, es: seq<Event>, h: Past) {
    && h.preflight < |es| && es[h.preflight] == Preflight(true)
    && Run(m, s, es[..h.preflight]).phase.NotRunning? && Run(m, s, es[..h.preflight]).record == Source
    && forall k :: h.preflight < k <= |es| ==> !Run(m, s, es[..k]).phase.NotRunning?
  }

  /** Then the archive the state holds was made, ... */
  ghost predicate HasArchive(m: Move, s: State, es: seq<Event>, h: Past) {
    && h.preflight < h.backup < |es| && es[h.backup] == CreateBackup(Run(m, s, es).archive)
    && Run(m, s, es).archive.Some? && ArchiveOf(m, Run(m, s, es).archive.value)
  }

  /** ... downloaded, ... */
  ghost predicate Fetched(es: seq<Event>, h: Past) {
    h.backup < h.download < |es| && es[h.download] == Download(true)
  }

  /** ... and imported completely, onto the target as it still is. */
  ghost predicate Imports(m: Move, s: State, es: seq<Event>, h: Past) {
    && h.download < h.imported < |es| && es[h.imported] == Event.Import(Completed)
    && Run(m, s, es[..h.imported + 1]).target == Run(m, s, es).target
    && Covers(Subtree(Run(m, s, es).target, m.dest), ServerTree(m))
  }

  /** The attempt under way after `es` went through every step up to its phase, and each succeeded. */
  ghost predicate Explains(m: Move, s: State, es: seq<Event>, h: Past) {
    var phase := Run(m, s, es).phase;
    && Began(m, s, es, h)
    && (!phase.Preflighted? ==> HasArchive(m, s, es, h))
    && (phase.Downloaded? || phase.Imported? ==> Fetched(es, h))
    && (phase.Imported? ==> Imports(m, s, es, h))
  }

  /** The only ways into a phase of an attempt; anything else leaves the state as it is. */
  lemma OneStep(m: Move, s: State, e: Event)
    requires !Step(m, s, e).phase.NotRunning?
    ensures
      var s' := Step(m, s, e);
      s' == s || (match s'.phase
        case Preflighted => e == Preflight(true) && s.phase.NotRunning? && s.record == Source
        case ArchiveMade =>
          s.phase.Preflighted? && e == CreateBackup(s'.archive) && s'.archive.Some? && ArchiveOf(m, s'.archive.value)
        case Downloaded => s.phase.ArchiveMade? && e == Download(true) && s'.archive == s.archive
        case Imported => s.phase.Downloaded? && e == Event.Import(Completed) && s'.archive == s.archive
        case NotRunning => true)
  {
    hide Import, CanBreak, Broken, Prepared, ArchiveOf, ReadAll;
  }

  /** The record moves to the target in one step only. */
  lemma RepointStep(m: Move, s: State, e: Event)
    requires s.record == Source && Step(m, s, e).record == Target
    ensures s.phase.Imported? && e.CompleteMigration? && (e.ok || e.replyLost) && Step(m, s, e).target == s.target
  {
    hide Import, CanBreak, Broken, Prepared, ArchiveOf, ReadAll;
  }

  lemma LastStep(m: Move, s: State, es: seq<Event>)
    requires es != []
    ensures
      var init := es[..|es| - 1];
      && Run(m, s, es) == Step(m, Run(m, s, init), es[|es| - 1]) && es[..|es|] == es && es[..|init|] == init
      && forall k :: 0 <= k <= |init| ==> es[..k] == init[..k]
  {
    hide Step;
    assert es == es[..|es| - 1] + [es[|es| - 1]];
    RunSnoc(m, s, es[..|es| - 1], es[|es| - 1]);
  }

  /** An attempt that did not move stays explained. */
  lemma StaysExplained(m: Move, s: State, es: seq<Event>, h: Past)
    requires es != [] && Run(m, s, es) == Run(m, s, es[..|es| - 1]) && !Run(m, s, es).phase.NotRunning?
    requires Explains(m, s, es[..|es| - 1], h)
    ensures Explains(m, s, es, h)
  {
    hide Run, Covers, ServerTree, ArchiveOf;
    LastStep(m, s, es);
  }

  /** One that did is explained by the step it took. */
  lemma MovesExplained(m: Move, s: State, es: seq<Event>, h: Past)
    requires es != [] && ValidMove(m) && Inv(m, Run(m, s, es))
    requires
      var s1, e := Run(m, s, es[..|es| - 1]), es[|es| - 1];
      && !Run(m, s, es).phase.NotRunning? && Run(m, s, es) != s1
      && (s1.phase.NotRunning? ==> h == Past(|es| - 1, 0, 0, 0))
      && (!s1.phase.NotRunning? ==> Explains(m, s, es[..|es| - 1], h))
    ensures
      var k := |es| - 1;
      Explains(m, s, es, match Run(m, s, es).phase
                         case ArchiveMade => h.(backup := k)
                         case Downloaded => h.(download := k)
                         case Imported => h.(imported := k)
                         case _ => h)
  {
    hide Run, Step, Covers, ServerTree, ArchiveOf, TargetFits;
    LastStep(m, s, es);
    OneStep(m, Run(m, s, es[..|es| - 1]), es[|es| - 1]);
  }

  /** Whatever the events, an attempt under way went through each of its steps with success. */
  lemma {:induction false} AttemptExplained(m: Move, s: State, es: seq<Event>) returns (h: Past)
    requires ValidMove(m) && Inv(m, s) && s.phase.NotRunning? && !Run(m, s, es).phase.NotRunning?
    ensures Explains(m, s, es, h)
    decreases |es|
  {
    hide Step, Inv, ValidMove, Explains;
    if es == [] {
      assert false;
    } else {
      var init, k := es[..|es| - 1], |es| - 1;
      LastStep(m, s, es);
      MigrationIsSafe(m, s, es);
      if !Run(m, s, init).phase.NotRunning? {
        h := AttemptExplained(m, s, init);
      } else {
        h := Past(k, 0, 0, 0);
      }
      if Run(m, s, es) == Run(m, s, init) {
        StaysExplained(m, s, es, h);
      } else {
        MovesExplained(m, s, es, h);
        match Run(m, s, es).phase
        case ArchiveMade => h := h.(backup := k);
        case Downloaded => h := h.(download := k);
        case Imported => h := h.(imported := k);
        case _ =>
      }
    }
  }

  /**
   * Event `j` re-points the record, by a completion that took effect, at the end of an
   * attempt in which preflight, archive, download and import all succeeded.
   */
  ghost predicate Repoints(m: Move, s: State, es: seq<Event>, j: nat, h: Past) {
    && j < |es| && es[j].CompleteMigration? && (es[j].ok || es[j].replyLost)
    && Run(m, s, es[..j]).record == Source && Run(m, s, es[..j + 1]).record == Target
    && Run(m, s, es[..j]).phase.Imported? && Explains(m, s, es[..j], h)
    && Run(m, s, es[..j + 1]).target == Run(m, s, es[..j]).target
  }

  /**
   * The record is re-pointed only by the completion of an attempt that began with a
   * successful preflight and whose archive, download and import succeeded in that
   * order: with the server's whole tree on the target, untouched from then on.
   */
  lemma {:induction false} RepointsAfterImport(m: Move, s: State, es: seq<Event>)
    requires ValidMove(m) && Inv(m, s) && s.record == Source && s.phase.NotRunning?
    requires Run(m, s, es).record == Target
    ensures exists j: nat, h :: Repoints(m, s, es, j, h)
    decreases |es|
  {
    hide Step, ValidMove, Inv, Explains;
    var init, e := es[..|es| - 1], es[|es| - 1];
    LastStep(m, s, es);
    if Run(m, s, init).record == Target {
      RepointsAfterImport(m, s, init);
      var j: nat, h :| Repoints(m, s, init, j, h);
      assert Repoints(m, s, es, j, h);
    } else {
      RepointStep(m, Run(m, s, init), e);
      var h := AttemptExplained(m, s, init);
      assert Repoints(m, s, es, |init|, h);
    }
  }

  /**
   * As long as the server is still on its source, the next attempt brings it over if
   * nothing fails: any archive of a tree within the limits can be imported, whatever
   * earlier attempts left on the target.
   */
  lemma NextAttemptCompletes(m: Move, s: State, items: seq<ZipItem>)
    requires ValidMove(m) && Inv(m, s) && s.record == Source && s.phase.NotRunning?
    requires ArchiveOf(m, items) && Backup.WithinLimits(ServerTree(m))
    ensures
      var es := [Preflight(true), CreateBackup(Some(items)), Download(true), Event.Import(Completed),
                 CompleteMigration(true, false)];
      var s' := Run(m, s, es);
      s'.record == Target && Covers(Subtree(s'.target, m.dest), ServerTree(m))
  {
    hide Import, Covers, ServerTree, CanBreak, Broken, Prepared, ArchiveOf, Subtree, ValidMove, Inv, Run;
    ImportGoesThrough(m, s, items);
    var s1 := s.(phase := Preflighted);
    var s2 := s1.(archive := Some(items), phase := ArchiveMade);
    var s3 := s2.(phase := Downloaded);
    assert Step(m, s, Preflight(true)) == s1 && Step(m, s1, CreateBackup(Some(items))) == s2;
    assert Step(m, s2, Download(true)) == s3;
    FiveSteps(m, s, Preflight(true), CreateBackup(Some(items)), Download(true), Event.Import(Completed),
              CompleteMigration(true, false));
  }

  lemma ImportGoesThrough(m: Move, s: State, items: seq<ZipItem>)
    requires ValidMove(m) && Inv(m, s) && s.record == Source
    requires ArchiveOf(m, items) && Backup.WithinLimits(ServerTree(m))
    ensures |items| <= Backup.MAX_EXTRACT_ENTRIES && Readable(items)
    ensures
      var out := Import(m, s.target, items);
      out.Done? && Covers(Subtree(out.view, m.dest), ServerTree(m))
  {
    hide ExtractAll, Covers, Restorable, NoClash, TreeBytes, Prepared, Readable, PlainTree, Subtree, Lists, Renders;
    PreparedFits(m, s.target);
    ImportCompletes(m, s.target, items);
    var paths :| Lists(paths, ViewOf(m.source), m.base, {}) && Renders(items, paths, ViewOf(m.source), m.base);
    ArchiveRoundTrip(m.source, m.base, {}, items, paths, Prepared(m, s.target), m.dest, Backup.MAX_EXTRACT_BYTES);
  }

  lemma FiveSteps(m: Move, s: State, a: Event, b: Event, c: Event, d: Event, e: Event)
    ensures Run(m, s, [a, b, c, d, e]) == Step(m, Step(m, Step(m, Step(m, Step(m, s, a), b), c), d), e)
  {
    hide Step;
    assert [a, b, c, d, e][1..] == [b, c, d, e] && [b, c, d, e][1..] == [c, d, e];
    assert [c, d, e][1..] == [d, e] && [d, e][1..] == [e] && [e][1..] == [];
    var s1 := Step(m, s, a);
    var s2 := Step(m, s1, b);
    var s3 := Step(m, s2, c);
    assert Run(m, s, [a, b, c, d, e]) == Run(m, s1, [b, c, d, e]) == Run(m, s2, [c, d, e]) == Run(m, s3, [d, e]);
    assert Run(m, s3, [d, e]) == Run(m, Step(m, s3, d), [e]);
  }

  // ----- the daemon's side of an import -----

  datatype ImportError = CreateServerDir(io: IoError) | BadUpload | Extracting(x: SafeFs.ExtractError)

  /** In any state whose import is due, `outcome` leads to the view `after`, and to `Imported` exactly if `ok`. */
  ghost predicate IsImportStep(m: Move, items: seq<ZipItem>, before: View, after: View, outcome: ImportOutcome,
                               ok: bool)
  {
    forall s: State :: s.phase.Downloaded? && s.archive == Some(items) && s.target == before ==>
      Step(m, s, Event.Import(outcome)) == s.(target := after, phase := if ok then Imported else NotRunning)
  }

  /**
   * `import_server`: make the server directory, read the upload (`None` if that
   * fails or it is too large), extract it. Whatever fails in it, the removals of the
   * rollback included, its effect is one of the import steps of the migration; if
   * nothing fails and the archive can be extracted, it is the completing one. A
   * daemon that dies is a call that fails with all later ones failing too.
   */
  method ImportServer(fs: FileSystem, dest: Path, upload: Option<seq<ZipEntry>>, ghost m: Move,
                      ghost items: seq<ZipItem>)
    returns (r: Result<Stats, ImportError>, ghost outcome: ImportOutcome)
    requires fs.Valid() && dest == m.dest && Readable(items) && (upload.Some? ==> upload.value == ReadAll(items))
    requires dest != [] && IsDir(fs.disk.tree, Parent(dest)) && (dest in fs.disk.tree ==> IsDir(fs.disk.tree, dest))
    modifies fs`disk, fs`trace
    ensures fs.Valid()
    ensures IsImportStep(m, items, ViewOf(old(fs.disk)), ViewOf(fs.disk), outcome, r.Ok?)
    ensures r.Err? && !fs.faults.write && !fs.faults.stat && upload.Some? && |items| <= Backup.MAX_EXTRACT_ENTRIES ==>
              || Import(m, ViewOf(old(fs.disk)), items).Stopped?
              || r.error == Extracting(SafeFs.WriteFailed(NoTempName))
  {
    hide ExtractAll, ViewOf, WellFormed, SafeFs.Confined, SafeFs.Misjudged, SafeFs.NamesLeft, SafeFs.SameNames;
    hide CanBreak, Broken, Canonical, ReadAll;
    ghost var v := ViewOf(fs.disk);
    DirMade(fs.disk, dest);
    var made := fs.CreateDir(dest);
    if made.Err? && !IsDir(fs.disk.tree, dest) {
      return Err(CreateServerDir(made.error)), Refused(false);
    }
    assert ViewOf(fs.disk) == Prepared(m, v);
    if upload.None? {
      return Err(BadUpload), Refused(true);
    }
    CanonicalReal(fs.disk.tree, dest);
    var entries := upload.value;
    var done;
    ghost var broke;
    done, broke :=
      SafeFs.ExtractZip(fs, Comps(dest), entries, Backup.MAX_EXTRACT_BYTES, Backup.MAX_EXTRACT_ENTRIES);
    outcome := if done.Ok? then Completed
               else if |entries| > Backup.MAX_EXTRACT_ENTRIES then Refused(true) else BrokeOff(broke);
    r := if done.Ok? then Ok(done.value) else Err(Extracting(done.error));
  }

  lemma DirMade(d: Disk, dest: Path)
    requires ValidDisk(d) && dest != [] && IsDir(d.tree, Parent(dest))
    ensures if dest in d.tree then MkDir(d, dest).Err?
            else MkDir(d, dest).Ok? && ViewOf(MkDir(d, dest).value) == ViewOf(d)[dest := IDir]
                 && IsDir(MkDir(d, dest).value.tree, dest)
  {
    ParentLast(dest);
    LocateInRealDir(d.tree, Parent(dest), Last(dest));
  }

  /**
   * What an import does not do: a name the target held before, say from an earlier
   * stay of the server there, is still there afterwards even if the server no
   * longer has it. The target then holds more than the server's tree.
   */
  lemma LeftoversSurvive(m: Move, target: View, items: seq<ZipItem>, r: Path)
    requires ValidMove(m) && ArchiveOf(m, items) && Import(m, target, items).Done?
    requires r in Subtree(target, m.dest) && r !in ServerTree(m)
    ensures r in Subtree(Import(m, target, items).view, m.dest)
    ensures Subtree(Import(m, target, items).view, m.dest) != ServerTree(m)
  {
    AllKeepKinds(Prepared(m, target), m.dest, ReadAll(items), Backup.MAX_EXTRACT_BYTES, Stats(0, 0));
    SubtreeAt(Import(m, target, items).view, m.dest, r);
  }
}
