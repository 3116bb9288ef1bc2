/**
 * The schema-migration runner as a step system: any number of runners share one
 * database, interleave at every statement and may fail or die at any of them.
 */
module SchemaMigration {

  type Version = string
  type RunnerId = nat

  /** Where a runner is in `RunMigrations`; `seen` is its one-time snapshot of the applied versions. */
  datatype Phase =
    | Idle
    | Scanning(seen: set<Version>, at: nat)
    | BodyDone(seen: set<Version>, at: nat, ran: bool)
    | RowInserted(seen: set<Version>, at: nat, ran: bool)
    | Finished

  /**
   * `recorded` are the committed rows of schema_migrations, `commits` counts how
   * often each body was committed, `reported` are the versions some execution
   * reported as already present, `holder` the uncommitted rows by runner.
   */
  datatype State = State(
    recorded: set<Version>, commits: multiset<Version>, reported: set<Version>,
    holder: map<Version, RunnerId>, runners: map<RunnerId, Phase>)

  datatype ExecOutcome = Executed | AlreadyExists | ExecFailed
  datatype CommitOutcome = Committed | NotCommitted | CommittedReplyLost

  datatype Event =
    | Start(r: RunnerId)
    | Skip(r: RunnerId)
    | Exec(r: RunnerId, exec: ExecOutcome)
    | Insert(r: RunnerId, rowFails: bool)
    | Commit(r: RunnerId, commit: CommitOutcome)
    | Finish(r: RunnerId)
    | Die(r: RunnerId)

  function PhaseOf(s: State, r: RunnerId): Phase {
    if r in s.runners then s.runners[r] else Idle
  }

  function Goto(s: State, r: RunnerId, p: Phase): State {
    s.(runners := s.runners[r := p])
  }

  /** Ending a run early rolls its open transaction back. */
  function Abort(s: State, r: RunnerId): State {
    Goto(s, r, Idle).(holder := map v | v in s.holder && s.holder[v] != r :: s.holder[v])
  }

  /** The row and, if the body ran, its effects become visible together. */
  function Publish(s: State, v: Version, ran: bool): State {
    s.(recorded := s.recorded + {v},
       commits := if ran then s.commits + multiset{v} else s.commits,
       holder := s.holder - {v})
  }

  /** One step; an event that is not possible in `s` leaves it alone. */
  function Step(files: seq<Version>, s: State, e: Event): State {
    var p := PhaseOf(s, e.r);
    match e
    case Start(r) =>
      if p.Idle? || p.Finished? then Goto(s, r, Scanning(s.recorded, 0)) else s
    case Skip(r) =>
      if p.Scanning? && p.at < |files| && files[p.at] in p.seen then Goto(s, r, Scanning(p.seen, p.at + 1)) else s
    case Exec(r, outcome) =>
      if !(p.Scanning? && p.at < |files| && files[p.at] !in p.seen) then s
      else (match outcome
        case Executed => Goto(s, r, BodyDone(p.seen, p.at, true))
        case AlreadyExists => Goto(s, r, BodyDone(p.seen, p.at, false)).(reported := s.reported + {files[p.at]})
        case ExecFailed => Abort(s, r))
    case Insert(r, rowFails) =>
      if !(p.BodyDone? && p.at < |files|) then s
      else if rowFails || files[p.at] in s.recorded then Abort(s, r)
      // the unique index makes a second insert wait for the first transaction
      else if files[p.at] in s.holder then s
      else Goto(s, r, RowInserted(p.seen, p.at, p.ran)).(holder := s.holder[files[p.at] := r])
    case Commit(r, outcome) =>
      if !(p.RowInserted? && p.at < |files|) then s
      else (match outcome
        case Committed => Goto(Publish(s, files[p.at], p.ran), r, Scanning(p.seen, p.at + 1))
        case NotCommitted => Abort(s, r)
        case CommittedReplyLost => Goto(Publish(s, files[p.at], p.ran), r, Idle))
    case Finish(r) =>
      if p.Scanning? && p.at >= |files| then Goto(s, r, Finished) else s
    case Die(r) =>
      if r in s.runners then Abort(s, r) else s
  }

  function Run(files: seq<Version>, s: State, es: seq<Event>): State
    decreases |es|
  {
    if es == [] then s else Run(files, Step(files, s, es[0]), es[1..])
  }

  /** A database nobody is migrating yet. */
  ghost predicate Fresh(s: State) {
    s.commits == multiset{} && s.reported == {} && s.holder == map[] && s.runners == map[]
  }

  ghost predicate DistinctFiles(files: seq<Version>) {
    forall i, j :: 0 <= i < j < |files| ==> files[i] != files[j]
  }

  /** What a runner past file `at` may rely on. */
  ghost predicate RunnerInv(files: seq<Version>, s: State, r: RunnerId) {
    match PhaseOf(s, r)
    case Idle => true
    case Finished => forall i :: 0 <= i < |files| ==> files[i] in s.recorded
    case Scanning(seen, at) => seen <= s.recorded && at <= |files| && forall i :: 0 <= i < at ==> files[i] in s.recorded
    case BodyDone(seen, at, ran) =>
      && seen <= s.recorded && at < |files| && (forall i :: 0 <= i < at ==> files[i] in s.recorded)
      && (ran || files[at] in s.reported)
    case RowInserted(seen, at, ran) =>
      && seen <= s.recorded && at < |files| && (forall i :: 0 <= i < at ==> files[i] in s.recorded)
      && (ran || files[at] in s.reported)
      && files[at] in s.holder && s.holder[files[at]] == r
  }

  /**
   * What every reachable state satisfies, relative to the rows `before` the first
   * run: bodies commit at most once and never for a version recorded earlier, and
   * a row means its body committed or was reported present.
   */
  ghost predicate Inv(files: seq<Version>, before: set<Version>, s: State) {
    && before <= s.recorded
    && (forall v :: s.commits[v] <= 1 && (v in s.commits ==> v in s.recorded && v !in before))
    && (forall v :: v in s.recorded ==> v in before || v in s.commits || v in s.reported)
    && (forall v :: v in s.holder ==> v !in s.recorded)
    && (forall v :: v in s.holder ==>
          var p := PhaseOf(s, s.holder[v]); p.RowInserted? && p.at < |files| && files[p.at] == v)
    && (forall r :: r in s.runners ==> RunnerInv(files, s, r))
  }

  /** The recorded files are an initial part of the list. */
  ghost predicate IsPrefix(files: seq<Version>, recorded: set<Version>) {
    forall i, j :: 0 <= i < j < |files| && files[j] in recorded ==> files[i] in recorded
  }

  // ----- one step -----

  /** Changing only where runner `r` is keeps the invariant if `r` may be there. */
  lemma GotoKeepsInv(files: seq<Version>, before: set<Version>, s: State, r: RunnerId, p: Phase)
    requires Inv(files, before, s) && !PhaseOf(s, r).RowInserted? && RunnerInv(files, Goto(s, r, p), r)
    ensures Inv(files, before, Goto(s, r, p))
  {
    var s' := Goto(s, r, p);
    forall q | q in s'.runners ensures RunnerInv(files, s', q) {
      if q != r {
        assert RunnerInv(files, s, q);
      }
    }
  }

  lemma AbortKeepsInv(files: seq<Version>, before: set<Version>, s: State, r: RunnerId)
    requires Inv(files, before, s)
    ensures Inv(files, before, Abort(s, r))
  {
    var s' := Abort(s, r);
    forall q | q in s'.runners ensures RunnerInv(files, s', q) {
      if q != r {
        assert RunnerInv(files, s, q);
      }
    }
  }

  lemma ReportKeepsInv(files: seq<Version>, before: set<Version>, s: State, v: Version)
    requires Inv(files, before, s)
    ensures Inv(files, before, s.(reported := s.reported + {v}))
  {
    var s' := s.(reported := s.reported + {v});
    forall q | q in s'.runners ensures RunnerInv(files, s', q) {
      assert RunnerInv(files, s, q);
    }
  }

  lemma InsertKeepsInv(files: seq<Version>, before: set<Version>, s: State, r: RunnerId)
    requires Inv(files, before, s) && r in s.runners && s.runners[r].BodyDone? && s.runners[r].at < |files|
    requires files[s.runners[r].at] !in s.recorded && files[s.runners[r].at] !in s.holder
    ensures
      var p := s.runners[r];
      Inv(files, before, Goto(s, r, RowInserted(p.seen, p.at, p.ran)).(holder := s.holder[files[p.at] := r]))
  {
    var p := s.runners[r];
    var s' := Goto(s, r, RowInserted(p.seen, p.at, p.ran)).(holder := s.holder[files[p.at] := r]);
    assert RunnerInv(files, s, r);
    forall q | q in s'.runners ensures RunnerInv(files, s', q) {
      assert RunnerInv(files, s, q);
    }
  }

  /** Publishing a row: the waiting row was not recorded, so its body has not committed before. */
  lemma CommitKeepsInv(files: seq<Version>, before: set<Version>, s: State, r: RunnerId, next: Phase)
    requires DistinctFiles(files) && Inv(files, before, s) && r in s.runners && s.runners[r].RowInserted?
    requires next == Idle || next == Scanning(s.runners[r].seen, s.runners[r].at + 1)
    ensures s.runners[r].at < |files|
    ensures Inv(files, before, Goto(Publish(s, files[s.runners[r].at], s.runners[r].ran), r, next))
  {
    var p := s.runners[r];
    assert RunnerInv(files, s, r);
    CommitKeepsRunners(files, before, s, r, next);
    hide RunnerInv;
    assert files[p.at] !in s.commits;
  }

  lemma CommitKeepsRunners(files: seq<Version>, before: set<Version>, s: State, r: RunnerId, next: Phase)
    requires DistinctFiles(files) && Inv(files, before, s) && r in s.runners && s.runners[r].RowInserted?
    requires s.runners[r].at < |files| && files[s.runners[r].at] in s.holder && s.holder[files[s.runners[r].at]] == r
    requires next == Idle || next == Scanning(s.runners[r].seen, s.runners[r].at + 1)
    ensures
      var s' := Goto(Publish(s, files[s.runners[r].at], s.runners[r].ran), r, next);
      forall q :: q in s'.runners ==> RunnerInv(files, s', q)
  {
    var s' := Goto(Publish(s, files[s.runners[r].at], s.runners[r].ran), r, next);
    forall q | q in s'.runners ensures RunnerInv(files, s', q) {
      assert RunnerInv(files, s, q);
    }
  }

  lemma StepKeepsInv(files: seq<Version>, before: set<Version>, s: State, e: Event)
    requires DistinctFiles(files) && Inv(files, before, s)
    ensures Inv(files, before, Step(files, s, e))
  {
    hide Inv;
    var p := PhaseOf(s, e.r);
    RunnerInvOf(files, before, s, e.r);
    match e
    case Start(r) =>
      if p.Idle? || p.Finished? {
        GotoKeepsInv(files, before, s, r, Scanning(s.recorded, 0));
      }
    case Skip(r) =>
      if p.Scanning? && p.at < |files| && files[p.at] in p.seen {
        GotoKeepsInv(files, before, s, r, Scanning(p.seen, p.at + 1));
      }
    case Exec(r, outcome) =>
      if p.Scanning? && p.at < |files| && files[p.at] !in p.seen {
        match outcome
        case Executed => GotoKeepsInv(files, before, s, r, BodyDone(p.seen, p.at, true));
        case AlreadyExists =>
          ReportKeepsInv(files, before, s, files[p.at]);
          GotoKeepsInv(files, before, s.(reported := s.reported + {files[p.at]}), r, BodyDone(p.seen, p.at, false));
        case ExecFailed => AbortKeepsInv(files, before, s, r);
      }
    case Insert(r, rowFails) =>
      if p.BodyDone? && p.at < |files| {
        if rowFails || files[p.at] in s.recorded {
          AbortKeepsInv(files, before, s, r);
        } else if files[p.at] !in s.holder {
          InsertKeepsInv(files, before, s, r);
        }
      }
    case Commit(r, outcome) =>
      if p.RowInserted? && p.at < |files| {
        match outcome
        case Committed => CommitKeepsInv(files, before, s, r, Scanning(p.seen, p.at + 1));
        case NotCommitted => AbortKeepsInv(files, before, s, r);
        case CommittedReplyLost => CommitKeepsInv(files, before, s, r, Idle);
      }
    case Finish(r) =>
      if p.Scanning? && p.at >= |files| {
        GotoKeepsInv(files, before, s, r, Finished);
      }
    case Die(r) => AbortKeepsInv(files, before, s, r);
  }

  lemma RunnerInvOf(files: seq<Version>, before: set<Version>, s: State, r: RunnerId)
    requires Inv(files, before, s)
    ensures RunnerInv(files, s, r)
  {}

  lemma StepKeepsPrefix(files: seq<Version>, before: set<Version>, s: State, e: Event)
    requires DistinctFiles(files) && Inv(files, before, s) && IsPrefix(files, s.recorded)
    ensures IsPrefix(files, Step(files, s, e).recorded)
  {
    RunnerInvOf(files, before, s, e.r);
  }

  lemma StepOnlyAdds(files: seq<Version>, s: State, e: Event)
    ensures s.recorded <= Step(files, s, e).recorded
  {}

  // ----- every run -----

  lemma {:induction false} RunKeepsInv(files: seq<Version>, before: set<Version>, s: State, es: seq<Event>)
    requires DistinctFiles(files) && Inv(files, before, s)
    ensures Inv(files, before, Run(files, s, es))
    ensures IsPrefix(files, s.recorded) ==> IsPrefix(files, Run(files, s, es).recorded)
    ensures s.recorded <= Run(files, s, es).recorded
    decreases |es|
  {
    hide Inv, IsPrefix, DistinctFiles;
    if es != [] {
      StepKeepsInv(files, before, s, es[0]);
      StepOnlyAdds(files, s, es[0]);
      if IsPrefix(files, s.recorded) {
        StepKeepsPrefix(files, before, s, es[0]);
      }
      hide Step;
      RunKeepsInv(files, before, Step(files, s, es[0]), es[1..]);
    }
  }

  /**
   * Any number of runners, any interleaving, failures and crashes anywhere: each
   * body commits at most once and never for a version that was recorded to start
   * with; a version is recorded only if it was before, its body committed, or it
   * was reported already present; no row disappears; and the recorded set stays
   * an initial part of the file list if it started as one.
   */
  lemma MigrationsAreSafe(files: seq<Version>, s0: State, es: seq<Event>)
    requires DistinctFiles(files) && Fresh(s0)
    ensures
      var s := Run(files, s0, es);
      && (forall v :: s.commits[v] <= 1 && (v in s0.recorded ==> s.commits[v] == 0))
      && (forall v :: v in s.commits ==> v in s.recorded)
      && (forall v :: v in s.recorded ==> v in s0.recorded || v in s.commits || v in s.reported)
      && s0.recorded <= s.recorded
      && (IsPrefix(files, s0.recorded) ==> IsPrefix(files, s.recorded))
      && (forall r :: PhaseOf(s, r).Finished? ==> forall i :: 0 <= i < |files| ==> files[i] in s.recorded)
  {
    RunKeepsInv(files, s0.recorded, s0, es);
    var s := Run(files, s0, es);
    forall r | PhaseOf(s, r).Finished? ensures forall i :: 0 <= i < |files| ==> files[i] in s.recorded {
      RunnerInvOf(files, s0.recorded, s, r);
    }
  }

  /** Once some run has finished, no event of any runner changes the schema or its record any more. */
  lemma {:induction false} NothingAfterSuccess(files: seq<Version>, before: set<Version>, s: State, es: seq<Event>)
    requires DistinctFiles(files) && Inv(files, before, s) && forall i :: 0 <= i < |files| ==> files[i] in s.recorded
    ensures Run(files, s, es).recorded == s.recorded && Run(files, s, es).commits == s.commits
    decreases |es|
  {
    if es != [] {
      StepKeepsInv(files, before, s, es[0]);
      RunnerInvOf(files, before, s, es[0].r);
      NothingAfterSuccess(files, before, Step(files, s, es[0]), es[1..]);
    }
  }

  // ----- where rows come from -----

  /** Event `i` is the successful execution of `v` by runner `r`, or (`ran` false) its report that `v` is in place. */
  ghost predicate Executes(files: seq<Version>, s0: State, es: seq<Event>, i: nat, r: RunnerId, v: Version, ran: bool) {
    && i < |es| && es[i] == Exec(r, if ran then Executed else AlreadyExists)
    && var p := PhaseOf(Run(files, s0, es[..i]), r);
    && p.Scanning? && p.at < |files| && files[p.at] == v && v !in p.seen
  }

  /** Event `k` is the insertion of the row of `v` after that. */
  ghost predicate Inserts(files: seq<Version>, s0: State, es: seq<Event>, k: nat, r: RunnerId, v: Version, ran: bool) {
    && k < |es| && es[k] == Insert(r, false)
    && var p := PhaseOf(Run(files, s0, es[..k]), r);
    && p.BodyDone? && p.at < |files| && files[p.at] == v && p.ran == ran
  }

  /** Event `j` is the commit of that transaction, whether or not the runner hears of it. */
  ghost predicate Commits(files: seq<Version>, s0: State, es: seq<Event>, j: nat, r: RunnerId, v: Version, ran: bool) {
    && j < |es| && (es[j] == Commit(r, Committed) || es[j] == Commit(r, CommittedReplyLost))
    && var p := PhaseOf(Run(files, s0, es[..j]), r);
    && p.RowInserted? && p.at < |files| && files[p.at] == v && p.ran == ran
  }

  lemma LastStep(files: seq<Version>, s0: State, es: seq<Event>)
    requires es != []
    ensures
      var init := es[..|es| - 1];
      && Run(files, s0, es) == Step(files, Run(files, s0, init), es[|es| - 1])
      && forall k :: 0 <= k <= |init| ==> es[..k] == init[..k]
  {
    hide Step;
    var init, e := es[..|es| - 1], es[|es| - 1];
    assert es == init + [e] && [e][1..] == [];
    RunAppend(files, s0, init, [e]);
    assert Run(files, Run(files, s0, init), [e]) == Step(files, Run(files, s0, init), e);
  }

  /** A runner changes to these phases by its own step of that kind only. */
  lemma EntersByOwnStep(files: seq<Version>, s: State, e: Event, r: RunnerId)
    requires PhaseOf(Step(files, s, e), r) != PhaseOf(s, r)
    ensures
      var p, p' := PhaseOf(s, r), PhaseOf(Step(files, s, e), r);
      && (p'.BodyDone? ==>
            && e == Exec(r, if p'.ran then Executed else AlreadyExists)
            && p.Scanning? && p.at == p'.at < |files| && files[p.at] !in p.seen)
      && (p'.RowInserted? ==>
            e == Insert(r, false) && p.BodyDone? && p.at == p'.at < |files| && p.ran == p'.ran)
  {}

  /** A runner past the execution of a file got there by one that succeeded or reported the file in place. */
  lemma {:induction false} BodyDoneByExec(files: seq<Version>, s0: State, es: seq<Event>, r: RunnerId) returns (i: nat)
    requires Fresh(s0) && PhaseOf(Run(files, s0, es), r).BodyDone? && PhaseOf(Run(files, s0, es), r).at < |files|
    ensures
      var p := PhaseOf(Run(files, s0, es), r);
      Executes(files, s0, es, i, r, files[p.at], p.ran)
    decreases |es|
  {
    if es == [] {
      assert false;
    } else {
      hide Step, Run;
      var init, e := es[..|es| - 1], es[|es| - 1];
      LastStep(files, s0, es);
      if PhaseOf(Run(files, s0, init), r) == PhaseOf(Run(files, s0, es), r) {
        i := BodyDoneByExec(files, s0, init, r);
      } else {
        EntersByOwnStep(files, Run(files, s0, init), e, r);
        i := |init|;
        assert es[..i] == init;
      }
    }
  }

  /** And one with an open row inserted it after that. */
  lemma {:induction false} RowByInsert(files: seq<Version>, s0: State, es: seq<Event>, r: RunnerId)
    returns (i: nat, k: nat)
    requires Fresh(s0) && PhaseOf(Run(files, s0, es), r).RowInserted? && PhaseOf(Run(files, s0, es), r).at < |files|
    ensures
      var p := PhaseOf(Run(files, s0, es), r);
      && i < k && Executes(files, s0, es, i, r, files[p.at], p.ran) && Inserts(files, s0, es, k, r, files[p.at], p.ran)
    decreases |es|
  {
    if es == [] {
      assert false;
    } else {
      hide Step, Run;
      var init, e := es[..|es| - 1], es[|es| - 1];
      LastStep(files, s0, es);
      if PhaseOf(Run(files, s0, init), r) == PhaseOf(Run(files, s0, es), r) {
        i, k := RowByInsert(files, s0, init, r);
      } else {
        EntersByOwnStep(files, Run(files, s0, init), e, r);
        k := |init|;
        assert es[..k] == init;
        i := BodyDoneByExec(files, s0, init, r);
      }
    }
  }

  /** Some runner's transaction for `v` committed; it had run the body exactly if `ran`. */
  ghost predicate CommittedIn(files: seq<Version>, s0: State, es: seq<Event>, v: Version, ran: bool) {
    exists j: nat, r: RunnerId :: Commits(files, s0, es, j, r, v, ran)
  }

  /** Some runner was told that `v` is in place. */
  ghost predicate ReportedIn(files: seq<Version>, s0: State, es: seq<Event>, v: Version) {
    exists i: nat, r: RunnerId :: Executes(files, s0, es, i, r, v, false)
  }

  lemma CommittedSplit(files: seq<Version>, s0: State, es: seq<Event>, v: Version, ran: bool)
    requires es != []
    ensures
      var init, e := es[..|es| - 1], es[|es| - 1];
      CommittedIn(files, s0, es, v, ran) <==>
        CommittedIn(files, s0, init, v, ran) || Commits(files, s0, es, |init|, e.r, v, ran)
  {
    hide Run;
    var init := es[..|es| - 1];
    LastStep(files, s0, es);
    if CommittedIn(files, s0, es, v, ran) {
      var j: nat, r: RunnerId :| Commits(files, s0, es, j, r, v, ran);
      assert j < |init| ==> Commits(files, s0, init, j, r, v, ran);
    }
    if CommittedIn(files, s0, init, v, ran) {
      var j: nat, r: RunnerId :| Commits(files, s0, init, j, r, v, ran);
      assert Commits(files, s0, es, j, r, v, ran);
    }
  }

  lemma ReportedSplit(files: seq<Version>, s0: State, es: seq<Event>, v: Version)
    requires es != []
    ensures
      var init, e := es[..|es| - 1], es[|es| - 1];
      ReportedIn(files, s0, es, v) <==>
        ReportedIn(files, s0, init, v) || Executes(files, s0, es, |init|, e.r, v, false)
  {
    hide Run;
    var init := es[..|es| - 1];
    LastStep(files, s0, es);
    if ReportedIn(files, s0, es, v) {
      var i: nat, r: RunnerId :| Executes(files, s0, es, i, r, v, false);
      assert i < |init| ==> Executes(files, s0, init, i, r, v, false);
    }
    if ReportedIn(files, s0, init, v) {
      var i: nat, r: RunnerId :| Executes(files, s0, init, i, r, v, false);
      assert Executes(files, s0, es, i, r, v, false);
    }
  }

  /** What the last event adds to the record, the commits and the reports. */
  lemma LastAdds(files: seq<Version>, s0: State, es: seq<Event>, v: Version)
    requires es != []
    ensures
      var k, r := |es| - 1, es[|es| - 1].r;
      var s, s' := Run(files, s0, es[..k]), Run(files, s0, es);
      var ran, told := Commits(files, s0, es, k, r, v, true), Commits(files, s0, es, k, r, v, false);
      && (v in s'.recorded <==> v in s.recorded || ran || told)
      && (v in s'.commits <==> v in s.commits || ran)
      && (v in s'.reported <==> v in s.reported || Executes(files, s0, es, k, r, v, false))
  {
    hide Run, Step;
    LastStep(files, s0, es);
    StepAdds(files, Run(files, s0, es[..|es| - 1]), es[|es| - 1], v);
  }

  lemma StepAdds(files: seq<Version>, s: State, e: Event, v: Version)
    ensures
      var s', p := Step(files, s, e), PhaseOf(s, e.r);
      var commits := e.Commit? && !e.commit.NotCommitted? && p.RowInserted? && p.at < |files| && files[p.at] == v;
      && (v in s'.recorded <==> v in s.recorded || commits)
      && (v in s'.commits <==> v in s.commits || (commits && p.ran))
      && (v in s'.reported <==>
            || v in s.reported
            || (e.Exec? && e.exec.AlreadyExists? && p.Scanning? && p.at < |files| && files[p.at] == v && v !in p.seen))
  {}

  /**
   * Over any run: a version is recorded exactly if it was to start with or some
   * runner's transaction for it committed; its body counts as committed exactly if
   * that transaction had run it, and as reported exactly if a runner was told that
   * it is in place.
   */
  lemma {:induction false} RecordedIff(files: seq<Version>, s0: State, es: seq<Event>, v: Version)
    requires Fresh(s0)
    ensures
      var s := Run(files, s0, es);
      var ran, told := CommittedIn(files, s0, es, v, true), CommittedIn(files, s0, es, v, false);
      && (v in s.recorded <==> v in s0.recorded || ran || told)
      && (v in s.commits <==> ran)
      && (v in s.reported <==> ReportedIn(files, s0, es, v))
    decreases |es|
  {
    if es != [] {
      hide Run, Commits, Executes;
      RecordedIff(files, s0, es[..|es| - 1], v);
      LastAdds(files, s0, es, v);
      CommittedSplit(files, s0, es, v, true);
      CommittedSplit(files, s0, es, v, false);
      ReportedSplit(files, s0, es, v);
    }
  }

  /** Behind every committed row stand its execution and its insertion, by the same runner, in that order. */
  lemma CommitHasPast(files: seq<Version>, s0: State, es: seq<Event>, j: nat, r: RunnerId, v: Version, ran: bool)
    requires Fresh(s0) && Commits(files, s0, es, j, r, v, ran)
    ensures exists i: nat, k: nat ::
              i < k < j && Executes(files, s0, es, i, r, v, ran) && Inserts(files, s0, es, k, r, v, ran)
  {
    var i, k := RowByInsert(files, s0, es[..j], r);
    assert es[..j][..i] == es[..i] && es[..j][..k] == es[..k];
    assert Executes(files, s0, es, i, r, v, ran) && Inserts(files, s0, es, k, r, v, ran);
  }

  // ----- the loop of one runner, among others -----

  lemma {:induction false} RunAppend(files: seq<Version>, s: State, es: seq<Event>, more: seq<Event>)
    ensures Run(files, s, es + more) == Run(files, Run(files, s, es), more)
    decreases |es|
  {
    if es == [] {
      assert es + more == more;
    } else {
      assert (es + more)[1..] == es[1..] + more;
      RunAppend(files, Step(files, s, es[0]), es[1..], more);
    }
  }

  ghost predicate NotBy(es: seq<Event>, me: RunnerId) {
    forall i :: 0 <= i < |es| ==> es[i].r != me
  }

  /** What the others do moves no other runner and takes no row away. */
  lemma {:induction false} OthersKeepPhase(files: seq<Version>, s: State, es: seq<Event>, me: RunnerId)
    requires NotBy(es, me)
    ensures PhaseOf(Run(files, s, es), me) == PhaseOf(s, me) && s.recorded <= Run(files, s, es).recorded
    decreases |es|
  {
    if es != [] {
      StepOnlyAdds(files, s, es[0]);
      OthersKeepPhase(files, Step(files, s, es[0]), es[1..], me);
    }
  }

  /**
   * The shared database as one runner meets it: before each of its own statements
   * the others get to do whatever `others` has in store.
   */
  class Database {
    const others: nat -> seq<Event>
    const mayFail: bool
    var state: State
    var turn: nat
    ghost var history: seq<Event>

    constructor (state: State, others: nat -> seq<Event>, mayFail: bool)
      ensures this.state == state && this.others == others && this.mayFail == mayFail && history == []
    {
      this.state := state;
      this.others := others;
      this.mayFail := mayFail;
      turn := 0;
      history := [];
    }

    /** `me` has no double among the others, and the state is what the history led to. */
    ghost predicate Valid(files: seq<Version>, s0: State, me: RunnerId)
      reads this
    {
      state == Run(files, s0, history) && forall n :: NotBy(others(n), me)
    }

    /** Nothing fails and nobody else is or was in the middle of anything. */
    ghost predicate Undisturbed()
      reads this
    {
      !mayFail && state.holder == map[] && forall n :: others(n) == []
    }

    method Do(files: seq<Version>, e: Event, ghost s0: State) returns (ghost before: State)
      requires Valid(files, s0, e.r)
      modifies this
      ensures Valid(files, s0, e.r) && old(history) <= history
      ensures |history| > |old(history)| && history[|history| - 1] == e
      ensures forall i :: |old(history)| <= i < |history| - 1 ==> history[i].r != e.r
      ensures state == Step(files, before, e)
      ensures PhaseOf(before, e.r) == old(PhaseOf(state, e.r)) && old(state).recorded <= before.recorded
      ensures (forall n :: others(n) == []) ==> before == old(state)
    {
      hide Step;
      var es := others(turn);
      OthersKeepPhase(files, state, es, e.r);
      RunAppend(files, s0, history, es);
      RunAppend(files, s0, history + es, [e]);
      assert Run(files, Run(files, state, es), [e]) == Step(files, Run(files, state, es), e) by {
        assert [e][1..] == [];
      }
      before := Run(files, state, es);
      state := Step(files, Run(files, state, es), e);
      history := history + es + [e];
      turn := turn + 1;
    }
  }

  /** From event `from` on, nothing runner `me` did failed. */
  ghost predicate NothingFailed(history: seq<Event>, from: nat, me: RunnerId) {
    forall i :: from <= i < |history| && history[i].r == me ==> !Fails(history[i])
  }

  predicate Fails(e: Event) {
    match e
    case Exec(_, outcome) => outcome.ExecFailed?
    case Insert(_, rowFails) => rowFails
    case Commit(_, outcome) => !outcome.Committed?
    case Die(_) => true
    case _ => false
  }

  lemma NothingFailedNext(h: seq<Event>, h': seq<Event>, from: nat, me: RunnerId)
    requires from <= |h| && h <= h' && |h| < |h'| && NothingFailed(h, from, me) && !Fails(h'[|h'| - 1])
    requires forall i :: |h| <= i < |h'| - 1 ==> h'[i].r != me
    ensures NothingFailed(h', from, me)
  {}

  lemma NothingFailedJoin(h: seq<Event>, h': seq<Event>, from: nat, me: RunnerId)
    requires from <= |h| && h <= h' && NothingFailed(h, from, me) && NothingFailed(h', |h|, me)
    ensures NothingFailed(h', from, me)
  {}

  /**
   * `RunMigrations` of runner `me`, with any number of others at work between its
   * statements: it goes through the steps above and no others, and returns without
   * error only if every file ends up recorded. Undisturbed, it does.
   */
  method RunMigrations(db: Database, files: seq<Version>, me: RunnerId, ghost s0: State) returns (ok: bool)
    requires DistinctFiles(files) && Fresh(s0) && db.Valid(files, s0, me)
    requires PhaseOf(db.state, me).Idle? || PhaseOf(db.state, me).Finished?
    modifies db
    ensures db.Valid(files, s0, me) && old(db.history) <= db.history
    ensures ok ==> PhaseOf(db.state, me).Finished? && forall i :: 0 <= i < |files| ==> files[i] in db.state.recorded
    ensures ok ==> NothingFailed(db.history, |old(db.history)|, me)
    ensures !ok ==> PhaseOf(db.state, me).Idle?
    ensures old(db.Undisturbed()) ==> ok
  {
    hide Run, NotBy, NothingFailed;
    ghost var from, h := |db.history|, db.history;
    NothingFailedYet(h, me);
    ghost var _ := db.Do(files, Start(me), s0);
    NothingFailedNext(h, db.history, from, me);
    var applied := db.state.recorded;
    var i := 0;
    while i < |files|
      invariant 0 <= i <= |files|
      invariant db.Valid(files, s0, me) && old(db.history) <= db.history
      invariant PhaseOf(db.state, me) == Scanning(applied, i)
      invariant NothingFailed(db.history, |old(db.history)|, me)
      invariant old(db.Undisturbed()) ==>
                  && db.Undisturbed()
                  && forall j :: i <= j < |files| && files[j] !in applied ==> files[j] !in db.state.recorded
    {
      h := db.history;
      if files[i] in applied {
        ghost var _ := db.Do(files, Skip(me), s0);
        NothingFailedNext(h, db.history, from, me);
      } else {
        var done := ApplyOne(db, files, me, s0);
        if !done {
          return false;
        }
        NothingFailedJoin(h, db.history, from, me);
      }
      i := i + 1;
    }
    h := db.history;
    ghost var _ := db.Do(files, Finish(me), s0);
    NothingFailedNext(h, db.history, from, me);
    MigrationsAreSafe(files, s0, db.history);
    ok := true;
  }

  lemma NothingFailedYet(h: seq<Event>, me: RunnerId)
    ensures NothingFailed(h, |h|, me)
  {}

  lemma InsertStep(files: seq<Version>, s: State, me: RunnerId, rowFails: bool)
    requires var p := PhaseOf(s, me); p.BodyDone? && p.at < |files|
    ensures
      var p, s' := PhaseOf(s, me), Step(files, s, Insert(me, rowFails));
      if rowFails || files[p.at] in s.recorded then PhaseOf(s', me).Idle?
      else if files[p.at] in s.holder then s' == s
      else
        && PhaseOf(s', me) == RowInserted(p.seen, p.at, p.ran)
        && s'.recorded == s.recorded && s'.holder == s.holder[files[p.at] := me]
  {}

  lemma DieStep(files: seq<Version>, s: State, me: RunnerId)
    ensures PhaseOf(Step(files, s, Die(me)), me).Idle?
  {}

  /** The insert waits while another transaction holds the same row; after `patience` looks it gives up. */
  method InsertRow(db: Database, files: seq<Version>, me: RunnerId, ghost s0: State) returns (ok: bool)
    requires db.Valid(files, s0, me)
    requires var p := PhaseOf(db.state, me); p.BodyDone? && p.at < |files|
    modifies db
    ensures db.Valid(files, s0, me) && old(db.history) <= db.history
    ensures
      var p := old(PhaseOf(db.state, me));
      && (PhaseOf(db.state, me) == if ok then RowInserted(p.seen, p.at, p.ran) else Idle)
      && (ok ==> NothingFailed(db.history, |old(db.history)|, me))
      && (old(db.Undisturbed()) && files[p.at] !in old(db.state).recorded ==>
            ok && db.state.holder == map[files[p.at] := me] && db.state.recorded == old(db.state).recorded)
  {
    hide Run, Inv, NotBy, NothingFailed, Step;
    ghost var from, h := |db.history|, db.history;
    NothingFailedYet(h, me);
    ghost var p := PhaseOf(db.state, me);
    var rowFails: bool := *;
    rowFails := rowFails && db.mayFail;
    var patience: int := *;
    ghost var before := db.Do(files, Insert(me, rowFails), s0);
    InsertStep(files, before, me, rowFails);
    if !rowFails {
      NothingFailedNext(h, db.history, from, me);
    }
    while PhaseOf(db.state, me).BodyDone? && patience > 0
      invariant db.Valid(files, s0, me) && old(db.history) <= db.history
      invariant PhaseOf(db.state, me) in {p, RowInserted(p.seen, p.at, p.ran), Idle}
      invariant !PhaseOf(db.state, me).Idle? ==> NothingFailed(db.history, |old(db.history)|, me)
      invariant old(db.Undisturbed()) && files[p.at] !in old(db.state).recorded ==>
                  && PhaseOf(db.state, me) == RowInserted(p.seen, p.at, p.ran)
                  && db.state.holder == map[files[p.at] := me] && db.state.recorded == old(db.state).recorded
    {
      h := db.history;
      before := db.Do(files, Insert(me, rowFails), s0);
      InsertStep(files, before, me, rowFails);
      if !rowFails {
        NothingFailedNext(h, db.history, from, me);
      }
      patience := patience - 1;
    }
    if PhaseOf(db.state, me).BodyDone? {
      before := db.Do(files, Die(me), s0);
      DieStep(files, before, me);
    }
    ok := PhaseOf(db.state, me).RowInserted?;
  }

  lemma ExecStep(files: seq<Version>, s: State, me: RunnerId, outcome: ExecOutcome)
    requires var p := PhaseOf(s, me); p.Scanning? && p.at < |files| && files[p.at] !in p.seen
    ensures
      var p, s' := PhaseOf(s, me), Step(files, s, Exec(me, outcome));
      && PhaseOf(s', me) == (if outcome.ExecFailed? then Idle else BodyDone(p.seen, p.at, outcome.Executed?))
      && s'.recorded == s.recorded && (!outcome.ExecFailed? ==> s'.holder == s.holder)
  {}

  lemma CommitStep(files: seq<Version>, s: State, me: RunnerId, outcome: CommitOutcome)
    requires var p := PhaseOf(s, me); p.RowInserted? && p.at < |files|
    ensures
      var p, s' := PhaseOf(s, me), Step(files, s, Commit(me, outcome));
      if outcome.Committed? then
        && PhaseOf(s', me) == Scanning(p.seen, p.at + 1)
        && s'.recorded == s.recorded + {files[p.at]} && s'.holder == s.holder - {files[p.at]}
      else PhaseOf(s', me).Idle?
  {}

  /** `applyOne`: body, row and commit in one transaction. */
  method ApplyOne(db: Database, files: seq<Version>, me: RunnerId, ghost s0: State) returns (ok: bool)
    requires db.Valid(files, s0, me)
    requires var p := PhaseOf(db.state, me); p.Scanning? && p.at < |files| && files[p.at] !in p.seen
    modifies db
    ensures db.Valid(files, s0, me) && old(db.history) <= db.history
    ensures
      var p := old(PhaseOf(db.state, me));
      && (if ok then PhaseOf(db.state, me) == Scanning(p.seen, p.at + 1) && files[p.at] in db.state.recorded
          else PhaseOf(db.state, me).Idle?)
      && (ok ==> NothingFailed(db.history, |old(db.history)|, me))
      && (old(db.Undisturbed()) && files[p.at] !in old(db.state).recorded ==>
            ok && db.Undisturbed() && db.state.recorded == old(db.state).recorded + {files[p.at]})
  {
    hide Run, Inv, NotBy, NothingFailed, Step;
    ghost var from, h := |db.history|, db.history;
    NothingFailedYet(h, me);
    var pick: int := *;
    var exec := if pick == 0 then Executed else if pick == 1 || !db.mayFail then AlreadyExists else ExecFailed;
    ghost var before := db.Do(files, Exec(me, exec), s0);
    ExecStep(files, before, me, exec);
    if exec.ExecFailed? {
      return false;
    }
    NothingFailedNext(h, db.history, from, me);
    h := db.history;
    var inserted := InsertRow(db, files, me, s0);
    if !inserted {
      return false;
    }
    NothingFailedJoin(h, db.history, from, me);
    h := db.history;
    pick := *;
    var commit :=
      if pick == 0 || !db.mayFail then Committed else if pick == 1 then NotCommitted else CommittedReplyLost;
    before := db.Do(files, Commit(me, commit), s0);
    CommitStep(files, before, me, commit);
    ok := commit.Committed?;
    if ok {
      NothingFailedNext(h, db.history, from, me);
    }
  }
}
