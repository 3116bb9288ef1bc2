/**
 * What extracting an archive means, on what a reader can see: no inodes, no
 * temp files, no faults. `SafeFs` is shown to do this step by step.
 */
module ExtractSpec {
  import opened Prelude
  import opened FileTree
  import opened FileSystems

  const TEMP_PREFIX: string := ".tp-"
  const TEMP_SUFFIX: string := ".tmp"

  function TempName(uuid: string): Name {
    TEMP_PREFIX + uuid + TEMP_SUFFIX
  }

  /** The daemon's own in-flight temp files. */
  predicate IsTempName(n: Name) {
    TEMP_PREFIX <= n && |TEMP_SUFFIX| <= |n| && n[|n| - |TEMP_SUFFIX|..] == TEMP_SUFFIX
  }

  lemma TempNameIsTemp(uuid: string)
    ensures IsTempName(TempName(uuid))
  {}

  /** The temp names are the generated ones, whatever is between prefix and suffix, and no other name is one. */
  lemma TempNameIff(n: Name)
    ensures IsTempName(n) <==> exists uuid: string :: n == ".tp-" + uuid + ".tmp"
  {
    if IsTempName(n) {
      assert forall i :: 0 <= i < 4 ==> n[|n| - 4 + i] == ".tmp"[i];
      assert n[3] == '-' && |n| >= 8;
      var uuid := n[4..|n| - 4];
      assert n == ".tp-" + uuid + ".tmp";
    }
    if uuid: string :| n == ".tp-" + uuid + ".tmp" {
      assert n[..4] == ".tp-" && n[|n| - 4..] == ".tmp";
    }
  }

  /**
   * One archive entry. `name` is the component list the zip reader hands out,
   * if it hands one out; `declared` is the size the archive claims, `content`
   * what the stream really yields, followed by a read error if `corrupt`.
   */
  datatype ZipEntry = ZipEntry(
    readable: bool, name: Option<seq<Component>>, mode: Option<bv32>, isDir: bool,
    declared: u64, content: seq<byte>, corrupt: bool)

  predicate IsLinkMode(mode: Option<bv32>) {
    mode.Some? && mode.value & 0xF000 == 0xA000
  }

  /** `budget + 1` in 64 bits: at the largest budget it wraps to zero. */
  function TakeCap(budget: u64): u64 {
    (budget + 1) % U64_SIZE
  }

  function Copied(e: ZipEntry, budget: u64): seq<byte> {
    e.content[..Min(|e.content|, TakeCap(budget))]
  }

  /** Result of copying the entry into the temp file under `budget`. */
  function FillResult(e: ZipEntry, budget: u64): Result<nat, IoError> {
    if e.corrupt && |e.content| < TakeCap(budget) then Err(Corrupt)
    else if |Copied(e, budget)| > budget then Err(SizeLimit)
    else Ok(|Copied(e, budget)|)
  }

  lemma CopiedBound(e: ZipEntry, budget: u64)
    ensures |Copied(e, budget)| <= budget + 1
    ensures FillResult(e, budget).Ok? ==> FillResult(e, budget).value == |Copied(e, budget)| <= budget
  {}

  /**
   * When an entry that counts as written was copied whole: always, except that at
   * the largest budget the wrapped cap lets nothing through.
   */
  lemma CopiedWhole(e: ZipEntry, budget: u64)
    ensures Copied(e, budget) == e.content <==> |e.content| <= TakeCap(budget)
    ensures FillResult(e, budget).Ok? ==> (Copied(e, budget) == e.content <==> e.content == [] || budget + 1 < U64_SIZE)
    ensures budget + 1 == U64_SIZE ==> Copied(e, budget) == [] && FillResult(e, budget) == Ok(0)
  {
    assert e.content[..|e.content|] == e.content;
    if |e.content| > TakeCap(budget) {
      assert |Copied(e, budget)| < |e.content|;
    }
  }

  /**
   * When the copy is accepted, below the largest budget: the stream ends without an
   * error within the budget. Otherwise the error says which of the two it was, size
   * before damage.
   */
  lemma FillsIff(e: ZipEntry, budget: u64)
    requires budget + 1 < U64_SIZE
    ensures FillResult(e, budget) ==
              if |e.content| > budget then Err(SizeLimit) else if e.corrupt then Err(Corrupt) else Ok(|e.content|)
  {}

  datatype ChainEnd = Reached(dir: Path) | Blocked | Failed

  /** Walk `comps` below `cur`, making missing directories; anything but a real directory blocks the way. */
  function Chain(v: View, cur: Path, comps: seq<Component>): (View, ChainEnd)
    decreases |comps|
  {
    if comps == [] then (v, Reached(cur))
    else match comps[0]
      case CurDir => Chain(v, cur, comps[1..])
      case Normal(n) =>
        var p := cur + [n];
        if cur !in v || !v[cur].IDir? then (v, Failed)
        else if p !in v then Chain(v[p := IDir], p, comps[1..])
        else if v[p].IDir? then Chain(v, p, comps[1..])
        else (v, Blocked)
      case _ => (v, Blocked)
  }

  datatype Stats = Stats(written: nat, skipped: nat)

  datatype EntryEnd = MadeDir | Wrote(bytes: nat) | Skipped | Aborted

  /** One entry: new view and what became of it, with `remaining` bytes of budget left. */
  function ExtractOne(v: View, base: Path, e: ZipEntry, remaining: u64): (View, EntryEnd) {
    if !e.readable then (v, Aborted)
    else if e.name.None? || IsLinkMode(e.mode) then (v, Skipped)
    else
      var rel := e.name.value;
      if e.isDir then
        var (v', end) := Chain(v, base, rel);
        (v', match end case Reached(_) => MadeDir case Blocked => Skipped case Failed => Aborted)
      else if rel == [] || !rel[|rel| - 1].Normal? then (v, Skipped)
      else if e.declared > remaining then (v, Aborted)
      else
        var (v', end) := Chain(v, base, rel[..|rel| - 1]);
        match end
        case Blocked => (v', Skipped)
        case Failed => (v', Aborted)
        case Reached(dir) =>
          var p := dir + [rel[|rel| - 1].name];
          if dir !in v' || !v'[dir].IDir? then (v', Aborted)
          else if p in v' && v'[p].IDir? then (v', Skipped)
          else match FillResult(e, remaining)
            case Err(_) => (v', Aborted)
            case Ok(n) => (v'[p := IFile(Copied(e, remaining))], Wrote(n))
  }

  datatype Extraction = Done(view: View, stats: Stats, left: u64) | Stopped

  lemma WroteWithinBudget(v: View, base: Path, e: ZipEntry, remaining: u64)
    ensures ExtractOne(v, base, e, remaining).1.Wrote? ==> ExtractOne(v, base, e, remaining).1.bytes <= remaining
  {}

  function Count(s: Stats, end: EntryEnd): Stats {
    match end
    case Wrote(_) => s.(written := s.written + 1)
    case Skipped => s.(skipped := s.skipped + 1)
    case _ => s
  }

  function ExtractAll(v: View, base: Path, es: seq<ZipEntry>, remaining: u64, stats: Stats): Extraction
    decreases |es|
  {
    if es == [] then Done(v, stats, remaining)
    else
      var (v', end) := ExtractOne(v, base, es[0], remaining);
      WroteWithinBudget(v, base, es[0], remaining);
      if end.Aborted? then Stopped
      else ExtractAll(v', base, es[1..], if end.Wrote? then remaining - end.bytes else remaining, Count(stats, end))
  }

  // ----- the same, said without going through the components one by one -----

  /** The names of a component list, without the dots. */
  function Names(cs: seq<Component>): Path {
    if cs == [] then [] else (if cs[0].Normal? then [cs[0].name] else []) + Names(cs[1..])
  }

  predicate Plain(cs: seq<Component>) {
    forall i :: 0 <= i < |cs| ==> cs[i].Normal? || cs[i].CurDir?
  }

  /** Nothing but directories stands in the way from `base` along `names`. */
  ghost predicate Clear(v: View, base: Path, names: Path) {
    forall k :: 0 < k <= |names| && base + names[..k] in v ==> v[base + names[..k]].IDir?
  }

  /** `v` with every directory from `base` along `names`. */
  ghost function WithDirs(v: View, base: Path, names: Path): View
    decreases |names|
  {
    if names == [] then v
    else
      var up := WithDirs(v, base, names[..|names| - 1]);
      if base + names in up then up else up[base + names := IDir]
  }

  /** Each directory along the way is there, and everything that was there still is. */
  lemma {:induction false} WithDirsIs(v: View, base: Path, names: Path, q: Path)
    requires Clear(v, base, names)
    ensures
      var w := WithDirs(v, base, names);
      && (q in w <==> q in v || exists k :: 0 < k <= |names| && q == base + names[..k])
      && (q in w ==> w[q] == if q in v then v[q] else IDir)
    decreases |names|
  {
    if names != [] {
      var up := names[..|names| - 1];
      assert forall k :: 0 < k <= |up| ==> up[..k] == names[..k];
      assert names[..|names|] == names;
      WithDirsIs(v, base, up, q);
      WithDirsIs(v, base, up, base + names);
      assert forall k :: 0 < k <= |up| ==> |base + up[..k]| < |base + names|;
    }
  }

  lemma {:induction false} NamesOfPlain(cs: seq<Component>, c: Component)
    requires c.Normal? || c.CurDir?
    ensures Names(cs + [c]) == Names(cs) + if c.Normal? then [c.name] else []
    decreases |cs|
  {
    var all, last := cs + [c], if c.Normal? then [c.name] else [];
    if cs == [] {
      assert all == [c] && all[1..] == [];
      assert Names(all) == last + Names([]) == last;
    } else {
      var head := if cs[0].Normal? then [cs[0].name] else [];
      assert all[0] == cs[0] && all[1..] == cs[1..] + [c];
      NamesOfPlain(cs[1..], c);
      assert head + (Names(cs[1..]) + last) == (head + Names(cs[1..])) + last;
    }
  }

  /** A chain of names with a clear way makes the missing directories and arrives. */
  lemma {:induction false} ClearChain(v: View, base: Path, cs: seq<Component>)
    requires base in v && v[base].IDir? && Plain(cs) && Clear(v, base, Names(cs))
    ensures Chain(v, base, cs) == (WithDirs(v, base, Names(cs)), Reached(base + Names(cs)))
    ensures base + Names(cs) in WithDirs(v, base, Names(cs)) && WithDirs(v, base, Names(cs))[base + Names(cs)].IDir?
    decreases |cs|
  {
    if cs == [] {
      assert base + [] == base;
    } else {
      var init, c := cs[..|cs| - 1], cs[|cs| - 1];
      assert cs == init + [c];
      NamesOfPlain(init, c);
      var names, up := Names(cs), Names(init);
      assert forall k :: 0 < k <= |up| ==> up[..k] == names[..k];
      ClearChain(v, base, init);
      ChainSnoc(v, base, init, c);
      var w, d := WithDirs(v, base, up), base + up;
      assert [c][1..] == [];
      if c.Normal? {
        assert names == up + [c.name] && names[..|names| - 1] == up && base + names == d + [c.name];
        assert names[..|names|] == names;
        WithDirsIs(v, base, up, base + names);
        if base + names in w {
          assert w[base + names].IDir?;
        }
        assert Chain(w, d, [c]) == Chain(if base + names in w then w else w[base + names := IDir], base + names, []);
      } else {
        assert names == up;
        assert Chain(w, d, [c]) == Chain(w, d, []);
      }
    }
  }

  /** A chain stopped by something that is no directory, or by `..`, keeps the directories made before. */
  lemma BlockedChain(v: View, base: Path, cs: seq<Component>, i: nat)
    requires base in v && v[base].IDir? && i < |cs| && Plain(cs[..i]) && Clear(v, base, Names(cs[..i]))
    requires
      var p := base + Names(cs[..i + 1]);
      cs[i].ParentDir? || cs[i].RootDir? || (cs[i].Normal? && p in v && !v[p].IDir?)
    ensures Chain(v, base, cs) == (WithDirs(v, base, Names(cs[..i])), Blocked)
  {
    var init, c := cs[..i], cs[i];
    var w, d := WithDirs(v, base, Names(init)), base + Names(init);
    ClearChain(v, base, init);
    assert cs[..i + 1] == init + [c];
    if c.Normal? {
      NamesOfPlain(init, c);
      assert d + [c.name] == base + Names(cs[..i + 1]);
      WithDirsIs(v, base, Names(init), d + [c.name]);
    }
    ChainFrom(v, base, cs, i);
  }

  /** A chain continues from where its beginning led. */
  lemma {:induction false} ChainFrom(v: View, cur: Path, cs: seq<Component>, i: nat)
    requires i <= |cs| && Chain(v, cur, cs[..i]).1.Reached?
    ensures Chain(v, cur, cs) == Chain(Chain(v, cur, cs[..i]).0, Chain(v, cur, cs[..i]).1.dir, cs[i..])
    decreases i
  {
    if i == 0 {
      assert cs[..0] == [] && cs[0..] == cs;
    } else {
      assert cs[..i][1..] == cs[1..][..i - 1] && cs[1..][i - 1..] == cs[i..] && cs[..i][0] == cs[0];
      match cs[0]
      case CurDir => ChainFrom(v, cur, cs[1..], i - 1);
      case Normal(n) =>
        var p := cur + [n];
        ChainFrom(if p in v then v else v[p := IDir], p, cs[1..], i - 1);
      case _ =>
    }
  }

  /**
   * What an entry does, by its name as a path below `base`. A directory entry makes
   * the directories along its name, or is skipped if something else is in the way. A
   * file entry makes the directories above it and puts its bytes there; it is skipped
   * if something is in the way or a directory has its name, and stops everything if
   * it is too large or damaged.
   */
  lemma EntryByName(v: View, base: Path, e: ZipEntry, remaining: u64)
    requires base in v && v[base].IDir? && remaining + 1 < U64_SIZE
    requires e.readable && e.name.Some? && !IsLinkMode(e.mode) && Plain(e.name.value)
    ensures
      var rel := e.name.value;
      var r := ExtractOne(v, base, e, remaining);
      if e.isDir then
        if Clear(v, base, Names(rel)) then r == (WithDirs(v, base, Names(rel)), MadeDir) else r.1 == Skipped
      else if rel == [] || rel[|rel| - 1].CurDir? then r == (v, Skipped)
      else
        var names := Names(rel);
        var up := Names(rel[..|rel| - 1]);
        var p := base + names;
        && names == up + [rel[|rel| - 1].name]
        && (if e.declared > remaining then r == (v, Aborted)
            else if !Clear(v, base, up) || (p in v && v[p].IDir?) then r.1 == Skipped
            else if |e.content| > remaining || e.corrupt then r.1 == Aborted
            else r == (WithDirs(v, base, up)[p := IFile(e.content)], Wrote(|e.content|)))
  {
    hide Chain, FillResult, Copied, WithDirs;
    var rel := e.name.value;
    if e.isDir {
      if Clear(v, base, Names(rel)) {
        ClearChain(v, base, rel);
      } else {
        UnclearChain(v, base, rel);
      }
    } else if rel != [] && rel[|rel| - 1].Normal? {
      var init, n := rel[..|rel| - 1], rel[|rel| - 1].name;
      assert rel == init + [Normal(n)];
      NamesOfPlain(init, Normal(n));
      assert base + (Names(init) + [n]) == base + Names(init) + [n];
      FillsIff(e, remaining);
      CopiedWhole(e, remaining);
      if Clear(v, base, Names(init)) {
        ClearChain(v, base, init);
        WithDirsIs(v, base, Names(init), base + Names(rel));
        assert forall k :: 0 < k <= |Names(init)| ==> |base + Names(init)[..k]| < |base + Names(rel)|;
      } else {
        UnclearChain(v, base, init);
      }
    }
  }

  /** A way that is not clear blocks the chain. */
  lemma {:induction false} UnclearChain(v: View, base: Path, cs: seq<Component>)
    requires base in v && v[base].IDir? && Plain(cs) && !Clear(v, base, Names(cs))
    ensures Chain(v, base, cs).1 == Blocked
    decreases |cs|
  {
    if cs != [] {
      var init, c := cs[..|cs| - 1], cs[|cs| - 1];
      assert cs == init + [c];
      NamesOfPlain(init, c);
      var names, up := Names(cs), Names(init);
      if Clear(v, base, up) {
        assert forall k :: 0 < k <= |up| ==> up[..k] == names[..k];
        assert names[..|names|] == names;
        assert cs[..|cs|] == cs;
        BlockedChain(v, base, cs, |cs| - 1);
      } else {
        UnclearChain(v, base, init);
        BlockedStays(v, base, init, c);
      }
    }
  }

  lemma {:induction false} BlockedStays(v: View, cur: Path, cs: seq<Component>, c: Component)
    requires Chain(v, cur, cs).1 == Blocked
    ensures Chain(v, cur, cs + [c]) == Chain(v, cur, cs)
    decreases |cs|
  {
    if cs != [] {
      assert (cs + [c])[1..] == cs[1..] + [c];
      match cs[0]
      case CurDir => BlockedStays(v, cur, cs[1..], c);
      case Normal(n) =>
        var p := cur + [n];
        if p !in v || v[p].IDir? {
          BlockedStays(if p in v then v else v[p := IDir], p, cs[1..], c);
        }
      case _ =>
    }
  }

  /**
   * Which members count as links: those whose Unix mode has file type ten. They are
   * skipped, and the mode of any other member plays no part.
   */
  lemma LinkMembersSkipped(v: View, base: Path, e: ZipEntry, remaining: u64)
    requires e.readable
    ensures
      var r := ExtractOne(v, base, e, remaining);
      if e.mode.Some? && (e.mode.value >> 12) & 0xF == 0xA then r == (v, Skipped)
      else r == ExtractOne(v, base, e.(mode := None), remaining)
  {
    hide Chain;
    assert e.mode.Some? ==> (e.mode.value & 0xF000 == 0xA000 <==> (e.mode.value >> 12) & 0xF == 0xA);
  }

  /** Members that cannot be read stop everything; names the reader refuses are skipped. */
  lemma UnusableMembers(v: View, base: Path, e: ZipEntry, remaining: u64)
    ensures !e.readable ==> ExtractOne(v, base, e, remaining) == (v, Aborted)
    ensures e.readable && e.name.None? ==> ExtractOne(v, base, e, remaining) == (v, Skipped)
  {}

  // ----- extractions that break off -----

  /**
   * Where inside an entry an extraction broke off: `steps` components of the
   * entry's directories were entered, and a temp file may be left behind.
   */
  datatype Halt = Halt(steps: nat, temp: Option<(Path, seq<byte>)>)

  /** The whole of it: entries done before, the entry it broke off in, and names taken away again. */
  datatype Break = Break(entries: nat, halt: Halt, removed: set<Path>)

  /** How many leading components of an entry's name may become directories. */
  function DirSteps(e: ZipEntry): (n: nat)
    ensures n > 0 ==> e.name.Some? && n <= |e.name.value|
  {
    if !e.readable || e.name.None? || IsLinkMode(e.mode) || e.name.value == [] then 0
    else if e.isDir then |e.name.value|
    else |e.name.value| - 1
  }

  ghost predicate CanHalt(base: Path, e: ZipEntry, h: Halt) {
    && h.steps <= DirSteps(e)
    && (h.temp.Some? ==> base < h.temp.value.0 && IsTempName(Last(h.temp.value.0)))
  }

  ghost function Halted(v: View, base: Path, e: ZipEntry, h: Halt): View
    requires CanHalt(base, e, h)
  {
    var v' := if h.steps == 0 then v else Chain(v, base, e.name.value[..h.steps]).0;
    if h.temp.Some? then v'[h.temp.value.0 := IFile(h.temp.value.1)] else v'
  }

  /** `p` is where the file entry `e` goes. */
  predicate Lands(base: Path, e: ZipEntry, p: Path) {
    e.readable && e.name.Some? && !e.isDir && !IsLinkMode(e.mode) && p == base + Names(e.name.value)
  }

  /** `p` is where one of the entries goes. */
  ghost predicate Landed(base: Path, es: seq<ZipEntry>, p: Path) {
    exists i :: 0 <= i < |es| && Lands(base, es[i], p)
  }

  /** `p` is below `base` and either was not there before or is where one of the entries went. */
  ghost predicate Written(v: View, base: Path, es: seq<ZipEntry>, p: Path) {
    base < p && (p !in v || Landed(base, es, p))
  }

  /** What was taken away again are names the extraction had written. */
  ghost predicate CanBreak(v: View, base: Path, es: seq<ZipEntry>, limit: u64, b: Break) {
    && b.entries <= |es| && ExtractAll(v, base, es[..b.entries], limit, Stats(0, 0)).Done?
    && (if b.entries < |es| then CanHalt(base, es[b.entries], b.halt) else b.halt == Halt(0, None))
    && forall p :: p in b.removed ==> Written(v, base, es[..b.entries], p)
  }

  /** What an extraction that broke off at `b` leaves. */
  ghost function Broken(v: View, base: Path, es: seq<ZipEntry>, limit: u64, b: Break): View
    requires CanBreak(v, base, es, limit, b)
  {
    var v' := ExtractAll(v, base, es[..b.entries], limit, Stats(0, 0)).view;
    (if b.entries < |es| then Halted(v', base, es[b.entries], b.halt) else v') - b.removed
  }

  lemma {:induction false} ChainLeads(v: View, cur: Path, cs: seq<Component>)
    ensures Chain(v, cur, cs).1.Reached? ==> Chain(v, cur, cs).1.dir == cur + Names(cs)
    decreases |cs|
  {
    if cs != [] {
      match cs[0]
      case CurDir => ChainLeads(v, cur, cs[1..]);
      case Normal(n) =>
        var p := cur + [n];
        ChainLeads(if p in v then v else v[p := IDir], p, cs[1..]);
        assert cur + ([n] + Names(cs[1..])) == p + Names(cs[1..]);
      case _ =>
    }
  }

  lemma ChainSnoc(v: View, cur: Path, cs: seq<Component>, c: Component)
    requires Chain(v, cur, cs).1.Reached?
    ensures Chain(v, cur, cs + [c]) == Chain(Chain(v, cur, cs).0, Chain(v, cur, cs).1.dir, [c])
  {
    assert (cs + [c])[..|cs|] == cs && (cs + [c])[|cs|..] == [c];
    ChainFrom(v, cur, cs + [c], |cs|);
  }

  lemma {:induction false} ExtractAllSnoc(v: View, base: Path, es: seq<ZipEntry>, e: ZipEntry, limit: u64, stats: Stats)
    requires ExtractAll(v, base, es, limit, stats).Done?
    ensures
      var out := ExtractAll(v, base, es, limit, stats);
      ExtractAll(v, base, es + [e], limit, stats) == ExtractAll(out.view, base, [e], out.left, out.stats)
    decreases |es|
  {
    if es == [] {
      assert es + [e] == [e];
    } else {
      assert (es + [e])[1..] == es[1..] + [e];
      WroteWithinBudget(v, base, es[0], limit);
      var (v', end) := ExtractOne(v, base, es[0], limit);
      ExtractAllSnoc(v', base, es[1..], e, if end.Wrote? then limit - end.bytes else limit, Count(stats, end));
    }
  }
}
