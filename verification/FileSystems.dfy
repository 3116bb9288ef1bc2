/**
 * A mutable filesystem: the directory tree plus the bytes of every inode.
 * Hard links are several entries naming one inode.
 *
 * Each system call either does what the pure function of the same name says or,
 * where `faults` allows it, fails and leaves the disk alone.
 */
module FileSystems {
  import opened Prelude
  import opened FileTree

  /** `written` counts every byte ever handed to a file. Inode numbers from `next` on are unused. */
  datatype Disk = Disk(tree: Tree, data: map<nat, seq<byte>>, next: nat, written: nat)

  /** Which classes of calls may fail for reasons outside the tree (I/O error, quota, permissions). */
  datatype Faults = Faults(stat: bool, read: bool, write: bool, remove: bool)

  ghost predicate ValidDisk(d: Disk) {
    && WellFormed(d.tree)
    && (forall p :: p in d.tree && d.tree[p].File? ==> d.tree[p].ino in d.data)
    && (forall i :: i in d.data ==> i < d.next)
  }

  // What a reader can see: contents instead of inode numbers.
  datatype Item = IDir | IFile(content: seq<byte>) | ILink | IOther

  type View = map<Path, Item>

  function ItemAt(d: Disk, p: Path): Item
    requires p in d.tree
  {
    match d.tree[p]
    case Dir => IDir
    case File(ino) => if ino in d.data then IFile(d.data[ino]) else IOther
    case Link(_) => ILink
    case Other => IOther
  }

  ghost function ViewOf(d: Disk): (v: View)
    ensures v.Keys == d.tree.Keys
  {
    map p | p in d.tree :: ItemAt(d, p)
  }

  function MkDir(d: Disk, p: Path): Result<Disk, IoError> {
    match Locate(d.tree, p)
    case Ok(q) => if q in d.tree then Err(AlreadyExists) else Ok(d.(tree := d.tree[q := Dir]))
    case Err(e) => Err(e)
  }

  /** O_CREAT|O_EXCL: a fresh, empty inode under a name that was free. */
  function CreateNew(d: Disk, p: Path): Result<Disk, IoError> {
    match Locate(d.tree, p)
    case Ok(q) =>
      if q in d.tree then Err(AlreadyExists)
      else Ok(d.(tree := d.tree[q := File(d.next)], data := d.data[d.next := []], next := d.next + 1))
    case Err(e) => Err(e)
  }

  function AppendTo(d: Disk, ino: nat, bytes: seq<byte>): Disk
    requires ino in d.data
  {
    d.(data := d.data[ino := d.data[ino] + bytes], written := d.written + |bytes|)
  }

  /** Replace the entry `to` by the entry `from`; a directory is never replaced by a file. */
  function Rename(d: Disk, from: Path, to: Path): Result<Disk, IoError> {
    match (Locate(d.tree, from), Locate(d.tree, to))
    case (Ok(a), Ok(b)) =>
      if a !in d.tree then Err(NotFound)
      else if a == b then Ok(d)
      else if d.tree[a].Dir? then Err(InvalidInput)
      else if IsDir(d.tree, b) then Err(IsADirectory)
      else Ok(d.(tree := (d.tree - {a})[b := d.tree[a]]))
    case (Err(e), _) => Err(e)
    case (_, Err(e)) => Err(e)
  }

  function Unlink(d: Disk, p: Path): Result<Disk, IoError> {
    match Locate(d.tree, p)
    case Ok(q) =>
      if q !in d.tree then Err(NotFound)
      else if d.tree[q].Dir? then Err(IsADirectory)
      else Ok(d.(tree := d.tree - {q}))
    case Err(e) => Err(e)
  }

  function RmDir(d: Disk, p: Path): Result<Disk, IoError> {
    match Locate(d.tree, p)
    case Ok(q) =>
      if q !in d.tree then Err(NotFound)
      else if q == [] || !d.tree[q].Dir? then Err(NotADirectory)
      else if exists c :: c in d.tree && c != [] && Parent(c) == q then Err(NotEmpty)
      else Ok(d.(tree := d.tree - {q}))
    case Err(e) => Err(e)
  }

  /** A call that did what `spec` says, or failed because `may` allows it. */
  ghost predicate Did(before: Disk, after: Disk, r: Result<(), IoError>, spec: Result<Disk, IoError>, may: bool) {
    || (may && r.Err? && r.error == Io && after == before)
    || (spec.Ok? && r.Ok? && after == spec.value)
    || (spec.Err? && r.Err? && r.error == spec.error && after == before)
  }

  /** What `lstat` may say about `p`: how it is, or that the call failed. */
  predicate MayAnswer(t: Tree, p: Path, r: Result<Node, IoError>, may: bool) {
    r == Lookup(t, p) || (may && r.Err? && r.error == Io)
  }

  /**
   * A call as it went: an `lstat` with the tree it was about and the answer it gave,
   * or a rename that succeeded. `deciding` marks the `lstat` that tells an extraction
   * whether it is about to add a name or to replace one.
   */
  datatype Call = Asked(tree: Tree, path: Path, answer: Result<Node, IoError>, deciding: bool) | Renamed(to: Path)

  /** `trace` are the calls of these two kinds, in order. */
  class FileSystem {
    const faults: Faults
    var disk: Disk
    ghost var trace: seq<Call>

    ghost predicate Valid()
      reads this
    {
      ValidDisk(disk)
    }

    constructor (disk: Disk, faults: Faults)
      requires ValidDisk(disk)
      ensures Valid() && this.disk == disk && this.faults == faults && trace == []
    {
      this.disk := disk;
      this.faults := faults;
      trace := [];
    }

    /** `symlink_metadata`: the entry itself, never what a final link points to. */
    method Lstat(p: Path, ghost deciding: bool := false) returns (r: Result<Node, IoError>)
      modifies this`trace
      ensures MayAnswer(disk.tree, p, r, faults.stat)
      ensures trace == old(trace) + [Asked(disk.tree, p, r, deciding)]
    {
      var failing: bool := *;
      r := if faults.stat && failing then Err(Io) else Lookup(disk.tree, p);
      trace := trace + [Asked(disk.tree, p, r, deciding)];
    }

    method CreateDir(p: Path) returns (r: Result<(), IoError>)
      requires Valid()
      modifies this`disk
      ensures Valid()
      ensures Did(old(disk), disk, r, MkDir(old(disk), p), faults.write)
    {
      var failing: bool := *;
      if faults.write && failing {
        return Err(Io);
      }
      match MkDir(disk, p)
      case Ok(d) =>
        MkDirValid(disk, p);
        disk := d;
        r := Ok(());
      case Err(e) =>
        r := Err(e);
    }

    method OpenNew(p: Path) returns (r: Result<nat, IoError>)
      requires Valid()
      modifies this`disk
      ensures Valid()
      ensures Did(old(disk), disk, if r.Ok? then Ok(()) else Err(r.error), CreateNew(old(disk), p), faults.write)
      ensures r.Ok? ==> r.value == old(disk).next
    {
      var failing: bool := *;
      if faults.write && failing {
        return Err(Io);
      }
      match CreateNew(disk, p)
      case Ok(d) =>
        CreateNewValid(disk, p);
        r := Ok(disk.next);
        disk := d;
      case Err(e) =>
        r := Err(e);
    }

    /** Write to an open file; a failing write may have stored some leading bytes. */
    method Write(ino: nat, bytes: seq<byte>) returns (r: Result<(), IoError>)
      requires Valid() && ino in disk.data
      modifies this`disk
      ensures Valid()
      ensures exists k :: 0 <= k <= |bytes| && disk == AppendTo(old(disk), ino, bytes[..k]) && (r.Ok? ==> k == |bytes|)
      ensures r.Err? ==> faults.write && r.error == Io
    {
      var k := |bytes|;
      r := Ok(());
      var failing: bool := *;
      if faults.write && failing {
        k := *;
        if !(0 <= k <= |bytes|) {
          k := 0;
        }
        r := Err(Io);
      }
      disk := AppendTo(disk, ino, bytes[..k]);
    }

    method Move(from: Path, to: Path) returns (r: Result<(), IoError>)
      requires Valid()
      modifies this`disk, this`trace
      ensures Valid()
      ensures Did(old(disk), disk, r, Rename(old(disk), from, to), faults.write)
      ensures trace == old(trace) + if r.Ok? then [Renamed(to)] else []
    {
      var failing: bool := *;
      if faults.write && failing {
        return Err(Io);
      }
      match Rename(disk, from, to)
      case Ok(d) =>
        RenameValid(disk, from, to);
        disk := d;
        trace := trace + [Renamed(to)];
        r := Ok(());
      case Err(e) =>
        r := Err(e);
    }

    method RemoveFile(p: Path) returns (r: Result<(), IoError>)
      requires Valid()
      modifies this`disk
      ensures Valid()
      ensures Did(old(disk), disk, r, Unlink(old(disk), p), faults.remove)
    {
      var failing: bool := *;
      if faults.remove && failing {
        return Err(Io);
      }
      match Unlink(disk, p)
      case Ok(d) =>
        UnlinkValid(disk, p);
        disk := d;
        r := Ok(());
      case Err(e) =>
        r := Err(e);
    }

    method RemoveDir(p: Path) returns (r: Result<(), IoError>)
      requires Valid()
      modifies this`disk
      ensures Valid()
      ensures Did(old(disk), disk, r, RmDir(old(disk), p), faults.remove)
    {
      var failing: bool := *;
      if faults.remove && failing {
        return Err(Io);
      }
      match RmDir(disk, p)
      case Ok(d) =>
        RmDirValid(disk, p);
        disk := d;
        r := Ok(());
      case Err(e) =>
        r := Err(e);
    }
  }

  /** The directory part of a located entry is a real directory. */
  lemma LocatedInDir(t: Tree, p: Path)
    requires WellFormed(t) && Locate(t, p).Ok?
    ensures var q := Locate(t, p).value; q == [] || IsDir(t, Parent(q))
  {
    if p != [] {
      ParentOfChild(ResolveDir(t, Parent(p)).value, Last(p));
    }
  }

  /** Adding an entry inside a directory keeps the tree well-formed. */
  lemma AddEntryValid(t: Tree, q: Path, node: Node)
    requires WellFormed(t) && q != [] && IsDir(t, Parent(q))
    requires q in t && t[q].Dir? ==> node.Dir?
    ensures WellFormed(t[q := node])
  {
    var t' := t[q := node];
    forall p: Path | p in t' && p != [] ensures IsDir(t', Parent(p)) {
      if p in t {
        assert IsDir(t, Parent(p));
      }
    }
  }

  lemma RemoveEntryValid(t: Tree, q: Path)
    requires WellFormed(t) && q != [] && q in t
    requires t[q].Dir? ==> !exists c :: c in t && c != [] && Parent(c) == q
    ensures WellFormed(t - {q})
  {
    var t' := t - {q};
    forall p: Path | p in t' && p != [] ensures IsDir(t', Parent(p)) {
      assert IsDir(t, Parent(p));
    }
  }

  lemma MkDirValid(d: Disk, p: Path)
    requires ValidDisk(d) && MkDir(d, p).Ok?
    ensures ValidDisk(MkDir(d, p).value)
  {
    LocatedInDir(d.tree, p);
    AddEntryValid(d.tree, Locate(d.tree, p).value, Dir);
  }

  lemma CreateNewValid(d: Disk, p: Path)
    requires ValidDisk(d) && CreateNew(d, p).Ok?
    ensures ValidDisk(CreateNew(d, p).value)
  {
    LocatedInDir(d.tree, p);
    AddEntryValid(d.tree, Locate(d.tree, p).value, File(d.next));
  }

  lemma RenameValid(d: Disk, from: Path, to: Path)
    requires ValidDisk(d) && Rename(d, from, to).Ok?
    ensures ValidDisk(Rename(d, from, to).value)
  {
    var a, b := Locate(d.tree, from).value, Locate(d.tree, to).value;
    if a != b {
      LocatedInDir(d.tree, to);
      RemoveEntryValid(d.tree, a);
      AddEntryValid(d.tree - {a}, b, d.tree[a]);
    }
  }

  lemma UnlinkValid(d: Disk, p: Path)
    requires ValidDisk(d) && Unlink(d, p).Ok?
    ensures ValidDisk(Unlink(d, p).value)
  {
    RemoveEntryValid(d.tree, Locate(d.tree, p).value);
  }

  lemma RmDirValid(d: Disk, p: Path)
    requires ValidDisk(d) && RmDir(d, p).Ok?
    ensures ValidDisk(RmDir(d, p).value)
  {
    RemoveEntryValid(d.tree, Locate(d.tree, p).value);
  }
}
