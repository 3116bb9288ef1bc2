/**
 * The node's directory tree as the daemon's system calls see it.
 *
 * `Tree` maps the physical location of every directory entry to what the entry
 * is. A textual path handed to a system call is resolved component by
 * component, following symbolic links in every position but the last, so it
 * may end up at a different physical location.
 */
module FileTree {
  import opened Prelude

  type Name = string
  type Path = seq<Name>

  datatype Component = Normal(name: Name) | CurDir | ParentDir | RootDir

  datatype Node = Dir | File(ino: nat) | Link(target: seq<Component>) | Other

  type Tree = map<Path, Node>

  datatype IoError =
    | NotFound | NotADirectory | TooManyLinks | AlreadyExists | IsADirectory
    | NotEmpty | InvalidInput | NoTempName | SizeLimit | Corrupt | Io

  /** The kernel's bound on links followed during one resolution (ELOOP). */
  const MAX_LINKS: nat := 40

  function Parent(p: Path): Path
    requires p != []
  {
    p[..|p| - 1]
  }

  function Last(p: Path): Name
    requires p != []
  {
    p[|p| - 1]
  }

  predicate IsDir(t: Tree, p: Path) {
    p in t && t[p].Dir?
  }

  /** Every entry sits in a directory, up to the root. */
  ghost predicate WellFormed(t: Tree) {
    && IsDir(t, [])
    && forall p: Path {:trigger Parent(p)} :: p in t && p != [] ==> IsDir(t, Parent(p))
  }

  /** No entry on the way to `p`, `p` included, is a symbolic link. */
  ghost predicate NoLinkUpTo(t: Tree, p: Path) {
    forall i :: 0 <= i <= |p| && p[..i] in t ==> !t[p[..i]].Link?
  }

  function Comps(p: Path): (cs: seq<Component>)
    ensures |cs| == |p|
  {
    seq(|p|, i requires 0 <= i < |p| => Normal(p[i]))
  }

  lemma CompsPrefix(p: Path, k: nat)
    requires k <= |p|
    ensures Comps(p)[..k] == Comps(p[..k])
  {}

  /** Resolve `rest` starting in directory `cur`, following every link. */
  function Walk(t: Tree, cur: Path, rest: seq<Component>, links: nat): Result<Path, IoError>
    decreases links, |rest|
  {
    if rest == [] then Ok(cur)
    else match rest[0]
      case RootDir => Walk(t, [], rest[1..], links)
      case CurDir => Walk(t, cur, rest[1..], links)
      case ParentDir => Walk(t, if cur == [] then [] else Parent(cur), rest[1..], links)
      case Normal(n) =>
        var p := cur + [n];
        if p !in t then Err(NotFound)
        else match t[p]
          case Dir => Walk(t, p, rest[1..], links)
          case Link(target) =>
            if links == 0 then Err(TooManyLinks)
            else Walk(t, cur, target + rest[1..], links - 1)
          case _ => if |rest| == 1 then Ok(p) else Err(NotADirectory)
  }

  /** `canonicalize`: the physical location a path leads to. */
  function Canonical(t: Tree, cs: seq<Component>): Result<Path, IoError> {
    Walk(t, [], cs, MAX_LINKS)
  }

  /** The directory that textual path `p` leads to. */
  function ResolveDir(t: Tree, p: Path): Result<Path, IoError> {
    match Canonical(t, Comps(p))
    case Ok(d) => if IsDir(t, d) then Ok(d) else Err(NotADirectory)
    case Err(e) => Err(e)
  }

  /** Physical location of the directory entry that textual path `p` names; the entry itself is not followed. */
  function Locate(t: Tree, p: Path): Result<Path, IoError> {
    if p == [] then Ok([])
    else match ResolveDir(t, Parent(p))
      case Ok(d) => Ok(d + [Last(p)])
      case Err(e) => Err(e)
  }

  function Lookup(t: Tree, p: Path): Result<Node, IoError> {
    match Locate(t, p)
    case Ok(q) => if q in t then Ok(t[q]) else Err(NotFound)
    case Err(e) => Err(e)
  }

  lemma ParentLast(p: Path)
    requires p != []
    ensures Parent(p) + [Last(p)] == p
  {}

  lemma ParentOfChild(d: Path, n: Name)
    ensures Parent(d + [n]) == d && Last(d + [n]) == n
  {
    assert (d + [n])[..|d|] == d;
  }

  /** Everything above an entry of a well-formed tree is a real directory. */
  lemma {:induction false} PrefixIsDir(t: Tree, p: Path, i: nat)
    requires WellFormed(t) && p in t && i < |p|
    ensures IsDir(t, p[..i])
    decreases |p|
  {
    var q := Parent(p);
    if i < |p| - 1 {
      PrefixIsDir(t, q, i);
      assert q[..i] == p[..i];
    }
  }

  lemma NothingBelowMissing(t: Tree, p: Path, q: Path)
    requires WellFormed(t) && p !in t && q in t
    ensures !(p <= q)
  {
    if p <= q {
      assert q[..|p|] == p;
      if p != q {
        PrefixIsDir(t, q, |p|);
      }
    }
  }

  lemma EntryHasNoLinkAbove(t: Tree, p: Path)
    requires WellFormed(t) && p in t && !t[p].Link?
    ensures NoLinkUpTo(t, p)
  {
    forall i | 0 <= i <= |p| && p[..i] in t ensures !t[p[..i]].Link? {
      if i < |p| {
        PrefixIsDir(t, p, i);
      } else {
        assert p[..i] == p;
      }
    }
  }

  /** Without links on the way, a textual path can only lead to itself. */
  lemma {:induction false} WalkIsIdentity(t: Tree, p: Path, i: nat, links: nat)
    requires i <= |p| && NoLinkUpTo(t, p)
    requires IsDir(t, p[..i])
    ensures var r := Walk(t, p[..i], Comps(p)[i..], links); r.Ok? ==> r.value == p && p in t
    decreases |p| - i
  {
    if i == |p| {
      assert p[..i] == p;
    } else {
      var q := p[..i + 1];
      assert p[..i] + [p[i]] == q;
      assert Comps(p)[i..][1..] == Comps(p)[i + 1..];
      if q in t && t[q].Dir? {
        WalkIsIdentity(t, p, i + 1, links);
      } else if q in t && i + 1 == |p| {
        assert q == p;
      }
    }
  }

  /** A path without links on the way can name no entry but its own. */
  lemma LocateWithoutLinks(t: Tree, p: Path)
    requires WellFormed(t) && NoLinkUpTo(t, p)
    ensures Locate(t, p).Ok? ==> Locate(t, p).value == p
  {
    if p != [] {
      var d := Parent(p);
      forall i | 0 <= i <= |d| && d[..i] in t ensures !t[d[..i]].Link? {
        assert d[..i] == p[..i];
      }
      WalkIsIdentity(t, d, 0, MAX_LINKS);
      assert d[..0] == [] && Comps(d)[0..] == Comps(d);
      ParentLast(p);
    }
  }

  lemma {:induction false} WalkReaches(t: Tree, p: Path, i: nat, links: nat)
    requires WellFormed(t) && p in t && !t[p].Link? && i <= |p|
    ensures Walk(t, p[..i], Comps(p)[i..], links) == Ok(p)
    decreases |p| - i
  {
    if i == |p| {
      assert p[..i] == p;
    } else {
      var q := p[..i + 1];
      assert p[..i] + [p[i]] == q;
      assert Comps(p)[i..][1..] == Comps(p)[i + 1..];
      if i + 1 < |p| {
        PrefixIsDir(t, p, i + 1);
        WalkReaches(t, p, i + 1, links);
      } else {
        assert q == p;
        WalkReaches(t, p, i + 1, links);
      }
    }
  }

  /** An entry that is not a link is where its own path leads. */
  lemma CanonicalReal(t: Tree, p: Path)
    requires WellFormed(t) && p in t && !t[p].Link?
    ensures Canonical(t, Comps(p)) == Ok(p)
  {
    WalkReaches(t, p, 0, MAX_LINKS);
    assert Comps(p)[0..] == Comps(p) && p[..0] == [];
  }

  /** Naming an entry of a real directory names that physical entry. */
  lemma LocateInRealDir(t: Tree, d: Path, n: Name)
    requires WellFormed(t) && IsDir(t, d)
    ensures Locate(t, d + [n]) == Ok(d + [n])
  {
    ParentOfChild(d, n);
    CanonicalReal(t, d);
  }

  lemma LocateEntry(t: Tree, p: Path)
    requires WellFormed(t) && p in t
    ensures Locate(t, p) == Ok(p)
  {
    if p != [] {
      ParentLast(p);
      LocateInRealDir(t, Parent(p), Last(p));
    }
  }

  /** A file in directory position makes every lookup below it fail. */
  lemma LocateBelowNonDir(t: Tree, d: Path, n: Name)
    requires WellFormed(t) && d in t && !t[d].Link? && !t[d].Dir?
    ensures Locate(t, d + [n]) == Err(NotADirectory)
  {
    ParentOfChild(d, n);
    CanonicalReal(t, d);
  }

  /** Adding an entry does not redirect a path that already resolved. */
  lemma {:induction false} WalkAfterAdding(t: Tree, x: Path, node: Node, cur: Path, rest: seq<Component>, links: nat)
    requires x !in t
    ensures Walk(t, cur, rest, links).Ok? ==> Walk(t[x := node], cur, rest, links) == Walk(t, cur, rest, links)
    decreases links, |rest|
  {
    if rest != [] {
      match rest[0]
      case RootDir => WalkAfterAdding(t, x, node, [], rest[1..], links);
      case CurDir => WalkAfterAdding(t, x, node, cur, rest[1..], links);
      case ParentDir => WalkAfterAdding(t, x, node, if cur == [] then [] else Parent(cur), rest[1..], links);
      case Normal(n) =>
        var p := cur + [n];
        if p in t {
          match t[p]
          case Dir => WalkAfterAdding(t, x, node, p, rest[1..], links);
          case Link(target) =>
            if links > 0 {
              WalkAfterAdding(t, x, node, cur, target + rest[1..], links - 1);
            }
          case _ =>
        }
    }
  }

  /**
   * A path to somewhere else does not run through an entry that is no directory and
   * no link, whatever becomes of it.
   */
  lemma {:induction false} WalkPastLeaf(t: Tree, t': Tree, x: Path, cur: Path, rest: seq<Component>, links: nat)
    requires t - {x} == t' - {x} && (x in t ==> !t[x].Dir? && !t[x].Link?)
    ensures Walk(t, cur, rest, links).Ok? && Walk(t, cur, rest, links).value != x ==>
              Walk(t', cur, rest, links) == Walk(t, cur, rest, links)
    decreases links, |rest|
  {
    if rest != [] {
      match rest[0]
      case RootDir => WalkPastLeaf(t, t', x, [], rest[1..], links);
      case CurDir => WalkPastLeaf(t, t', x, cur, rest[1..], links);
      case ParentDir => WalkPastLeaf(t, t', x, if cur == [] then [] else Parent(cur), rest[1..], links);
      case Normal(n) =>
        var p := cur + [n];
        if p in t && p != x {
          assert p in t - {x} && p in t' - {x};
          assert t[p] == (t - {x})[p] && t'[p] == (t' - {x})[p];
          match t[p]
          case Dir => WalkPastLeaf(t, t', x, p, rest[1..], links);
          case Link(target) =>
            if links > 0 {
              WalkPastLeaf(t, t', x, cur, target + rest[1..], links - 1);
            }
          case _ =>
        }
    }
  }

  lemma ResolveDirPastLeaf(t: Tree, t': Tree, x: Path, d: Path)
    requires t - {x} == t' - {x} && (x in t ==> !t[x].Dir? && !t[x].Link?) && ResolveDir(t, d).Ok?
    ensures ResolveDir(t', d) == ResolveDir(t, d)
  {
    WalkPastLeaf(t, t', x, [], Comps(d), MAX_LINKS);
    var q := ResolveDir(t, d).value;
    assert q in t - {x} && q in t' - {x};
    assert t[q] == (t - {x})[q] && t'[q] == (t' - {x})[q];
  }

  /** Removing an entry leads a path astray or leaves it alone, never somewhere else. */
  lemma ResolveDirAfterRemoving(t: Tree, x: Path, d: Path)
    requires x in t && ResolveDir(t - {x}, d).Ok?
    ensures ResolveDir(t, d) == ResolveDir(t - {x}, d)
  {
    assert (t - {x})[x := t[x]] == t;
    ResolveDirAfterAdding(t - {x}, x, t[x], d);
  }

  lemma ResolveDirAfterAdding(t: Tree, x: Path, node: Node, d: Path)
    requires x !in t && ResolveDir(t, d).Ok?
    ensures ResolveDir(t[x := node], d) == ResolveDir(t, d)
  {
    WalkAfterAdding(t, x, node, [], Comps(d), MAX_LINKS);
  }

  /** Where a walk ends is an existing entry that is not a link. */
  lemma {:induction false} WalkLandsOnEntry(t: Tree, cur: Path, rest: seq<Component>, links: nat)
    requires WellFormed(t) && IsDir(t, cur)
    ensures var r := Walk(t, cur, rest, links); r.Ok? ==> r.value in t && !t[r.value].Link?
    decreases links, |rest|
  {
    if rest != [] {
      match rest[0]
      case RootDir => WalkLandsOnEntry(t, [], rest[1..], links);
      case CurDir => WalkLandsOnEntry(t, cur, rest[1..], links);
      case ParentDir => WalkLandsOnEntry(t, if cur == [] then [] else Parent(cur), rest[1..], links);
      case Normal(n) =>
        var p := cur + [n];
        if p in t {
          match t[p]
          case Dir => WalkLandsOnEntry(t, p, rest[1..], links);
          case Link(target) =>
            if links > 0 {
              WalkLandsOnEntry(t, cur, target + rest[1..], links - 1);
            }
          case _ =>
        }
    }
  }
}
