/** `resolve_in_server`: turning a user's path into a location below the server's root. */
module PathResolver {
  import opened Prelude
  import opened FileTree
  import opened Text
  import opened ExtractSpec

  datatype Refusal = InvalidServerId | BadBase | Traversal | SymlinkRefused | InvalidPath | NoParent

  /** The canonical hyphenated UUID form, the only one that is 36 characters long. */
  predicate ValidServerId(id: string) {
    |id| == 36 && forall i :: 0 <= i < 36 ==>
      if i == 8 || i == 13 || i == 18 || i == 23 then id[i] == '-' else IsHex(id[i])
  }

  predicate IsHex(c: char) {
    '0' <= c <= '9' || 'a' <= c <= 'f' || 'A' <= c <= 'F'
  }

  /** One segment between slashes as the operating system reads it; an empty one is a repeated or trailing slash. */
  function Segment(s: string): Component {
    if s == "" || s == "." then CurDir else if s == ".." then ParentDir else Normal(s)
  }

  function Raw(user: string): (cs: seq<Component>)
    ensures cs != []
  {
    var segs := Split(user, '/');
    seq(|segs|, i requires 0 <= i < |segs| => Segment(segs[i]))
  }

  /** `symlink_metadata`: a final name is not followed, a trailing slash or dot is. */
  function Lstat(t: Tree, cs: seq<Component>): Result<Node, IoError> {
    if cs != [] && cs[|cs| - 1].Normal? then
      match Canonical(t, cs[..|cs| - 1])
      case Err(e) => Err(e)
      case Ok(d) =>
        var p := d + [cs[|cs| - 1].name];
        if !IsDir(t, d) then Err(NotADirectory) else if p in t then Ok(t[p]) else Err(NotFound)
    else
      match Canonical(t, cs)
      case Err(e) => Err(e)
      case Ok(p) => if p in t then Ok(t[p]) else Err(NotFound)
  }

  /** The part of `cs` before its last name, as `Path::parent` and `Path::file_name` split it. */
  function SplitLast(cs: seq<Component>): Option<(seq<Component>, Name)> {
    if cs == [] then None
    else
      var last := cs[|cs| - 1];
      if last.Normal? then Some((cs[..|cs| - 1], last.name)) else SplitLast(cs[..|cs| - 1])
  }

  predicate HasParentDir(cs: seq<Component>) {
    exists i :: 0 <= i < |cs| && cs[i] == ParentDir
  }

  predicate HasName(cs: seq<Component>) {
    exists i :: 0 <= i < |cs| && cs[i].Normal?
  }

  /** Below the canonical root: where the path leads, or the new name under its existing parent. */
  function ResolveBelow(t: Tree, root: Path, raw: seq<Component>): Result<Path, Refusal> {
    var target := Comps(root) + raw;
    match Lstat(t, target)
    case Ok(node) =>
      if node.Link? then Err(SymlinkRefused)
      else (match Canonical(t, target)
        case Err(_) => Err(InvalidPath)
        case Ok(p) => if root <= p then Ok(p) else Err(Traversal))
    case Err(NotFound) =>
      (match SplitLast(target)
       case None => Err(InvalidPath)
       case Some((up, name)) =>
         match Canonical(t, up)
         case Err(NotFound) => Err(NoParent)
         case Err(_) => Err(InvalidPath)
         case Ok(d) =>
           var joined := d + [name];
           if !(root <= d) then Err(Traversal)
           else if joined in t && t[joined].Link? then Err(SymlinkRefused)
           else Ok(joined))
    case Err(_) => Err(InvalidPath)
  }

  /** `(canonical server root, resolved path)`; `base` is the server directory, which exists by now. */
  function ResolveInServer(t: Tree, base: seq<Component>, serverId: string, user: string)
    : Result<(Path, Path), Refusal>
  {
    if !ValidServerId(serverId) then Err(InvalidServerId)
    else match Canonical(t, base + [Normal(serverId)])
      case Err(_) => Err(BadBase)
      case Ok(root) =>
        var raw := Raw(user);
        if HasParentDir(raw) then Err(Traversal)
        else if !HasName(raw) then Ok((root, root))
        // no system call takes a path with a NUL in it
        else if '\0' in user then Err(InvalidPath)
        else match ResolveBelow(t, root, raw)
          case Err(e) => Err(e)
          case Ok(p) => Ok((root, p))
  }

  /**
   * Whatever links the tree holds: an accepted path lies at or below the root, no
   * component of it, the last included, is a link, it or its parent exists, and a
   * system call given the path acts on that very entry.
   */
  lemma ResolvedIsSafe(t: Tree, base: seq<Component>, serverId: string, user: string)
    requires WellFormed(t)
    ensures
      var r := ResolveInServer(t, base, serverId, user);
      r.Ok? ==>
        var (root, p) := r.value;
        && Canonical(t, base + [Normal(serverId)]) == Ok(root)
        && root <= p && NoLinkUpTo(t, p)
        && (p in t || (p != [] && root <= Parent(p) && Parent(p) in t))
        && (Locate(t, p).Ok? ==> Locate(t, p).value == p)
  {
    var r := ResolveInServer(t, base, serverId, user);
    if r.Ok? {
      var (root, p) := r.value;
      WalkLandsOnEntry(t, [], base + [Normal(serverId)], MAX_LINKS);
      EntryHasNoLinkAbove(t, root);
      if HasName(Raw(user)) {
        BelowIsSafe(t, root, Raw(user));
      }
      LocateWithoutLinks(t, p);
    }
  }

  lemma BelowIsSafe(t: Tree, root: Path, raw: seq<Component>)
    requires WellFormed(t)
    ensures
      var r := ResolveBelow(t, root, raw);
      r.Ok? ==>
        && root <= r.value && NoLinkUpTo(t, r.value)
        && (r.value in t || (r.value != [] && root <= Parent(r.value) && Parent(r.value) in t))
  {
    var target := Comps(root) + raw;
    var r := ResolveBelow(t, root, raw);
    if r.Ok? {
      if Lstat(t, target).Ok? {
        WalkLandsOnEntry(t, [], target, MAX_LINKS);
        EntryHasNoLinkAbove(t, r.value);
      } else {
        var (up, name) := SplitLast(target).value;
        WalkLandsOnEntry(t, [], up, MAX_LINKS);
        var d := Canonical(t, up).value;
        ParentOfChild(d, name);
        EntryHasNoLinkAbove(t, d);
        var p := d + [name];
        forall i | 0 <= i <= |p| && p[..i] in t ensures !t[p[..i]].Link? {
          if i == |p| {
            assert p[..i] == p;
          } else {
            assert p[..i] == d[..i];
          }
        }
      }
    }
  }

  // ----- what every user string gets -----

  ghost predicate FiveGroups(gs: seq<string>) {
    |gs| == 5 && |gs[0]| == 8 && |gs[1]| == 4 && |gs[2]| == 4 && |gs[3]| == 4 && |gs[4]| == 12
  }

  /** A server id is five groups of hexadecimal digits. */
  lemma ServerIdIff(id: string)
    ensures ValidServerId(id) <==>
            var gs := Split(id, '-');
            FiveGroups(gs) && forall i, j :: 0 <= i < |gs| && 0 <= j < |gs[i]| ==> IsHex(gs[i][j])
  {
    hide IsHex;
    if ValidServerId(id) {
      ValidIdSplits(id);
    }
    if FiveGroups(Split(id, '-')) {
      GroupsAreId(id);
    }
  }

  lemma ValidIdSplits(id: string)
    requires ValidServerId(id)
    ensures Split(id, '-') == [id[..8], id[9..13], id[14..18], id[19..23], id[24..]]
  {
    hide Split;
    var a, b, c, d, e := id[..8], id[9..13], id[14..18], id[19..23], id[24..];
    SplitNone(e, '-');
    GroupSplits(d, e);
    GroupSplits(c, id[19..]);
    GroupSplits(b, id[14..]);
    GroupSplits(a, id[9..]);
    assert id == a + "-" + id[9..] && id[9..] == b + "-" + id[14..];
    assert id[14..] == c + "-" + id[19..] && id[19..] == d + "-" + e;
  }

  lemma GroupsAreId(id: string)
    requires FiveGroups(Split(id, '-'))
    ensures ValidServerId(id) <==>
            var gs := Split(id, '-'); forall i, j :: 0 <= i < |gs| && 0 <= j < |gs[i]| ==> IsHex(gs[i][j])
  {
    hide Split, IsHex, Join;
    var gs := Split(id, '-');
    JoinSplit(id, '-');
    assert gs == [gs[0], gs[1], gs[2], gs[3], gs[4]];
    FiveJoined(gs[0], gs[1], gs[2], gs[3], gs[4]);
    assert forall k :: 0 <= k < 8 ==> id[k] == gs[0][k];
    assert forall k :: 9 <= k < 13 ==> id[k] == gs[1][k - 9];
    assert forall k :: 14 <= k < 18 ==> id[k] == gs[2][k - 14];
    assert forall k :: 19 <= k < 23 ==> id[k] == gs[3][k - 19];
    assert forall k :: 24 <= k < 36 ==> id[k] == gs[4][k - 24];
    if ValidServerId(id) {
      forall i, j | 0 <= i < |gs| && 0 <= j < |gs[i]| ensures IsHex(gs[i][j]) {
        var at := if i == 0 then 0 else 9 + 5 * (i - 1);
        assert id[at + j] == gs[i][j];
      }
    }
  }

  lemma GroupSplits(a: string, rest: string)
    requires forall i :: 0 <= i < |a| ==> IsHex(a[i])
    ensures Split(a + "-" + rest, '-') == [a] + Split(rest, '-')
  {
    assert '-' !in a;
    SplitNone(a, '-');
    SplitAppend(a, rest, '-');
  }

  lemma FiveJoined(a: string, b: string, c: string, d: string, e: string)
    requires |a| == 8 && |b| == 4 && |c| == 4 && |d| == 4 && |e| == 12
    ensures
      var id := Join([a, b, c, d, e], "-");
      && |id| == 36 && id[8] == '-' && id[13] == '-' && id[18] == '-' && id[23] == '-'
      && id[..8] == a && id[9..13] == b && id[14..18] == c && id[19..23] == d && id[24..] == e
  {
    var de := d + "-" + e;
    var cde := c + "-" + de;
    var bcde := b + "-" + cde;
    var id := a + "-" + bcde;
    assert Join([e], "-") == e;
    assert [d, e][1..] == [e] && Join([d, e], "-") == de;
    assert [c, d, e][1..] == [d, e] && Join([c, d, e], "-") == cde;
    assert [b, c, d, e][1..] == [c, d, e] && Join([b, c, d, e], "-") == bcde;
    assert [a, b, c, d, e][1..] == [b, c, d, e] && Join([a, b, c, d, e], "-") == id;
    assert id[9..] == bcde && bcde[5..] == cde && cde[5..] == de && de[5..] == e;
  }

  /** The names a user typed: the segments that are neither empty nor a dot. */
  function Typed(segs: seq<string>): Path {
    if segs == [] then []
    else (if segs[0] == "" || segs[0] == "." then [] else [segs[0]]) + Typed(segs[1..])
  }

  ghost predicate NoDotDot(segs: seq<string>) {
    forall i :: 0 <= i < |segs| ==> segs[i] != ".."
  }

  lemma {:induction false} TypedNames(segs: seq<string>, raw: seq<Component>)
    requires NoDotDot(segs) && |raw| == |segs| && forall i :: 0 <= i < |segs| ==> raw[i] == Segment(segs[i])
    ensures Names(raw) == Typed(segs) && Plain(raw) && (HasName(raw) <==> Typed(segs) != [])
    decreases |segs|
  {
    if segs != [] {
      TypedNames(segs[1..], raw[1..]);
      if HasName(raw[1..]) {
        var i :| 0 <= i < |raw[1..]| && raw[1..][i].Normal?;
        assert raw[i + 1].Normal?;
      }
      if HasName(raw) && !raw[0].Normal? {
        var i :| 0 <= i < |raw| && raw[i].Normal?;
        assert raw[1..][i - 1].Normal?;
      }
    }
  }

  /**
   * The strings with a verdict of their own: nothing for a bad id, `..` anywhere is
   * traversal, and the root comes out for any spelling of it, be it "", "/" or ".".
   */
  lemma VerdictByName(t: Tree, base: seq<Component>, serverId: string, user: string)
    ensures
      var r, segs := ResolveInServer(t, base, serverId, user), Split(user, '/');
      if !ValidServerId(serverId) then r == Err(InvalidServerId)
      else match Canonical(t, base + [Normal(serverId)])
        case Err(_) => r == Err(BadBase)
        case Ok(root) =>
          && (!NoDotDot(segs) ==> r == Err(Traversal))
          && (NoDotDot(segs) && Typed(segs) == [] ==> r == Ok((root, root)))
          && (NoDotDot(segs) && Typed(segs) != [] && '\0' in user ==> r == Err(InvalidPath))
          && (NoDotDot(segs) && Typed(segs) != [] && '\0' !in user ==>
                var below := ResolveBelow(t, root, Raw(user));
                r == if below.Ok? then Ok((root, below.value)) else Err(below.error))
  {
    hide ResolveBelow, Canonical;
    var segs, raw := Split(user, '/'), Raw(user);
    if NoDotDot(segs) {
      TypedNames(segs, raw);
      assert forall i :: 0 <= i < |raw| ==> raw[i] != ParentDir;
    } else {
      var i :| 0 <= i < |segs| && segs[i] == "..";
      assert raw[i] == ParentDir;
    }
  }

  /** Resolution goes on from a directory with one more name. */
  lemma {:induction false} WalkOneMore(t: Tree, cur: Path, cs: seq<Component>, n: Name, links: nat)
    requires Walk(t, cur, cs, links).Ok? && IsDir(t, Walk(t, cur, cs, links).value)
    requires var p := Walk(t, cur, cs, links).value + [n]; p in t && !t[p].Link?
    ensures Walk(t, cur, cs + [Normal(n)], links) == Ok(Walk(t, cur, cs, links).value + [n])
    decreases links, |cs|
  {
    var all := cs + [Normal(n)];
    if cs == [] {
      assert all == [Normal(n)] && all[1..] == [];
    } else {
      assert all[0] == cs[0] && all[1..] == cs[1..] + [Normal(n)];
      match cs[0]
      case RootDir => WalkOneMore(t, [], cs[1..], n, links);
      case CurDir => WalkOneMore(t, cur, cs[1..], n, links);
      case ParentDir => WalkOneMore(t, if cur == [] then [] else Parent(cur), cs[1..], n, links);
      case Normal(x) =>
        var p := cur + [x];
        match t[p]
        case Dir => WalkOneMore(t, p, cs[1..], n, links);
        case Link(target) =>
          assert target + all[1..] == target + cs[1..] + [Normal(n)];
          WalkOneMore(t, cur, target + cs[1..], n, links - 1);
        case _ =>
    }
  }

  /**
   * A path that ends in a name, with any links on the way: it resolves exactly to
   * that name in the directory the rest leads to, exactly if that is no link and lies
   * below the root, or is a new name whose directory does.
   */
  lemma NamedPathIff(t: Tree, root: Path, raw: seq<Component>, q: Path)
    requires WellFormed(t) && raw != [] && raw[|raw| - 1].Normal?
    ensures
      var up, n := Comps(root) + raw[..|raw| - 1], raw[|raw| - 1].name;
      ResolveBelow(t, root, raw) == Ok(q) <==>
        && Canonical(t, up).Ok? && IsDir(t, Canonical(t, up).value) && q == Canonical(t, up).value + [n]
        && (if q in t then !t[q].Link? && root <= q else root <= Canonical(t, up).value)
  {
    hide WellFormed, Comps;
    var target, n := Comps(root) + raw, raw[|raw| - 1].name;
    var up := Comps(root) + raw[..|raw| - 1];
    assert target == up + [Normal(n)] && target[..|target| - 1] == up && target[|target| - 1] == Normal(n);
    if Canonical(t, up).Ok? && IsDir(t, Canonical(t, up).value) {
      var p := Canonical(t, up).value + [n];
      if p in t && !t[p].Link? {
        WalkOneMore(t, [], up, n, MAX_LINKS);
      }
    }
  }

  /** Without links, dots and doubled slashes lead nowhere else. */
  lemma {:induction false} WalkAlong(t: Tree, cur: Path, cs: seq<Component>, links: nat)
    requires WellFormed(t) && Plain(cs) && IsDir(t, cur + Names(cs))
    ensures Walk(t, cur, cs, links) == Ok(cur + Names(cs))
    decreases |cs|
  {
    if cs == [] {
      assert cur + [] == cur;
    } else {
      var rest := cs[1..];
      if cs[0].Normal? {
        var p := cur + [cs[0].name];
        assert cur + Names(cs) == p + Names(rest);
        if Names(rest) == [] {
          assert p + [] == p;
        } else {
          PrefixIsDir(t, p + Names(rest), |p|);
          assert (p + Names(rest))[..|p|] == p;
        }
        WalkAlong(t, p, rest, links);
      } else {
        assert Names(cs) == Names(rest);
        WalkAlong(t, cur, rest, links);
      }
    }
  }

  lemma {:induction false} NamesAppend(a: seq<Component>, b: seq<Component>)
    ensures Names(a + b) == Names(a) + Names(b)
  {
    if a == [] {
      assert a + b == b;
    } else {
      var head := if a[0].Normal? then [a[0].name] else [];
      assert (a + b)[0] == a[0] && (a + b)[1..] == a[1..] + b;
      NamesAppend(a[1..], b);
      assert head + (Names(a[1..]) + Names(b)) == (head + Names(a[1..])) + Names(b);
    }
  }

  lemma {:induction false} NamesOfComps(p: Path)
    ensures Names(Comps(p)) == p && Plain(Comps(p))
  {
    if p != [] {
      assert Comps(p)[1..] == Comps(p[1..]);
      NamesOfComps(p[1..]);
    }
  }

  /** Where the part of `raw` before its last name leads, if that is a real directory. */
  lemma WayAlong(t: Tree, root: Path, raw: seq<Component>)
    requires WellFormed(t) && Plain(raw) && IsDir(t, root + Names(raw))
    ensures Canonical(t, Comps(root) + raw) == Ok(root + Names(raw))
  {
    NamesOfComps(root);
    NamesAppend(Comps(root), raw);
    assert [] + (root + Names(raw)) == root + Names(raw);
    WalkAlong(t, [], Comps(root) + raw, MAX_LINKS);
  }

  lemma LastTyped(raw: seq<Component>)
    requires raw != [] && raw[|raw| - 1].Normal?
    ensures Names(raw) == Names(raw[..|raw| - 1]) + [raw[|raw| - 1].name]
  {
    var init, c := raw[..|raw| - 1], raw[|raw| - 1];
    assert raw == init + [c];
    NamesOfPlain(init, c);
  }

  /** The user string has no `..` and no NUL and ends in a name. */
  ghost predicate EndsInName(user: string) {
    var segs := Split(user, '/');
    NoDotDot(segs) && '\0' !in user && segs[|segs| - 1] != "" && segs[|segs| - 1] != "."
  }

  /** Such a string is resolved below the root, by its components. */
  lemma NameReachesBelow(t: Tree, base: seq<Component>, serverId: string, user: string)
    requires EndsInName(user) && ValidServerId(serverId) && Canonical(t, base + [Normal(serverId)]).Ok?
    ensures
      var root, raw := Canonical(t, base + [Normal(serverId)]).value, Raw(user);
      var below := ResolveBelow(t, root, raw);
      && Plain(raw) && raw[|raw| - 1].Normal? && Names(raw) == Typed(Split(user, '/')) != []
      && ResolveInServer(t, base, serverId, user) == if below.Ok? then Ok((root, below.value)) else Err(below.error)
  {
    hide ResolveInServer, ResolveBelow, Canonical, HasName, Split, Typed;
    VerdictByName(t, base, serverId, user);
    TypedNames(Split(user, '/'), Raw(user));
    LastTyped(Raw(user));
  }

  lemma PlainBelow(t: Tree, root: Path, raw: seq<Component>)
    requires WellFormed(t) && Plain(raw) && raw != [] && raw[|raw| - 1].Normal?
    ensures
      var p := root + Names(raw);
      && p != []
      && (ResolveBelow(t, root, raw) == Ok(p) <==> IsDir(t, Parent(p)) && (p in t ==> !t[p].Link?))
  {
    hide ResolveBelow, Canonical, WellFormed, Comps, Names, Walk;
    LastTyped(raw);
    var init, n := raw[..|raw| - 1], raw[|raw| - 1].name;
    var d := root + Names(init);
    assert root + Names(raw) == d + [n] && root <= d && root <= d + [n];
    ParentOfChild(d, n);
    NamedPathIff(t, root, raw, d + [n]);
    if IsDir(t, d) {
      WayAlong(t, root, init);
    }
    if ResolveBelow(t, root, raw) == Ok(d + [n]) {
      ParentOfChild(Canonical(t, Comps(root) + init).value, n);
    }
  }

  /**
   * Any path without `..` that ends in a name, with whatever doubled slashes and dots:
   * it resolves to the typed names below the root exactly when those sit in a real
   * directory and are no link, whether they exist or are new.
   */
  lemma PlainPathResolves(t: Tree, base: seq<Component>, serverId: string, user: string)
    requires WellFormed(t) && ValidServerId(serverId) && Canonical(t, base + [Normal(serverId)]).Ok?
    requires EndsInName(user)
    ensures
      var root := Canonical(t, base + [Normal(serverId)]).value;
      var p := root + Typed(Split(user, '/'));
      && p != []
      && (ResolveInServer(t, base, serverId, user) == Ok((root, p))
          <==> IsDir(t, Parent(p)) && (p in t ==> !t[p].Link?))
  {
    hide ResolveInServer, ResolveBelow, Canonical, WellFormed, Raw, Names, Typed, Split, EndsInName, Plain;
    NameReachesBelow(t, base, serverId, user);
    PlainBelow(t, Canonical(t, base + [Normal(serverId)]).value, Raw(user));
  }

  /** A path to a real directory resolves to it with a trailing slash or dot as well. */
  lemma DirectoryResolves(t: Tree, base: seq<Component>, serverId: string, user: string)
    requires WellFormed(t) && ValidServerId(serverId) && Canonical(t, base + [Normal(serverId)]).Ok?
    requires NoDotDot(Split(user, '/')) && '\0' !in user
    requires IsDir(t, Canonical(t, base + [Normal(serverId)]).value + Typed(Split(user, '/')))
    ensures
      var root := Canonical(t, base + [Normal(serverId)]).value;
      ResolveInServer(t, base, serverId, user) == Ok((root, root + Typed(Split(user, '/'))))
  {
    hide ResolveInServer, Canonical, WellFormed, Comps, HasName;
    var segs, raw := Split(user, '/'), Raw(user);
    var root := Canonical(t, base + [Normal(serverId)]).value;
    var p := root + Typed(segs);
    VerdictByName(t, base, serverId, user);
    TypedNames(segs, raw);
    if Typed(segs) == [] {
      assert p == root;
    } else {
      WayAlong(t, root, raw);
      DirLstat(t, root, raw);
    }
  }

  lemma DirLstat(t: Tree, root: Path, raw: seq<Component>)
    requires WellFormed(t) && Plain(raw) && raw != [] && IsDir(t, root + Names(raw))
    ensures Lstat(t, Comps(root) + raw) == Ok(Dir)
  {
    hide Canonical;
    var target := Comps(root) + raw;
    WayAlong(t, root, raw);
    if raw[|raw| - 1].Normal? {
      LastTyped(raw);
      var init, n := raw[..|raw| - 1], raw[|raw| - 1].name;
      var d := root + Names(init);
      assert target[..|target| - 1] == Comps(root) + init && d + [n] == root + Names(raw);
      ParentOfChild(d, n);
      WayAlong(t, root, init);
    }
  }

  /** A link in final position is refused, wherever it points. */
  lemma FinalLinkRefused(t: Tree, base: seq<Component>, serverId: string, user: string)
    requires WellFormed(t) && ValidServerId(serverId) && Canonical(t, base + [Normal(serverId)]).Ok?
    requires EndsInName(user)
    requires
      var p := Canonical(t, base + [Normal(serverId)]).value + Typed(Split(user, '/'));
      p in t && t[p].Link?
    ensures ResolveInServer(t, base, serverId, user) == Err(SymlinkRefused)
  {
    hide ResolveInServer, ResolveBelow, Canonical, WellFormed, Raw, Names, Typed, Split, EndsInName, Plain;
    NameReachesBelow(t, base, serverId, user);
    LinkBelow(t, Canonical(t, base + [Normal(serverId)]).value, Raw(user));
  }

  lemma LinkBelow(t: Tree, root: Path, raw: seq<Component>)
    requires WellFormed(t) && Plain(raw) && raw != [] && raw[|raw| - 1].Normal?
    requires root + Names(raw) in t && t[root + Names(raw)].Link?
    ensures ResolveBelow(t, root, raw) == Err(SymlinkRefused)
  {
    hide Canonical, Comps, Names, Walk, SplitLast;
    LastTyped(raw);
    var init, n := raw[..|raw| - 1], raw[|raw| - 1].name;
    var d, target := root + Names(init), Comps(root) + raw;
    assert target[..|target| - 1] == Comps(root) + init && d + [n] == root + Names(raw);
    ParentOfChild(d, n);
    WayAlong(t, root, init);
  }
}
