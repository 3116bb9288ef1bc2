/**
 * Names inside a zip archive: how `zip_tree` writes a path and how the reader
 * turns the stored name back into path components.
 */
module ArchiveNames {
  import opened Prelude
  import opened FileTree
  import opened Text

  /** What the operating system guarantees of a directory entry's name. */
  predicate OsName(n: Name) {
    n != "" && n != "." && n != ".." && '/' !in n && '\0' !in n
  }

  predicate PlainName(n: Name) {
    '\\' !in n
  }

  function Slashed(s: string): (r: string)
    ensures |r| == |s|
  {
    seq(|s|, i requires 0 <= i < |s| => if s[i] == '\\' then '/' else s[i])
  }

  /** `strip_prefix(base).to_string_lossy().replace('\\', "/")` */
  function StoredName(rel: Path): string {
    Slashed(Join(rel, "/"))
  }

  /** Components of one segment list, as `Path::components` yields them after the root. */
  function SegmentComps(segs: seq<string>, first: bool): seq<Component> {
    if segs == [] then []
    else
      var rest := SegmentComps(segs[1..], false);
      if segs[0] == "" then rest
      else if segs[0] == "." then (if first then [CurDir] + rest else rest)
      else if segs[0] == ".." then [ParentDir] + rest
      else [Normal(segs[0])] + rest
  }

  /** No prefix of the components leads above the starting directory. */
  predicate StaysInside(cs: seq<Component>, depth: nat) {
    cs == [] ||
    match cs[0]
    case Normal(_) => StaysInside(cs[1..], depth + 1)
    case CurDir => StaysInside(cs[1..], depth)
    case ParentDir => depth > 0 && StaysInside(cs[1..], depth - 1)
    case RootDir => false
  }

  /** `enclosed_name` of the zip reader: `None` for absolute, escaping or NUL names. */
  function EnclosedName(name: string): Option<seq<Component>> {
    if '\0' in name || (name != "" && name[0] == '/') then None
    else
      var cs := SegmentComps(Split(name, '/'), true);
      if StaysInside(cs, 0) then Some(cs) else None
  }

  lemma {:induction false} JoinChars(rel: Path, ch: char)
    requires ch in Join(rel, "/")
    ensures ch == '/' || exists i :: 0 <= i < |rel| && ch in rel[i]
  {
    if |rel| > 1 {
      if ch in Join(rel[1..], "/") {
        JoinChars(rel[1..], ch);
        if ch != '/' {
          var i :| 0 <= i < |rel[1..]| && ch in rel[1..][i];
          assert ch in rel[i + 1];
        }
      } else if ch != '/' {
        assert ch in rel[0];
      }
    } else if |rel| == 1 {
      assert ch in rel[0];
    }
  }

  lemma PlainUnchanged(rel: Path)
    requires forall i :: 0 <= i < |rel| ==> PlainName(rel[i])
    ensures StoredName(rel) == Join(rel, "/")
  {
    var s := Join(rel, "/");
    if '\\' in s {
      JoinChars(rel, '\\');
    }
    assert Slashed(s) == s;
  }

  lemma {:induction false} NormalSegments(rel: Path, first: bool)
    requires forall i :: 0 <= i < |rel| ==> OsName(rel[i])
    ensures SegmentComps(rel, first) == Comps(rel)
    ensures SegmentComps(rel + [""], first) == Comps(rel)
  {
    if rel == [] {
      assert [""][1..] == [];
    } else {
      NormalSegments(rel[1..], false);
      assert (rel + [""])[1..] == rel[1..] + [""];
      assert [Normal(rel[0])] + Comps(rel[1..]) == Comps(rel);
    }
  }

  lemma {:induction false} NormalsStayInside(rel: Path, depth: nat)
    ensures StaysInside(Comps(rel), depth)
  {
    if rel != [] {
      assert Comps(rel)[1..] == Comps(rel[1..]);
      NormalsStayInside(rel[1..], depth + 1);
    }
  }

  lemma {:induction false} SplitTrailing(parts: seq<string>)
    requires parts != [] && forall i :: 0 <= i < |parts| ==> '/' !in parts[i]
    ensures Split(Join(parts, "/") + "/", '/') == parts + [""]
  {
    if |parts| == 1 {
      SplitFirst(parts[0], '/', "");
      assert parts[0] + "/" + "" == parts[0] + "/";
    } else {
      var tail := Join(parts[1..], "/");
      SplitFirst(parts[0], '/', tail + "/");
      assert Join(parts, "/") + "/" == parts[0] + "/" + (tail + "/");
      SplitTrailing(parts[1..]);
      assert [parts[0]] + (parts[1..] + [""]) == parts + [""];
    }
  }

  lemma {:induction false} NoBackslashOut(segs: seq<string>, first: bool)
    requires forall i :: 0 <= i < |segs| ==> PlainName(segs[i])
    ensures forall i :: 0 <= i < |SegmentComps(segs, first)| && SegmentComps(segs, first)[i].Normal? ==>
              PlainName(SegmentComps(segs, first)[i].name)
  {
    if segs != [] {
      NoBackslashOut(segs[1..], false);
    }
  }

  lemma {:induction false} SplitKeepsOut(s: string, c: char, x: char)
    requires x !in s
    ensures forall i :: 0 <= i < |Split(s, c)| ==> x !in Split(s, c)[i]
  {
    if s != "" {
      SplitKeepsOut(s[1..], c, x);
    }
  }

  lemma PlainNameReturns(rel: Path, isDir: bool)
    requires rel != [] && forall i :: 0 <= i < |rel| ==> OsName(rel[i]) && PlainName(rel[i])
    ensures EnclosedName(StoredName(rel) + if isDir then "/" else "") == Some(Comps(rel))
  {
    PlainUnchanged(rel);
    NormalSegments(rel, true);
    NormalsStayInside(rel, 0);
    StartsPlain(rel);
    if isDir {
      SplitTrailing(rel);
    } else {
      SplitJoin(rel, '/');
      assert StoredName(rel) + "" == StoredName(rel);
    }
  }

  lemma BackslashIsLost(rel: Path, i: nat, isDir: bool)
    requires i < |rel| && !PlainName(rel[i])
    ensures EnclosedName(StoredName(rel) + if isDir then "/" else "") != Some(Comps(rel))
  {
    var stored := StoredName(rel) + if isDir then "/" else "";
    assert '\\' !in stored;
    SplitKeepsOut(stored, '/', '\\');
    NoBackslashOut(Split(stored, '/'), true);
    assert Comps(rel)[i] == Normal(rel[i]);
  }

  /**
   * A stored name, of a file or (with the trailing slash) of a directory, leads
   * back to the path it came from exactly when no component has a backslash.
   */
  lemma StoredNameRoundTrip(rel: Path, isDir: bool)
    requires rel != [] && forall i :: 0 <= i < |rel| ==> OsName(rel[i])
    ensures EnclosedName(StoredName(rel) + if isDir then "/" else "") == Some(Comps(rel))
            <==> forall i :: 0 <= i < |rel| ==> PlainName(rel[i])
  {
    if forall i :: 0 <= i < |rel| ==> PlainName(rel[i]) {
      PlainNameReturns(rel, isDir);
    } else {
      var i :| 0 <= i < |rel| && !PlainName(rel[i]);
      BackslashIsLost(rel, i, isDir);
    }
  }

  lemma StartsPlain(rel: Path)
    requires rel != [] && forall i :: 0 <= i < |rel| ==> OsName(rel[i])
    ensures var s := Join(rel, "/"); s != "" && s[0] != '/' && '\0' !in s && s[|s| - 1] != '/'
  {
    var s := Join(rel, "/");
    assert s[0] == rel[0][0];
    if '\0' in s {
      JoinChars(rel, '\0');
    }
    LastChar(rel);
  }

  lemma {:induction false} LastChar(rel: Path)
    requires rel != [] && forall i :: 0 <= i < |rel| ==> OsName(rel[i])
    ensures var s := Join(rel, "/"); s != "" && s[|s| - 1] != '/'
  {
    if |rel| > 1 {
      LastChar(rel[1..]);
    }
  }
}
