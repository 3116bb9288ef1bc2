/** The rclone session: validated options rendered to a config file, read back and diffed; remote object paths. */
module Rclone {
  import opened Prelude
  import opened Text

  const REMOTE_NAME: string := "tp"
  const ALLOWED_BACKENDS: seq<string> := ["onedrive", "drive", "dropbox", "s3", "b2", "sftp", "webdav"]
  const WRITE_BACK_KEYS: set<string> := {"token", "drive_id", "drive_type"}
  const MAX_VALUE_LEN: nat := 16 * 1024

  type Options = map<string, string>

  // ----- validation -----

  predicate IsLower(c: char) { 'a' <= c <= 'z' }
  predicate IsDigit(c: char) { '0' <= c <= '9' }
  predicate IsAlnum(c: char) { IsLower(c) || IsDigit(c) || 'A' <= c <= 'Z' }

  predicate EndsWith(s: string, t: string) {
    |t| <= |s| && s[|s| - |t|..] == t
  }

  /** Length in UTF-8 bytes. */
  function Utf8Len(s: string): nat {
    if s == "" then 0
    else
      var n := s[0] as int;
      (if n < 0x80 then 1 else if n < 0x800 then 2 else if n < 0x10000 then 3 else 4) + Utf8Len(s[1..])
  }

  predicate ValidOptionKey(key: string) {
    && key != "" && IsLower(key[0]) && |key| <= 64
    && (forall i :: 0 <= i < |key| ==> IsLower(key[i]) || IsDigit(key[i]) || key[i] == '_')
    && key != "type" && key != "ssh"
    && !EndsWith(key, "_command") && !EndsWith(key, "_file") && !("config_" <= key)
  }

  predicate ValidOptionValue(value: string) {
    Utf8Len(value) <= MAX_VALUE_LEN && '\r' !in value && '\n' !in value && '\0' !in value
  }

  predicate ForbiddenInPath(c: char) {
    IsControl(c) || c in "\\:*?\"<>|"
  }

  predicate ValidSegment(seg: string) {
    && seg != "" && seg != "." && seg != ".." && seg[0] != '-' && Trim(seg) == seg
    && forall i :: 0 <= i < |seg| ==> !ForbiddenInPath(seg[i])
  }

  /** `p` without one optional leading slash. */
  function Relative(p: string): string {
    if p != "" && p[0] == '/' then p[1..] else p
  }

  predicate ValidBasePath(p: string) {
    && p != "" && Utf8Len(p) <= 512
    && (var segs := Split(Relative(p), '/'); forall i :: 0 <= i < |segs| ==> ValidSegment(segs[i]))
  }

  predicate ValidNameComponent(name: string) {
    && name != "" && |name| <= 128 && name[0] != '-' && name[0] != '.'
    && (forall i :: 0 <= i < |name| ==> IsAlnum(name[i]) || name[i] == '-' || name[i] == '_' || name[i] == '.')
    && forall i :: 0 <= i < |name| - 1 ==> !(name[i] == '.' && name[i + 1] == '.')
  }

  predicate ValidSpec(backend: string, options: Options, obscure: seq<string>, basePath: string) {
    && backend in ALLOWED_BACKENDS
    && (forall k :: k in options ==> ValidOptionKey(k) && ValidOptionValue(options[k]))
    && (forall i :: 0 <= i < |obscure| ==> ValidOptionKey(obscure[i]))
    && ValidBasePath(basePath)
  }

  // ----- the same, said as what is accepted -----

  /**
   * The accepted option keys: lower-case identifiers of at most 64 characters that do
   * not name the backend and do not make rclone run a command, read a local file or
   * look at its own configuration.
   */
  lemma OptionKeyIff(key: string)
    ensures ValidOptionKey(key) <==>
            && 1 <= |key| <= 64 && 'a' <= key[0] <= 'z'
            && (forall c :: c in key ==> 'a' <= c <= 'z' || '0' <= c <= '9' || c == '_')
            && key != "type" && key != "ssh"
            && !(exists a: string :: key == a + "_command") && !(exists a: string :: key == a + "_file")
            && !(exists a: string :: key == "config_" + a)
  {
    hide EndsWith;
    KeyCharsIff(key);
    EndsWithIff(key, "_command");
    EndsWithIff(key, "_file");
    if "config_" <= key {
      assert key == "config_" + key[7..];
    }
  }

  lemma KeyCharsIff(key: string)
    ensures (forall c :: c in key ==> 'a' <= c <= 'z' || '0' <= c <= '9' || c == '_') <==>
            (forall i :: 0 <= i < |key| ==> IsLower(key[i]) || IsDigit(key[i]) || key[i] == '_')
  {
    assert forall i :: 0 <= i < |key| ==> key[i] in key;
  }

  lemma EndsWithIff(s: string, t: string)
    ensures EndsWith(s, t) <==> exists a: string :: s == a + t
  {
    if EndsWith(s, t) {
      assert s == s[..|s| - |t|] + t;
    }
    if a: string :| s == a + t {
      assert s[|s| - |t|..] == t;
    }
  }

  /** A folder name that means the same on every backend. */
  ghost predicate SafeSegment(seg: string) {
    && seg != "" && seg != "." && seg != ".." && seg[0] != '-'
    && !IsSpace(seg[0]) && !IsSpace(seg[|seg| - 1])
    && forall c :: c in seg ==>
         && !IsControl(c) && c != '/' && c != '\\' && c != ':' && c != '*' && c != '?' && c != '"'
         && c != '<' && c != '>' && c != '|'
  }

  lemma SegmentIff(seg: string)
    requires '/' !in seg
    ensures ValidSegment(seg) <==> SafeSegment(seg)
  {
    hide Trim, IsSpace;
    TrimIff(seg, seg);
    if seg != "" && !IsSpace(seg[0]) && !IsSpace(seg[|seg| - 1]) {
      assert AllSpace("") && seg == "" + seg + "";
    }
  }

  /**
   * The accepted base paths: safe segments with slashes between them and perhaps
   * one in front, of at most 512 bytes.
   */
  lemma BasePathIff(p: string)
    ensures ValidBasePath(p) <==>
            && Utf8Len(p) <= 512
            && exists segs: seq<string> ::
                 && segs != [] && (forall i :: 0 <= i < |segs| ==> SafeSegment(segs[i]))
                 && (p == Join(segs, "/") || p == "/" + Join(segs, "/"))
  {
    hide SafeSegment, ValidSegment, Split, Join;
    PiecesFree(Relative(p), '/');
    JoinSplit(Relative(p), '/');
    var pieces := Split(Relative(p), '/');
    forall i | 0 <= i < |pieces| ensures ValidSegment(pieces[i]) <==> SafeSegment(pieces[i]) {
      SegmentIff(pieces[i]);
    }
    assert p == Relative(p) || p == "/" + Relative(p);
    if segs: seq<string> :| segs != [] && (forall i :: 0 <= i < |segs| ==> SafeSegment(segs[i]))
                            && (p == Join(segs, "/") || p == "/" + Join(segs, "/")) {
      SafeJoin(segs);
      assert ("/" + Join(segs, "/"))[1..] == Join(segs, "/");
    }
  }

  lemma SafeJoin(segs: seq<string>)
    requires segs != [] && forall i :: 0 <= i < |segs| ==> SafeSegment(segs[i])
    ensures Join(segs, "/") != "" && Join(segs, "/")[0] != '/' && Split(Join(segs, "/"), '/') == segs
  {
    forall i | 0 <= i < |segs| ensures '/' !in segs[i] {
    }
    SplitJoin(segs, '/');
    assert Join(segs, "/")[0] == segs[0][0];
  }

  /**
   * The accepted generated names: 1 to 128 letters, digits, dashes, underscores and
   * dots, neither hidden nor an option.
   */
  lemma NameComponentIff(name: string)
    ensures ValidNameComponent(name) <==>
            && 1 <= |name| <= 128 && name[0] != '-' && name[0] != '.'
            && (forall c :: c in name ==>
                  || 'a' <= c <= 'z' || 'A' <= c <= 'Z' || '0' <= c <= '9' || c == '-' || c == '_' || c == '.')
            && !exists a: string, b: string :: name == a + ".." + b
  {
    assert forall i :: 0 <= i < |name| ==> name[i] in name;
    if a: string, b: string :| name == a + ".." + b {
      assert name[|a|] == '.' && name[|a| + 1] == '.';
    }
    if i :| 0 <= i < |name| - 1 && name[i] == '.' && name[i + 1] == '.' {
      assert name == name[..i] + ".." + name[i + 2..];
    }
  }

  /**
   * The accepted specs: one of seven backends, accepted keys, one-line values of at
   * most 16 KiB, an accepted base path.
   */
  lemma SpecIff(backend: string, options: Options, obscure: seq<string>, basePath: string)
    ensures ValidSpec(backend, options, obscure, basePath) <==>
            && (|| backend == "onedrive" || backend == "drive" || backend == "dropbox" || backend == "s3"
                || backend == "b2" || backend == "sftp" || backend == "webdav")
            && (forall k :: k in options ==>
                  && ValidOptionKey(k) && Utf8Len(options[k]) <= 16384
                  && forall c :: c in options[k] ==> c != '\r' && c != '\n' && c != '\0')
            && (forall k :: k in obscure ==> ValidOptionKey(k)) && ValidBasePath(basePath)
  {
    hide ValidOptionKey, ValidBasePath;
    assert backend in ALLOWED_BACKENDS <==>
           || backend == "onedrive" || backend == "drive" || backend == "dropbox" || backend == "s3"
           || backend == "b2" || backend == "sftp" || backend == "webdav";
  }

  /** An object path is handed out exactly for accepted parts, and is these parts with slashes between them. */
  lemma ObjectPathIff(base: string, serverId: string, fileName: string)
    ensures
      var r := RemoteObjectPath(base, serverId, fileName);
      && (r.Some? <==> ValidBasePath(base) && ValidNameComponent(serverId) && ValidNameComponent(fileName))
      && (r.Some? ==> r.value == base + "/" + serverId + "/" + fileName)
  {
    if ValidBasePath(base) {
      NoTrailingSlash(base);
    }
  }

  // ----- remote object paths -----

  function TrimEndSlashes(s: string): string {
    if s != "" && s[|s| - 1] == '/' then TrimEndSlashes(s[..|s| - 1]) else s
  }

  function RemoteObjectPath(base: string, serverId: string, fileName: string): Option<string> {
    if ValidBasePath(base) && ValidNameComponent(serverId) && ValidNameComponent(fileName)
    then Some(TrimEndSlashes(base) + "/" + serverId + "/" + fileName)
    else None
  }

  lemma TrailingSlashLeavesEmptySegment(rel: string)
    requires rel == "" || rel[|rel| - 1] == '/'
    ensures exists i :: 0 <= i < |Split(rel, '/')| && Split(rel, '/')[i] == ""
  {
    if rel == "" {
      assert Split(rel, '/')[0] == "";
    } else {
      var a := rel[..|rel| - 1];
      assert rel == a + "/" + "";
      SplitAppend(a, "", '/');
      assert Split(rel, '/')[|Split(a, '/')|] == "";
    }
  }

  lemma NoTrailingSlash(base: string)
    requires ValidBasePath(base)
    ensures TrimEndSlashes(base) == base
  {
    var rel := Relative(base);
    if rel == "" || rel[|rel| - 1] == '/' {
      TrailingSlashLeavesEmptySegment(rel);
    }
  }

  lemma NameHasNoSlash(name: string)
    requires ValidNameComponent(name)
    ensures '/' !in name && Split(name, '/') == [name]
  {
    SplitNone(name, '/');
  }

  lemma ObjectPathParts(prefix: string, serverId: string, fileName: string)
    requires ValidNameComponent(serverId) && ValidNameComponent(fileName)
    ensures Split(prefix + "/" + serverId + "/" + fileName, '/') == Split(prefix, '/') + [serverId, fileName]
  {
    NameHasNoSlash(serverId);
    NameHasNoSlash(fileName);
    SplitAppend(prefix, serverId, '/');
    SplitAppend(prefix + "/" + serverId, fileName, '/');
  }

  /** Different backups never share an object path. */
  lemma ObjectPathInjective(b1: string, s1: string, f1: string, b2: string, s2: string, f2: string)
    requires RemoteObjectPath(b1, s1, f1).Some? && RemoteObjectPath(b1, s1, f1) == RemoteObjectPath(b2, s2, f2)
    ensures b1 == b2 && s1 == s2 && f1 == f2
  {
    NoTrailingSlash(b1);
    NoTrailingSlash(b2);
    ObjectPathParts(b1, s1, f1);
    ObjectPathParts(b2, s2, f2);
    var x, y := Split(b1, '/') + [s1, f1], Split(b2, '/') + [s2, f2];
    assert x == y;
    assert |Split(b1, '/')| == |Split(b2, '/')|;
    assert x[..|Split(b1, '/')|] == Split(b1, '/') && y[..|Split(b2, '/')|] == Split(b2, '/');
    assert x[|Split(b1, '/')|] == s1 && x[|Split(b1, '/')| + 1] == f1;
    assert y[|Split(b2, '/')|] == s2 && y[|Split(b2, '/')| + 1] == f2;
    JoinSplit(b1, '/');
    JoinSplit(b2, '/');
  }

  /** An accepted object path has no segment that is empty, `.`, `..` or starts with a dash. */
  lemma ObjectPathSegments(base: string, serverId: string, fileName: string)
    requires RemoteObjectPath(base, serverId, fileName).Some?
    ensures
      var segs := Split(Relative(RemoteObjectPath(base, serverId, fileName).value), '/');
      && segs == Split(Relative(base), '/') + [serverId, fileName]
      && forall i :: 0 <= i < |segs| ==> segs[i] != "" && segs[i] != "." && segs[i] != ".." && segs[i][0] != '-'
  {
    NoTrailingSlash(base);
    var p := base + "/" + serverId + "/" + fileName;
    assert Relative(p) == Relative(base) + "/" + serverId + "/" + fileName;
    ObjectPathParts(Relative(base), serverId, fileName);
  }

  // ----- the config file -----

  function Line(key: string, value: string): string {
    key + " = " + value
  }

  ghost function RenderLines(keys: seq<string>, options: Options): string
    requires forall i :: 0 <= i < |keys| ==> keys[i] in options
  {
    if keys == [] then "" else Line(keys[0], options[keys[0]]) + "\n" + RenderLines(keys[1..], options)
  }

  ghost function Render(backend: string, keys: seq<string>, options: Options): string
    requires forall i :: 0 <= i < |keys| ==> keys[i] in options
  {
    "[" + REMOTE_NAME + "]\n" + Line("type", backend) + "\n" + RenderLines(keys, options)
  }

  /** `keys` goes through the options once each, as iterating the map does. */
  ghost predicate Enumerates(keys: seq<string>, options: Options) {
    && (forall k :: k in keys <==> k in options)
    && forall i, j :: 0 <= i < j < |keys| ==> keys[i] != keys[j]
  }

  lemma {:induction false} RenderLinesSnoc(keys: seq<string>, k: string, options: Options)
    requires k in options && forall i :: 0 <= i < |keys| ==> keys[i] in options
    ensures RenderLines(keys + [k], options) == RenderLines(keys, options) + Line(k, options[k]) + "\n"
  {
    if keys == [] {
      assert [k][1..] == [];
      assert Line(k, options[k]) + "\n" + "" == "" + Line(k, options[k]) + "\n";
    } else {
      RenderLinesSnoc(keys[1..], k, options);
      assert (keys + [k])[1..] == keys[1..] + [k];
      var first := Line(keys[0], options[keys[0]]) + "\n";
      assert first + (RenderLines(keys[1..], options) + Line(k, options[k]) + "\n")
          == first + RenderLines(keys[1..], options) + Line(k, options[k]) + "\n";
    }
  }

  method RenderConfig(backend: string, keys: seq<string>, options: Options) returns (out: string)
    requires forall i :: 0 <= i < |keys| ==> keys[i] in options
    ensures out == Render(backend, keys, options)
  {
    var head := "[" + REMOTE_NAME + "]\n" + "type = " + backend + "\n";
    out := head;
    var i := 0;
    while i < |keys|
      invariant 0 <= i <= |keys|
      invariant out == head + RenderLines(keys[..i], options)
    {
      assert keys[..i + 1] == keys[..i] + [keys[i]];
      RenderLinesSnoc(keys[..i], keys[i], options);
      out := out + keys[i];
      out := out + " = ";
      out := out + options[keys[i]];
      out := out + "\n";
      i := i + 1;
    }
    assert keys[..|keys|] == keys;
    assert head == "[" + REMOTE_NAME + "]\n" + Line("type", backend) + "\n";
  }

  function StripCr(line: string): string {
    if line != "" && line[|line| - 1] == '\r' then line[..|line| - 1] else line
  }

  /** `str::lines`: a final newline ends the last line instead of starting an empty one. */
  function Lines(text: string): seq<string> {
    var ls := Split(text, '\n');
    var kept := if ls[|ls| - 1] == "" then ls[..|ls| - 1] else ls;
    seq(|kept|, i requires 0 <= i < |kept| => StripCr(kept[i]))
  }

  datatype Parsed = Parsed(out: Options, inSection: bool)

  /** One line of the file, already trimmed. */
  function ParseLine(st: Parsed, line: string): Parsed {
    if line != "" && line[0] == '[' && line[|line| - 1] == ']' then
      st.(inSection := |line| >= 2 && line[1..|line| - 1] == REMOTE_NAME)
    else if !st.inSection || line == "" || line[0] == '#' || line[0] == ';' then st
    else
      IndexOfIs(line, '=');
      var i := IndexOf(line, '=');
      if i == -1 then st else st.(out := st.out[Trim(line[..i]) := Trim(line[i + 1..])])
  }

  function ParseLines(st: Parsed, lines: seq<string>): Parsed
    decreases |lines|
  {
    if lines == [] then st else ParseLines(ParseLine(st, Trim(lines[0])), lines[1..])
  }

  function ParseText(text: string): Options {
    ParseLines(Parsed(map[], false), Lines(text)).out
  }

  method ParseConfigSection(text: string) returns (out: Options)
    ensures out == ParseText(text)
  {
    hide Trim, IndexOf, Lines;
    out := map[];
    var inSection := false;
    var lines := Lines(text);
    var i := 0;
    assert lines[0..] == lines;
    while i < |lines|
      invariant 0 <= i <= |lines|
      invariant ParseText(text) == ParseLines(Parsed(out, inSection), lines[i..]).out
    {
      assert lines[i..][0] == lines[i] && lines[i..][1..] == lines[i + 1..];
      var line := Trim(lines[i]);
      i := i + 1;
      if line != "" && line[0] == '[' && line[|line| - 1] == ']' {
        inSection := |line| >= 2 && line[1..|line| - 1] == REMOTE_NAME;
        continue;
      }
      if !inSection || line == "" || line[0] == '#' || line[0] == ';' {
        continue;
      }
      IndexOfIs(line, '=');
      var at := IndexOf(line, '=');
      if at != -1 {
        out := out[Trim(line[..at]) := Trim(line[at + 1..])];
      }
    }
  }

  // ----- what a file says, whoever wrote it -----

  ghost predicate IsHeader(t: string) {
    exists name: string :: t == "[" + name + "]"
  }

  /** A trimmed line that gives `k` the value `v`: not a header, not a comment, split at its first equals sign. */
  ghost predicate Gives(t: string, k: string, v: string) {
    && !IsHeader(t) && t != "" && t[0] != '#' && t[0] != ';'
    && exists a: string, b: string :: t == a + "=" + b && '=' !in a && k == Trim(a) && v == Trim(b)
  }

  /** Line `n` is in a section headed `[tp]`: that is the last header before it. */
  ghost predicate InRemote(lines: seq<string>, n: nat) {
    n <= |lines| && exists h :: 0 <= h < n && Trim(lines[h]) == "[tp]" && forall i :: h < i < n ==>
          !IsHeader(Trim(lines[i]))
  }

  /** Line `i` is one of the remote's and gives `k` the value `v`. */
  ghost predicate EntryAt(lines: seq<string>, i: nat, k: string, v: string) {
    i < |lines| && InRemote(lines, i) && Gives(Trim(lines[i]), k, v)
  }

  lemma HeaderIff(t: string)
    ensures IsHeader(t) <==> t != "" && t[0] == '[' && t[|t| - 1] == ']'
    ensures t == "[tp]" <==> IsHeader(t) && |t| >= 2 && t[1..|t| - 1] == REMOTE_NAME
  {
    if t != "" && t[0] == '[' && t[|t| - 1] == ']' {
      assert t == "[" + t[1..|t| - 1] + "]";
    }
    if IsHeader(t) {
      var name: string :| t == "[" + name + "]";
      assert t[1..|t| - 1] == name && t[0] == '[' && t[|t| - 1] == ']';
    }
  }

  lemma GivesIff(t: string, k: string, v: string)
    ensures Gives(t, k, v) <==>
            && !IsHeader(t) && t != "" && t[0] != '#' && t[0] != ';'
            && var i := IndexOf(t, '='); 0 <= i < |t| && k == Trim(t[..i]) && v == Trim(t[i + 1..])
  {
    hide IsHeader, Trim, IndexOf;
    IndexOfIs(t, '=');
    var i := IndexOf(t, '=');
    if 0 <= i < |t| {
      assert t == t[..i] + "=" + t[i + 1..];
    }
    if a: string, b: string :| t == a + "=" + b && '=' !in a && k == Trim(a) && v == Trim(b) {
      assert t[|a|] == '=' && t[..|a|] == a && t[|a| + 1..] == b;
      IndexOfAt(t, '=', |a|);
    }
  }

  /**
   * What one trimmed line does: a header opens or closes the section, an entry in
   * it is taken over, the rest is ignored.
   */
  lemma LineMeans(st: Parsed, t: string)
    ensures IsHeader(t) ==> ParseLine(st, t) == st.(inSection := t == "[tp]")
    ensures !IsHeader(t) && !st.inSection ==> ParseLine(st, t) == st
    ensures !IsHeader(t) && st.inSection ==>
              && (forall k, v :: Gives(t, k, v) ==> ParseLine(st, t) == st.(out := st.out[k := v]))
              && ((forall k, v :: !Gives(t, k, v)) ==> ParseLine(st, t) == st)
  {
    hide Trim, IndexOf, Gives, IsHeader;
    HeaderIff(t);
    IndexOfIs(t, '=');
    var i := IndexOf(t, '=');
    if !IsHeader(t) && st.inSection {
      if t != "" && t[0] != '#' && t[0] != ';' && i != -1 {
        var k0, v0 := Trim(t[..i]), Trim(t[i + 1..]);
        GivesIff(t, k0, v0);
        assert ParseLine(st, t) == st.(out := st.out[k0 := v0]);
        forall k, v | Gives(t, k, v) ensures k == k0 && v == v0 {
          GivesIff(t, k, v);
        }
      } else {
        forall k, v ensures !Gives(t, k, v) {
          GivesIff(t, k, v);
        }
      }
    }
  }

  lemma {:induction false} ParseLinesSnoc(st: Parsed, lines: seq<string>, line: string)
    ensures ParseLines(st, lines + [line]) == ParseLine(ParseLines(st, lines), Trim(line))
    decreases |lines|
  {
    if lines == [] {
      assert lines + [line] == [line] && [line][1..] == [];
    } else {
      assert (lines + [line])[1..] == lines[1..] + [line] && (lines + [line])[0] == lines[0];
      ParseLinesSnoc(ParseLine(st, Trim(lines[0])), lines[1..], line);
    }
  }

  lemma InRemoteNext(lines: seq<string>, n: nat)
    requires n < |lines|
    ensures InRemote(lines, n + 1) <==>
            if IsHeader(Trim(lines[n])) then Trim(lines[n]) == "[tp]" else InRemote(lines, n)
  {
    hide Trim;
    var t := Trim(lines[n]);
    assert t == "[tp]" ==> IsHeader(t) by {
      assert "[tp]" == "[" + "tp" + "]";
    }
    if t == "[tp]" {
      assert InRemote(lines, n + 1);
    }
    if !IsHeader(t) && InRemote(lines, n) {
      var h :| 0 <= h < n && Trim(lines[h]) == "[tp]" && forall i :: h < i < n ==> !IsHeader(Trim(lines[i]));
      assert forall i :: h < i < n + 1 ==> !IsHeader(Trim(lines[i]));
    }
  }

  /** The value of `k` is given by line `i` and by no later one. */
  ghost predicate LastGiven(lines: seq<string>, n: nat, k: string, v: string, i: nat) {
    i < n && EntryAt(lines, i, k, v) && forall j: nat, w :: i < j < n ==> !EntryAt(lines, j, k, w)
  }

  /** After `n` lines: whether the next one is the remote's, and what each key stands for. */
  lemma {:induction false} ParseMeans(lines: seq<string>, n: nat, k: string)
    requires n <= |lines|
    ensures
      var st := ParseLines(Parsed(map[], false), lines[..n]);
      && (st.inSection <==> InRemote(lines, n))
      && (k in st.out <==> exists i: nat, v :: LastGiven(lines, n, k, v, i))
      && (k in st.out ==> exists i: nat :: LastGiven(lines, n, k, st.out[k], i))
  {
    hide Trim, Gives, IsHeader, InRemote;
    if n == 0 {
      assert lines[..0] == [];
      assert !InRemote(lines, 0) by {
        EmptyRemote(lines);
      }
    } else {
      var m, t := n - 1, Trim(lines[n - 1]);
      var st := ParseLines(Parsed(map[], false), lines[..m]);
      assert lines[..n] == lines[..m] + [lines[m]];
      ParseMeans(lines, m, k);
      ParseLinesSnoc(Parsed(map[], false), lines[..m], lines[m]);
      LineMeans(st, t);
      InRemoteNext(lines, m);
      GivenNext(lines, m, n, k, st, ParseLine(st, t));
    }
  }

  lemma EmptyRemote(lines: seq<string>)
    ensures !InRemote(lines, 0)
  {}

  lemma GivenNext(lines: seq<string>, m: nat, n: nat, k: string, st: Parsed, st': Parsed)
    requires m < |lines| && n == m + 1 && st' == ParseLine(st, Trim(lines[m])) && (st.inSection <==> InRemote(lines, m))
    requires k in st.out <==> exists i: nat, v :: LastGiven(lines, m, k, v, i)
    requires k in st.out ==> exists i: nat :: LastGiven(lines, m, k, st.out[k], i)
    ensures k in st'.out <==> exists i: nat, v :: LastGiven(lines, n, k, v, i)
    ensures k in st'.out ==> exists i: nat :: LastGiven(lines, n, k, st'.out[k], i)
  {
    hide Trim, IsHeader, InRemote, ParseLine, Gives;
    var t := Trim(lines[m]);
    LineMeans(st, t);
    HeaderGives(t);
    if w :| EntryAt(lines, m, k, w) {
      assert LastGiven(lines, n, k, w, m);
    } else {
      assert k in st'.out <==> k in st.out by {
        if st.inSection && !IsHeader(t) && exists k', v :: Gives(t, k', v) {
          var k', v :| Gives(t, k', v);
          assert st' == st.(out := st.out[k' := v]);
          assert k' == k ==> EntryAt(lines, m, k, v);
        }
      }
      assert k in st'.out ==> st'.out[k] == st.out[k] by {
        if st.inSection && !IsHeader(t) && exists k', v :: Gives(t, k', v) {
          var k', v :| Gives(t, k', v);
          assert st' == st.(out := st.out[k' := v]);
          assert k' == k ==> EntryAt(lines, m, k, v);
        }
      }
      forall i: nat, v ensures LastGiven(lines, n, k, v, i) <==> LastGiven(lines, m, k, v, i) {
      }
    }
  }

  lemma HeaderGives(t: string)
    ensures IsHeader(t) ==> forall k, v :: !Gives(t, k, v)
  {}

  /**
   * What reading any file yields, whoever wrote it: a key has a value exactly if some
   * line of the remote's section gives it one, and it has the last such value. Other
   * sections, comments and lines without an equals sign say nothing.
   */
  lemma FileMeans(text: string, k: string)
    ensures
      var lines, out := Lines(text), ParseText(text);
      && (k in out <==> exists i: nat, v :: LastGiven(lines, |lines|, k, v, i))
      && (k in out ==> exists i: nat :: LastGiven(lines, |lines|, k, out[k], i))
  {
    hide LastGiven, Lines;
    assert Lines(text)[..|Lines(text)|] == Lines(text);
    ParseMeans(Lines(text), |Lines(text)|, k);
  }

  // ----- reading back what was rendered -----

  /** A key as it appears in a rendered line: letters, digits and underscores, starting with a letter. */
  predicate KeyLike(k: string) {
    k != "" && IsLower(k[0]) && forall i :: 0 <= i < |k| ==> IsLower(k[i]) || IsDigit(k[i]) || k[i] == '_'
  }

  predicate OneLine(v: string) {
    '\n' !in v && '\r' !in v
  }

  /** Trimming `key = value` trims the value and cannot reach the key. */
  lemma TrimmedLine(k: string, v: string)
    requires KeyLike(k)
    ensures Trim(Line(k, v)) == k + " =" + TrimRight(" " + v)
  {
    var a, b := k + " =", " " + v;
    assert Line(k, v) == a + b;
    TrimRightAppend(a, b);
    assert a[|a| - 1] == '=';
    assert TrimLeft(Line(k, v)) == Line(k, v);
    if TrimRight(b) == "" {
      assert a == a + TrimRight(b);
    }
  }

  /** ... and what is left of the value is the value trimmed. */
  lemma TrimmedValue(v: string)
    ensures Trim(TrimRight(" " + v)) == Trim(v)
  {
    var s := " " + v;
    TrimCommutes(s);
    assert s[1..] == v;
    assert TrimLeft(s) == TrimLeft(v);
    TrimRightEnds(TrimLeft(v));
  }

  lemma TrimmedKey(k: string)
    requires KeyLike(k)
    ensures Trim(k + " ") == k
  {
    assert TrimLeft(k + " ") == k + " ";
    TrimRightAppend(k, " ");
    assert " "[..0] == "";
    assert TrimRight(" ") == TrimRight(" "[..0]) == "";
    assert TrimRight(k) == k;
  }

  lemma RenderedLineParses(st: Parsed, k: string, v: string)
    requires KeyLike(k) && st.inSection
    ensures ParseLine(st, Trim(Line(k, v))) == st.(out := st.out[k := Trim(v)])
  {
    var line := Trim(Line(k, v));
    var rest := TrimRight(" " + v);
    TrimmedLine(k, v);
    assert line[0] == k[0];
    var i := |k| + 1;
    assert line[i] == '=' && line[..i] == k + " " && line[i + 1..] == rest;
    assert '=' !in line[..i];
    IndexOfAt(line, '=', i);
    TrimmedValue(v);
    TrimmedKey(k);
  }

  ghost function LineSeq(keys: seq<string>, options: Options): (r: seq<string>)
    requires forall i :: 0 <= i < |keys| ==> keys[i] in options
  {
    seq(|keys|, i requires 0 <= i < |keys| => Line(keys[i], options[keys[i]]))
  }

  lemma {:induction false} SplitRendered(keys: seq<string>, options: Options)
    requires forall i :: 0 <= i < |keys| ==> keys[i] in options && KeyLike(keys[i]) && OneLine(options[keys[i]])
    ensures Split(RenderLines(keys, options), '\n') == LineSeq(keys, options) + [""]
  {
    if keys != [] {
      SplitRendered(keys[1..], options);
      SplitFirst(Line(keys[0], options[keys[0]]), '\n', RenderLines(keys[1..], options));
      assert LineSeq(keys, options) == [Line(keys[0], options[keys[0]])] + LineSeq(keys[1..], options);
    }
  }

  lemma NoCrLine(k: string, v: string)
    requires KeyLike(k) && OneLine(v)
    ensures StripCr(Line(k, v)) == Line(k, v)
  {
    var s := Line(k, v);
    if v != "" {
      assert s[|s| - 1] == v[|v| - 1];
    }
  }

  lemma SplitRender(backend: string, keys: seq<string>, options: Options)
    requires OneLine(backend)
    requires forall i :: 0 <= i < |keys| ==> keys[i] in options && KeyLike(keys[i]) && OneLine(options[keys[i]])
    ensures Split(Render(backend, keys, options), '\n') ==
            ["[tp]", Line("type", backend)] + LineSeq(keys, options) + [""]
  {
    hide LineSeq, RenderLines;
    var rest := RenderLines(keys, options);
    var second := Line("type", backend) + "\n" + rest;
    SplitRendered(keys, options);
    SplitFirst(Line("type", backend), '\n', rest);
    SplitFirst("[tp]", '\n', second);
    assert Render(backend, keys, options) == "[tp]" + "\n" + second;
  }

  lemma LinesOfRender(backend: string, keys: seq<string>, options: Options)
    requires OneLine(backend)
    requires forall i :: 0 <= i < |keys| ==> keys[i] in options && KeyLike(keys[i]) && OneLine(options[keys[i]])
    ensures Lines(Render(backend, keys, options)) == ["[tp]", Line("type", backend)] + LineSeq(keys, options)
  {
    hide Render, Line, KeyLike, Split, StripCr;
    SplitRender(backend, keys, options);
    var all := ["[tp]", Line("type", backend)] + LineSeq(keys, options);
    assert (all + [""])[..|all|] == all;
    TypeIsKeyLike();
    NoCrLine("type", backend);
    StripCrHeader();
    forall i | 0 <= i < |all| ensures StripCr(all[i]) == all[i] {
      if i >= 2 {
        NoCrLine(keys[i - 2], options[keys[i - 2]]);
      }
    }
  }

  lemma TypeIsKeyLike()
    ensures KeyLike("type")
  {}

  lemma StripCrHeader()
    ensures StripCr("[tp]") == "[tp]"
  {}

  lemma {:induction false} ParseRendered(st: Parsed, keys: seq<string>, options: Options)
    requires st.inSection
    requires forall i :: 0 <= i < |keys| ==> keys[i] in options && KeyLike(keys[i])
    requires forall i, j :: 0 <= i < j < |keys| ==> keys[i] != keys[j]
    ensures
      var r := ParseLines(st, LineSeq(keys, options));
      && r.inSection
      && (forall k :: k in keys ==> k in r.out && r.out[k] == Trim(options[k]))
      && (forall k :: k !in keys ==> (k in r.out <==> k in st.out) && (k in st.out ==> r.out[k] == st.out[k]))
    decreases |keys|
  {
    hide ParseLine, Trim, Line;
    if keys != [] {
      var k := keys[0];
      var lines := LineSeq(keys, options);
      RenderedLineParses(st, k, options[k]);
      assert lines[1..] == LineSeq(keys[1..], options) && lines[0] == Line(k, options[k]);
      ParseRendered(st.(out := st.out[k := Trim(options[k])]), keys[1..], options);
      assert forall x :: x in keys <==> x == k || x in keys[1..];
    }
  }

  /** The options with trimmed values, plus the backend under `type`. */
  ghost function ReadBack(backend: string, options: Options): Options {
    (map k | k in options :: Trim(options[k]))["type" := Trim(backend)]
  }

  /** Whatever the order of the options, reading a rendered file gives them back up to trimming. */
  lemma ParseOfRender(backend: string, keys: seq<string>, options: Options)
    requires OneLine(backend) && Enumerates(keys, options) && "type" !in options
    requires forall k :: k in options ==> KeyLike(k) && OneLine(options[k])
    ensures ParseText(Render(backend, keys, options)) == ReadBack(backend, options)
  {
    hide ParseLine, Trim, Lines, Render, KeyLike, OneLine;
    assert forall i :: 0 <= i < |keys| ==> keys[i] in keys;
    LinesOfRender(backend, keys, options);
    HeaderParses(backend, LineSeq(keys, options));
    ParseRendered(Parsed(map["type" := Trim(backend)], true), keys, options);
    var r := ParseText(Render(backend, keys, options));
    assert forall k :: k in keys <==> k in options;
    assert r.Keys == ReadBack(backend, options).Keys;
  }

  /** The section header and the `type` line. */
  lemma HeaderParses(backend: string, rest: seq<string>)
    ensures ParseLines(Parsed(map[], false), ["[tp]", Line("type", backend)] + rest)
         == ParseLines(Parsed(map["type" := Trim(backend)], true), rest)
  {
    var lines := ["[tp]", Line("type", backend)] + rest;
    TrimWord("[tp]");
    assert "[tp]"[1..3] == "tp";
    var st1 := Parsed(map[], true);
    assert ParseLine(Parsed(map[], false), "[tp]") == st1;
    RenderedLineParses(st1, "type", backend);
    assert lines[1..] == [Line("type", backend)] + rest && lines[1..][1..] == rest;
    assert ParseLines(st1, lines[1..]) == ParseLines(ParseLine(st1, Trim(Line("type", backend))), rest);
  }

  lemma BackendIsWord(backend: string)
    requires backend in ALLOWED_BACKENDS
    ensures OneLine(backend) && Trim(backend) == backend
  {
    assert NoSpace(backend);
    TrimWord(backend);
  }

  /** For every validated spec: the file gives back exactly the options, trimmed, and the backend. */
  lemma ValidSpecRoundTrips(backend: string, options: Options, obscure: seq<string>, basePath: string,
                            keys: seq<string>)
    requires ValidSpec(backend, options, obscure, basePath) && Enumerates(keys, options)
    ensures ParseText(Render(backend, keys, options)) == (map k | k in options :: Trim(options[k]))["type" := backend]
  {
    BackendIsWord(backend);
    ParseOfRender(backend, keys, options);
  }

  // ----- write-back -----

  /** Keys rclone may change whose new value is not empty and not the old one. */
  function DiffWriteBack(before: Options, after: Options): Options {
    map k | k in WRITE_BACK_KEYS && k in after && after[k] != "" && !(k in before && before[k] == after[k]) :: after[k]
  }

  /**
   * `updates` after rclone rewrote the file from `options` to `changed`, in any
   * order: exactly the write-back keys whose trimmed value is not empty and
   * differs from what was written.
   */
  lemma UpdatesAfterRewrite(backend: string, options: Options, changed: Options, keys: seq<string>)
    requires OneLine(backend) && Enumerates(keys, changed) && "type" !in changed
    requires forall k :: k in changed ==> KeyLike(k) && OneLine(changed[k])
    ensures
      var u := DiffWriteBack(options, ParseText(Render(backend, keys, changed)));
      forall k ::
        && (k in u <==> && k in WRITE_BACK_KEYS && k in changed && Trim(changed[k]) != ""
                        && !(k in options && options[k] == Trim(changed[k])))
        && (k in u ==> u[k] == Trim(changed[k]))
  {
    ParseOfRender(backend, keys, changed);
  }

  lemma LastGivenUnique(lines: seq<string>, n: nat, k: string, v: string, i: nat, v': string, i': nat)
    requires LastGiven(lines, n, k, v, i) && LastGiven(lines, n, k, v', i')
    ensures v == v'
  {
    assert i == i';
    GivesIff(Trim(lines[i]), k, v);
    GivesIff(Trim(lines[i]), k, v');
  }

  /**
   * `updates` after rclone rewrote the file to any text whatsoever: exactly the three
   * write-back keys whose last value in the remote's section is not empty and is not
   * the one that was sent.
   */
  lemma UpdatesFromAnyFile(options: Options, text: string, k: string)
    ensures
      var u, lines := DiffWriteBack(options, ParseText(text)), Lines(text);
      && (k in u <==>
            && (k == "token" || k == "drive_id" || k == "drive_type")
            && exists i: nat, v ::
                 LastGiven(lines, |lines|, k, v, i) && v != "" && !(k in options && options[k] == v))
      && (k in u ==> exists i: nat :: LastGiven(lines, |lines|, k, u[k], i))
  {
    hide LastGiven, Lines, ParseText;
    FileMeans(text, k);
    var lines, out := Lines(text), ParseText(text);
    if k in out {
      var i: nat :| LastGiven(lines, |lines|, k, out[k], i);
      forall i': nat, v | LastGiven(lines, |lines|, k, v, i') ensures v == out[k] {
        LastGivenUnique(lines, |lines|, k, v, i', out[k], i);
      }
    }
  }

  /**
   * If rclone leaves the file alone there is nothing to write back, exactly when
   * no write-back value has white space to lose around something.
   */
  lemma NoUpdatesIff(backend: string, options: Options, obscure: seq<string>, basePath: string, keys: seq<string>)
    requires ValidSpec(backend, options, obscure, basePath) && Enumerates(keys, options)
    ensures DiffWriteBack(options, ParseText(Render(backend, keys, options))) == map[] <==>
            forall k :: k in WRITE_BACK_KEYS && k in options ==>
              Trim(options[k]) == options[k] || Trim(options[k]) == ""
  {
    BackendIsWord(backend);
    UpdatesAfterRewrite(backend, options, options, keys);
    var u := DiffWriteBack(options, ParseText(Render(backend, keys, options)));
    if u == map[] {
      forall k | k in WRITE_BACK_KEYS && k in options ensures Trim(options[k]) == options[k] || Trim(options[k]) == "" {
        assert k !in u;
      }
    } else {
      var k :| k in u;
    }
  }
}
