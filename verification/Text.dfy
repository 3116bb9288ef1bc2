/** Strings as character sequences: splitting, joining and white space. */
module Text {

  function Split(s: string, c: char): (r: seq<string>)
    ensures r != []
  {
    if s == "" then [""]
    else
      var rest := Split(s[1..], c);
      if s[0] == c then [""] + rest else [[s[0]] + rest[0]] + rest[1..]
  }

  function Join(parts: seq<string>, sep: string): string {
    if parts == [] then ""
    else if |parts| == 1 then parts[0]
    else parts[0] + sep + Join(parts[1..], sep)
  }

  lemma {:induction false} SplitFirst(a: string, c: char, rest: string)
    requires c !in a
    ensures Split(a + [c] + rest, c) == [a] + Split(rest, c)
  {
    var s := a + [c] + rest;
    if a == "" {
      assert s[1..] == rest;
    } else {
      assert s[1..] == a[1..] + [c] + rest;
      SplitFirst(a[1..], c, rest);
      assert [a[0]] + a[1..] == a;
    }
  }

  lemma {:induction false} SplitNone(a: string, c: char)
    requires c !in a
    ensures Split(a, c) == [a]
  {
    if a != "" {
      SplitNone(a[1..], c);
      assert [a[0]] + a[1..] == a;
    }
  }

  /** Joining with a separator none of the parts contains can be undone. */
  lemma {:induction false} SplitJoin(parts: seq<string>, c: char)
    requires parts != [] && forall i :: 0 <= i < |parts| ==> c !in parts[i]
    ensures Split(Join(parts, [c]), c) == parts
  {
    if |parts| == 1 {
      SplitNone(parts[0], c);
    } else {
      SplitFirst(parts[0], c, Join(parts[1..], [c]));
      SplitJoin(parts[1..], c);
    }
  }

  lemma JoinHead(x: char, parts: seq<string>, sep: string)
    requires parts != []
    ensures Join([[x] + parts[0]] + parts[1..], sep) == [x] + Join(parts, sep)
  {
    var longer := [[x] + parts[0]] + parts[1..];
    assert longer[1..] == parts[1..];
    if |parts| > 1 {
      assert [x] + parts[0] + sep + Join(parts[1..], sep) == [x] + (parts[0] + sep + Join(parts[1..], sep));
    }
  }

  lemma {:induction false} JoinSplit(s: string, c: char)
    ensures Join(Split(s, c), [c]) == s
  {
    if s != "" {
      JoinSplit(s[1..], c);
      var rest := Split(s[1..], c);
      if s[0] == c {
        assert ([""] + rest)[1..] == rest;
        assert "" + [c] + s[1..] == s;
      } else {
        JoinHead(s[0], rest, [c]);
        assert [s[0]] + s[1..] == s;
      }
    }
  }

  lemma {:induction false} PiecesFree(s: string, c: char)
    ensures forall i :: 0 <= i < |Split(s, c)| ==> c !in Split(s, c)[i]
  {
    if s != "" {
      PiecesFree(s[1..], c);
    }
  }

  /** Position of the first `c`, or -1. */
  function IndexOf(s: string, c: char): int {
    if s == "" then -1 else if s[0] == c then 0 else
      var i := IndexOf(s[1..], c);
      if i == -1 then -1 else i + 1
  }

  lemma {:induction false} IndexOfIs(s: string, c: char)
    ensures var i := IndexOf(s, c); -1 <= i < |s| && (i == -1 <==> c !in s) && (i >= 0 ==> s[i] == c && c !in s[..i])
  {
    if s != "" && s[0] != c {
      IndexOfIs(s[1..], c);
      var i := IndexOf(s[1..], c);
      if i >= 0 {
        assert s[..i + 1] == [s[0]] + s[1..][..i];
      }
    }
  }

  lemma {:induction false} IndexOfAt(s: string, c: char, i: nat)
    requires i < |s| && s[i] == c && c !in s[..i]
    ensures IndexOf(s, c) == i
  {
    if i > 0 {
      assert s[0] == s[..i][0];
      assert s[1..][..i - 1] == s[..i][1..];
      IndexOfAt(s[1..], c, i - 1);
    }
  }

  /** Unicode White_Space, as Rust's `trim` and Go's `unicode.IsSpace` use it. */
  predicate IsSpace(c: char) {
    var n := c as int;
    || 9 <= n <= 13 || n == 32 || n == 0x85 || n == 0xA0 || n == 0x1680
    || 0x2000 <= n <= 0x200A || n == 0x2028 || n == 0x2029 || n == 0x202F || n == 0x205F || n == 0x3000
  }

  predicate NoSpace(s: string) {
    forall i :: 0 <= i < |s| ==> !IsSpace(s[i])
  }

  function TrimLeft(s: string): string {
    if s != "" && IsSpace(s[0]) then TrimLeft(s[1..]) else s
  }

  function TrimRight(s: string): string {
    if s != "" && IsSpace(s[|s| - 1]) then TrimRight(s[..|s| - 1]) else s
  }

  function Trim(s: string): string {
    TrimRight(TrimLeft(s))
  }

  /** Unicode category Cc. */
  predicate IsControl(c: char) {
    c as int < 0x20 || 0x7F <= c as int <= 0x9F
  }

  lemma HeadOfFirst(x: char, first: seq<string>, more: seq<string>)
    requires first != []
    ensures (first + more)[0] == first[0] && (first + more)[1..] == first[1..] + more
    ensures [""] + (first + more) == [""] + first + more
    ensures [[x] + first[0]] + (first[1..] + more) == [[x] + first[0]] + first[1..] + more
  {}

  /** Splitting respects concatenation at a separator. */
  lemma {:induction false} SplitAppend(a: string, b: string, c: char)
    ensures Split(a + [c] + b, c) == Split(a, c) + Split(b, c)
  {
    var s := a + [c] + b;
    if a == "" {
      assert s[1..] == b;
    } else {
      assert s[1..] == a[1..] + [c] + b && s[0] == a[0];
      SplitAppend(a[1..], b, c);
      HeadOfFirst(a[0], Split(a[1..], c), Split(b, c));
    }
  }

  // ----- trimming -----

  lemma {:induction false} TrimRightAppend(a: string, b: string)
    ensures TrimRight(a + b) == if TrimRight(b) != "" then a + TrimRight(b) else TrimRight(a)
    decreases |b|
  {
    if b == "" {
      assert a + b == a;
    } else {
      var s := a + b;
      assert s[|s| - 1] == b[|b| - 1];
      if IsSpace(b[|b| - 1]) {
        assert s[..|s| - 1] == a + b[..|b| - 1];
        TrimRightAppend(a, b[..|b| - 1]);
      }
    }
  }

  lemma {:induction false} TrimRightEnds(s: string)
    ensures TrimRight(s) == "" || !IsSpace(TrimRight(s)[|TrimRight(s)| - 1])
    ensures TrimRight(TrimRight(s)) == TrimRight(s)
  {
    if s != "" && IsSpace(s[|s| - 1]) {
      TrimRightEnds(s[..|s| - 1]);
    }
  }

  /** Both ends can be trimmed in either order. */
  lemma {:induction false} TrimCommutes(s: string)
    ensures TrimLeft(TrimRight(s)) == TrimRight(TrimLeft(s))
    decreases |s|
  {
    if s != "" && IsSpace(s[0]) {
      var rest := s[1..];
      TrimCommutes(rest);
      TrimRightAppend([s[0]], rest);
      assert [s[0]] + rest == s;
      if TrimRight(rest) == "" {
        assert [s[0]][..0] == "";
        assert TrimRight([s[0]]) == TrimRight([s[0]][..0]) == "";
      } else {
        assert ([s[0]] + TrimRight(rest))[1..] == TrimRight(rest);
      }
    } else if s != "" {
      StartsWithInk(s);
    }
  }

  lemma {:induction false} StartsWithInk(s: string)
    requires s != "" && !IsSpace(s[0])
    ensures TrimRight(s) != "" && TrimRight(s)[0] == s[0]
    decreases |s|
  {
    if IsSpace(s[|s| - 1]) {
      StartsWithInk(s[..|s| - 1]);
    }
  }

  /** A word has nothing to trim. */
  lemma TrimWord(s: string)
    requires NoSpace(s)
    ensures Trim(s) == s
  {}

  ghost predicate AllSpace(s: string) {
    forall i :: 0 <= i < |s| ==> IsSpace(s[i])
  }

  /** `t` is `s` without white space around it. */
  ghost predicate Stripped(s: string, t: string) {
    && (t == "" || (!IsSpace(t[0]) && !IsSpace(t[|t| - 1])))
    && exists a: string, b: string :: AllSpace(a) && AllSpace(b) && s == a + t + b
  }

  lemma {:induction false} TrimLeftSplits(s: string) returns (a: string)
    ensures AllSpace(a) && s == a + TrimLeft(s) && (TrimLeft(s) == "" || !IsSpace(TrimLeft(s)[0]))
  {
    hide IsSpace;
    if s != "" && IsSpace(s[0]) {
      var rest := TrimLeftSplits(s[1..]);
      a := [s[0]] + rest;
      assert s == [s[0]] + s[1..] == [s[0]] + (rest + TrimLeft(s[1..])) == a + TrimLeft(s[1..]);
    } else {
      a := "";
    }
  }

  lemma {:induction false} TrimRightSplits(s: string) returns (b: string)
    ensures AllSpace(b) && s == TrimRight(s) + b
    decreases |s|
  {
    hide IsSpace;
    if s != "" && IsSpace(s[|s| - 1]) {
      var init := s[..|s| - 1];
      var rest := TrimRightSplits(init);
      b := rest + [s[|s| - 1]];
      assert s == init + [s[|s| - 1]] == (TrimRight(init) + rest) + [s[|s| - 1]] == TrimRight(init) + b;
    } else {
      b := "";
    }
  }

  lemma {:induction false} TrimLeftOff(a: string, t: string)
    requires AllSpace(a) && (t == "" || !IsSpace(t[0]))
    ensures TrimLeft(a + t) == t
  {
    if a == "" {
      assert a + t == t;
    } else {
      assert (a + t)[0] == a[0] && (a + t)[1..] == a[1..] + t;
      TrimLeftOff(a[1..], t);
    }
  }

  lemma {:induction false} TrimRightOff(t: string, b: string)
    requires AllSpace(b) && (t == "" || !IsSpace(t[|t| - 1]))
    ensures TrimRight(t + b) == t
    decreases |b|
  {
    if b == "" {
      assert t + b == t;
    } else {
      var s := t + b;
      assert s[|s| - 1] == b[|b| - 1] && s[..|s| - 1] == t + b[..|b| - 1];
      TrimRightOff(t, b[..|b| - 1]);
    }
  }

  /** Trimming strips the white space around a string, and nothing else is what is left then. */
  lemma TrimIff(s: string, t: string)
    ensures Trim(s) == t <==> Stripped(s, t)
  {
    var a := TrimLeftSplits(s);
    var b := TrimRightSplits(TrimLeft(s));
    TrimRightEnds(TrimLeft(s));
    assert s == a + Trim(s) + b;
    if TrimLeft(s) != "" {
      StartsWithInk(TrimLeft(s));
    }
    assert Stripped(s, Trim(s));
    if Stripped(s, t) {
      StrippedIsTrim(s, t);
    }
  }

  lemma StrippedIsTrim(s: string, t: string)
    requires Stripped(s, t)
    ensures Trim(s) == t
  {
    var a: string, b: string :| AllSpace(a) && AllSpace(b) && s == a + t + b;
    if t == "" {
      assert s == (a + b) + "" && AllSpace(a + b);
      TrimLeftOff(a + b, "");
    } else {
      assert s == a + (t + b) && (t + b)[0] == t[0];
      TrimLeftOff(a, t + b);
      TrimRightOff(t, b);
    }
  }

  // ----- white-space separated words -----

  /** The leading characters that are not white space. */
  function Word(s: string): (w: string)
    ensures |w| <= |s| && NoSpace(w)
  {
    if s == "" || IsSpace(s[0]) then "" else [s[0]] + Word(s[1..])
  }

  /** Go's `strings.Fields`. */
  function Fields(s: string): seq<string>
    decreases |s|
  {
    if s == "" then []
    else if IsSpace(s[0]) then Fields(s[1..])
    else [Word(s)] + Fields(s[|Word(s)|..])
  }

  predicate IsWord(w: string) {
    w != "" && NoSpace(w)
  }

  lemma {:induction false} FieldsAreWords(s: string)
    ensures forall i :: 0 <= i < |Fields(s)| ==> IsWord(Fields(s)[i])
    decreases |s|
  {
    if s != "" {
      if IsSpace(s[0]) {
        FieldsAreWords(s[1..]);
      } else {
        FieldsAreWords(s[|Word(s)|..]);
      }
    }
  }

  lemma {:induction false} WordStops(a: string, b: string)
    requires NoSpace(a) && (b == "" || IsSpace(b[0]))
    ensures Word(a + b) == a
  {
    if a == "" {
      assert a + b == b;
    } else {
      assert (a + b)[1..] == a[1..] + b;
      WordStops(a[1..], b);
      assert [a[0]] + a[1..] == a;
    }
  }

  /** A word followed by a space is the first field. */
  lemma FieldsFirst(a: string, rest: string)
    requires IsWord(a)
    ensures Fields(a + " " + rest) == [a] + Fields(rest)
    ensures Fields(a) == [a]
  {
    var tail := " " + rest;
    WordStops(a, tail);
    assert a + " " + rest == a + tail;
    assert (a + tail)[|a|..] == tail;
    assert tail[1..] == rest;
    WordStops(a, "");
    assert a + "" == a;
    assert a[|a|..] == "";
  }

  lemma JoinFirst(a: string, rest: seq<string>)
    requires IsWord(a)
    ensures Fields(Join([a] + rest, " ")) == [a] + Fields(Join(rest, " "))
  {
    if rest == [] {
      assert [a] + rest == [a];
      FieldsFirst(a, "");
    } else {
      assert ([a] + rest)[1..] == rest;
      FieldsFirst(a, Join(rest, " "));
    }
  }

  /** Words joined by single spaces are split back into those words. */
  lemma {:induction false} FieldsJoin(words: seq<string>)
    requires forall i :: 0 <= i < |words| ==> IsWord(words[i])
    ensures Fields(Join(words, " ")) == words
  {
    if words != [] {
      assert [words[0]] + words[1..] == words;
      JoinFirst(words[0], words[1..]);
      FieldsJoin(words[1..]);
    }
  }

  // ----- case -----

  function Mapped(s: string, f: char -> char): (r: string)
    ensures |r| == |s|
  {
    seq(|s|, i requires 0 <= i < |s| => f(s[i]))
  }

  function MapAll(ws: seq<string>, f: char -> char): (r: seq<string>)
    ensures |r| == |ws|
  {
    seq(|ws|, i requires 0 <= i < |ws| => Mapped(ws[i], f))
  }

  ghost predicate KeepsSpaces(f: char -> char) {
    forall c :: IsSpace(f(c)) <==> IsSpace(c)
  }

  lemma {:induction false} WordMapped(s: string, f: char -> char)
    requires KeepsSpaces(f)
    ensures Word(Mapped(s, f)) == Mapped(Word(s), f)
  {
    if s != "" && !IsSpace(s[0]) {
      WordMapped(s[1..], f);
      assert Mapped(s, f)[1..] == Mapped(s[1..], f);
    }
  }

  lemma MappedTail(s: string, f: char -> char, n: nat)
    requires n <= |s|
    ensures Mapped(s, f)[n..] == Mapped(s[n..], f) && (s != "" ==> Mapped(s, f)[0] == f(s[0]))
  {}

  lemma MapAllCons(w: string, ws: seq<string>, f: char -> char)
    ensures MapAll([w] + ws, f) == [Mapped(w, f)] + MapAll(ws, f)
  {}

  /** Changing case character by character does not move word boundaries. */
  lemma {:induction false} FieldsMapped(s: string, f: char -> char)
    requires KeepsSpaces(f)
    ensures Fields(Mapped(s, f)) == MapAll(Fields(s), f)
    decreases |s|
  {
    hide IsSpace, MapAll;
    if s != "" {
      MappedTail(s, f, 1);
      if IsSpace(s[0]) {
        FieldsMapped(s[1..], f);
      } else {
        var n := |Word(s)|;
        WordMapped(s, f);
        MappedTail(s, f, n);
        FieldsMapped(s[n..], f);
        MapAllCons(Word(s), Fields(s[n..]), f);
      }
    }
  }
}
