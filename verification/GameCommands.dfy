/** Quick commands: filling a stored template with checked values, and who may run the result. */
module GameCommands {
  import opened Prelude
  import opened Text
  import opened ConsoleRoles

  const FREE_TEXT_PARAMS: set<string> := {"message", "reason"}

  type Values = map<string, string>

  datatype CommandError = ControlCharacters(name: string) | NotASingleWord(name: string)

  predicate HasControl(s: string) {
    exists i :: 0 <= i < |s| && IsControl(s[i])
  }

  function CheckCommandValue(name: string, v: string, freeText: bool): Result<string, CommandError> {
    if HasControl(v) then Err(ControlCharacters(name))
    else
      var t := Trim(v);
      if !freeText && (!NoSpace(t) || "--" <= t) then Err(NotASingleWord(name)) else Ok(t)
  }

  /**
   * Which values are accepted, and as what: without control characters, stripped of
   * surrounding white space and otherwise as given; all but free text must then be a
   * single word, or nothing, that is no flag.
   */
  lemma AcceptedValue(name: string, v: string, freeText: bool, t: string)
    ensures CheckCommandValue(name, v, freeText) == Ok(t) <==>
            && (forall i :: 0 <= i < |v| ==> !IsControl(v[i])) && Stripped(v, t)
            && (freeText || ((forall i :: 0 <= i < |t| ==> !IsSpace(t[i])) && !("--" <= t)))
  {
    hide Trim, Stripped;
    TrimIff(v, t);
  }

  // ----- filling one token -----

  function ValueOf(values: Values, name: string): string {
    if name in values then values[name] else ""
  }

  datatype Hole = Hole(before: string, name: string, after: string)

  /** The first `{name}` of a token: an opening brace with a closing one behind it. */
  function NextHole(tok: string): (h: Option<Hole>)
    ensures h.Some? ==> |h.value.after| < |tok|
  {
    IndexOfIs(tok, '{');
    var start := IndexOf(tok, '{');
    if start == -1 then None
    else
      IndexOfIs(tok[start..], '}');
      var end := IndexOf(tok[start..], '}');
      if end <= 0 then None
      else Some(Hole(tok[..start], tok[start + 1..start + end], tok[start + end + 1..]))
  }

  lemma HoleShape(tok: string)
    ensures NextHole(tok).None? || (var h := NextHole(tok).value; tok == h.before + ("{" + h.name + "}") + h.after)
  {
    hide IndexOf;
    IndexOfIs(tok, '{');
    var start := IndexOf(tok, '{');
    if start != -1 {
      IndexOfIs(tok[start..], '}');
      var end := IndexOf(tok[start..], '}');
      if end > 0 {
        assert tok[start + end] == '}';
      }
    }
  }

  /** Replace each `{name}` in one left-to-right scan; inserted text is never scanned. */
  function Fill(tok: string, values: Values): string
    decreases |tok|
  {
    match NextHole(tok)
    case None => tok
    case Some(h) => h.before + ValueOf(values, h.name) + Fill(h.after, values)
  }

  method FillPlaceholders(token: string, values: Values) returns (b: string)
    ensures b == Fill(token, values)
  {
    hide IndexOf;
    b := "";
    var tok := token;
    while true
      invariant b + Fill(tok, values) == Fill(token, values)
      decreases |tok|
    {
      IndexOfIs(tok, '{');
      var start := IndexOf(tok, '{');
      if start == -1 {
        b := b + tok;
        return;
      }
      IndexOfIs(tok[start..], '}');
      var end := IndexOf(tok[start..], '}');
      if end == -1 {
        b := b + tok;
        return;
      }
      assert tok[start..][0] == '{';
      var value := ValueOf(values, tok[start + 1..start + end]);
      FillStep(b, tok[..start], value, Fill(tok[start + end + 1..], values));
      b := b + tok[..start];
      b := b + value;
      tok := tok[start + end + 1..];
    }
  }

  lemma FillStep(b: string, before: string, value: string, rest: string)
    ensures b + (before + value + rest) == b + before + value + rest
  {}

  // ----- a token as literals and placeholders -----

  datatype Piece = Literal(text: string) | Placeholder(name: string)

  /** How a template token splits; no value plays a part in it. */
  function Pieces(tok: string): seq<Piece>
    decreases |tok|
  {
    match NextHole(tok)
    case None => [Literal(tok)]
    case Some(h) => [Literal(h.before)] + ([Placeholder(h.name)] + Pieces(h.after))
  }

  function Written(p: Piece): string {
    match p
    case Literal(t) => t
    case Placeholder(n) => "{" + n + "}"
  }

  function Shown(p: Piece, values: Values): string {
    match p
    case Literal(t) => t
    case Placeholder(n) => ValueOf(values, n)
  }

  function Spell(ps: seq<Piece>): string {
    if ps == [] then "" else Written(ps[0]) + Spell(ps[1..])
  }

  function Show(ps: seq<Piece>, values: Values): string {
    if ps == [] then "" else Shown(ps[0], values) + Show(ps[1..], values)
  }

  /**
   * Filling is rendering a split that depends on the template alone: the pieces
   * spell the token, and whatever the values are, each literal appears as
   * written and each placeholder as its value, in order.
   */
  lemma {:induction false} FillRendersPieces(tok: string, values: Values)
    ensures Spell(Pieces(tok)) == tok
    ensures Fill(tok, values) == Show(Pieces(tok), values)
    decreases |tok|
  {
    hide NextHole, Spell, Show;
    match NextHole(tok)
    case None =>
      OnePiece(Literal(tok), [], values);
      NoPieces(values);
      assert [Literal(tok)] + [] == [Literal(tok)];
    case Some(h) =>
      var lit, hole, rest := Literal(h.before), Placeholder(h.name), Pieces(h.after);
      FillRendersPieces(h.after, values);
      OnePiece(hole, rest, values);
      OnePiece(lit, [hole] + rest, values);
      HoleShape(tok);
      Reassociate(h.before, "{" + h.name + "}", h.after);
      Reassociate(h.before, ValueOf(values, h.name), Fill(h.after, values));
  }

  /** No opening brace of the text has a closing one behind it. */
  ghost predicate NoHole(t: string) {
    forall i, j :: 0 <= i < j < |t| ==> !(t[i] == '{' && t[j] == '}')
  }

  /**
   * A split at every placeholder there is: literals and placeholders in turn, each
   * placeholder from the first brace to the first one that closes it, and none left
   * in the last literal.
   */
  ghost predicate FullySplit(ps: seq<Piece>) {
    if |ps| <= 1 then |ps| == 1 && ps[0].Literal? && NoHole(ps[0].text)
    else
      && ps[0].Literal? && '{' !in ps[0].text && ps[1].Placeholder? && '}' !in ps[1].name
      && FullySplit(ps[2..])
  }

  lemma NoHoleIff(tok: string)
    ensures NextHole(tok).None? <==> NoHole(tok)
    ensures NextHole(tok).Some? ==> '{' !in NextHole(tok).value.before && '}' !in NextHole(tok).value.name
  {
    hide IndexOf;
    IndexOfIs(tok, '{');
    var start := IndexOf(tok, '{');
    if start != -1 {
      var tail := tok[start..];
      IndexOfIs(tail, '}');
      var end := IndexOf(tail, '}');
      assert tail[0] == '{';
      if end != -1 {
        assert tok[start] == '{' && tok[start + end] == '}';
        assert tail[..end] == "{" + tok[start + 1..start + end];
      } else {
        forall i, j | 0 <= i < j < |tok| ensures !(tok[i] == '{' && tok[j] == '}') {
          assert i < start ==> tok[..start][i] == tok[i];
          assert j >= start ==> tail[j - start] == tok[j];
        }
      }
    }
  }

  lemma LoneLiteral(tok: string)
    requires NextHole(tok).None? && NoHole(tok)
    ensures FullySplit(Pieces(tok))
  {
    hide NextHole, NoHole;
  }

  lemma OneMoreHole(tok: string, h: Hole)
    requires NextHole(tok) == Some(h) && FullySplit(Pieces(h.after)) && '{' !in h.before && '}' !in h.name
    ensures FullySplit(Pieces(tok))
  {
    hide NextHole, NoHole;
    var rest := Pieces(h.after);
    var ps := [Literal(h.before)] + ([Placeholder(h.name)] + rest);
    assert ps[0] == Literal(h.before) && ps[1] == Placeholder(h.name) && ps[2..] == rest;
    assert Pieces(tok) == ps;
  }

  /** The split a token gets is a full one, ... */
  lemma {:induction false} PiecesFullySplit(tok: string)
    ensures FullySplit(Pieces(tok))
    decreases |tok|
  {
    hide NextHole, NoHole, Pieces, FullySplit;
    NoHoleIff(tok);
    match NextHole(tok)
    case None =>
      LoneLiteral(tok);
    case Some(h) =>
      PiecesFullySplit(h.after);
      OneMoreHole(tok, h);
  }

  /** ... and the only full one that spells it. */
  lemma {:induction false} OnlyFullSplit(tok: string, ps: seq<Piece>)
    requires FullySplit(ps) && Spell(ps) == tok
    ensures ps == Pieces(tok)
    decreases |ps|
  {
    hide NextHole, NoHole, IndexOf;
    if |ps| == 1 {
      OneSpelled(ps[0]);
      assert ps == [ps[0]];
      NoHoleIff(tok);
    } else {
      var a, n, rest := ps[0].text, ps[1].name, Spell(ps[2..]);
      assert ps == [ps[0]] + ([ps[1]] + ps[2..]);
      OnePiece(ps[1], ps[2..], map[]);
      OnePiece(ps[0], [ps[1]] + ps[2..], map[]);
      FirstHole(a, n, rest);
      OnlyFullSplit(rest, ps[2..]);
    }
  }

  lemma OneSpelled(p: Piece)
    ensures Spell([p]) == Written(p)
  {
    NoPieces(map[]);
    assert [p] == [p] + [];
    OnePiece(p, [], map[]);
  }

  lemma FirstHole(a: string, n: string, rest: string)
    requires '{' !in a && '}' !in n
    ensures NextHole(a + ("{" + n + "}" + rest)) == Some(Hole(a, n, rest))
  {
    hide IndexOf;
    var tail := "{" + n + "}" + rest;
    var tok := a + tail;
    assert tok[|a|] == '{' && tok[..|a|] == a && tok[|a|..] == tail;
    IndexOfAt(tok, '{', |a|);
    assert tail[|n| + 1] == '}' && tail[..|n| + 1] == "{" + n;
    IndexOfAt(tail, '}', |n| + 1);
    assert tok[|a| + 1..|a| + |n| + 1] == n && tok[|a| + |n| + 2..] == rest;
  }

  lemma Reassociate(a: string, b: string, c: string)
    ensures a + (b + c) == a + b + c
  {}

  lemma NoPieces(values: Values)
    ensures Spell([]) == "" && Show([], values) == ""
  {}

  lemma OnePiece(p: Piece, ps: seq<Piece>, values: Values)
    ensures Spell([p] + ps) == Written(p) + Spell(ps)
    ensures Show([p] + ps, values) == Shown(p, values) + Show(ps, values)
  {
    assert ([p] + ps)[1..] == ps;
  }

  /** A token without an opening brace is a literal. */
  lemma FillLiteral(tok: string, values: Values)
    requires '{' !in tok
    ensures Fill(tok, values) == tok
  {
    IndexOfIs(tok, '{');
  }

  // ----- the whole template -----

  /** The words of the command, from the words of the template. */
  function Emit(tokens: seq<string>, values: Values): seq<string>
    decreases |tokens|
  {
    if tokens == [] then []
    else if "--" <= tokens[0] && |tokens| > 1 && '{' in tokens[1] then
      var v := Fill(tokens[1], values);
      (if v != "" then [tokens[0], v] else []) + Emit(tokens[2..], values)
    else
      var v := Fill(tokens[0], values);
      (if v != "" then [v] else []) + Emit(tokens[1..], values)
  }

  /** Every parameter passes its check. */
  predicate ParamsOk(params: Values) {
    forall k :: k in params ==> CheckCommandValue(k, params[k], k in FREE_TEXT_PARAMS).Ok?
  }

  /** What the placeholders stand for; the server's world wins over a parameter of that name. */
  function CheckedValues(params: Values, world: string): Values
    requires ParamsOk(params) && CheckCommandValue("world", world, false).Ok?
  {
    (map k | k in params :: CheckCommandValue(k, params[k], k in FREE_TEXT_PARAMS).value)
      ["world" := CheckCommandValue("world", world, false).value]
  }

  /**
   * What a placeholder shows: the caller's own value, stripped; for `{world}` always
   * the server's world, whatever the caller sent under that name; nothing for a name
   * the caller did not send.
   */
  lemma PlaceholderShows(params: Values, world: string, name: string)
    requires ParamsOk(params) && CheckCommandValue("world", world, false).Ok?
    ensures
      var shown := ValueOf(CheckedValues(params, world), name);
      if name == "world" then Stripped(world, shown)
      else if name in params then Stripped(params[name], shown)
      else shown == ""
  {
    hide Trim, Stripped;
    TrimIff(world, Trim(world));
    if name in params {
      TrimIff(params[name], Trim(params[name]));
    }
  }

  /** When a set of parameters is accepted: messages and reasons may have several words, nothing else may. */
  lemma ParamsAccepted(params: Values)
    ensures ParamsOk(params) <==>
            forall k :: k in params ==>
              && (forall i :: 0 <= i < |params[k]| ==> !IsControl(params[k][i]))
              && (k == "message" || k == "reason" || (NoSpace(Trim(params[k])) && !("--" <= Trim(params[k]))))
  {}

  function Resolved(template: string, params: Values, world: string): string
    requires ParamsOk(params) && CheckCommandValue("world", world, false).Ok?
  {
    Join(Emit(Fields(template), CheckedValues(params, world)), " ")
  }

  /** Check every parameter, in whatever order the map is walked. */
  method CheckParams(params: Values) returns (r: Result<Values, CommandError>)
    ensures r.Ok? <==> ParamsOk(params)
    ensures r.Ok? ==> r.value == map k | k in params :: CheckCommandValue(k, params[k], k in FREE_TEXT_PARAMS).value
  {
    hide CheckCommandValue;
    var values: Values := map[];
    var todo := params.Keys;
    while todo != {}
      invariant todo <= params.Keys && values.Keys == params.Keys - todo
      invariant forall k :: k in values ==>
                  CheckCommandValue(k, params[k], k in FREE_TEXT_PARAMS) == Ok(values[k])
      decreases |todo|
    {
      var k :| k in todo;
      var checked := CheckCommandValue(k, params[k], k in FREE_TEXT_PARAMS);
      if checked.Err? {
        return Err(checked.error);
      }
      values := values[k := checked.value];
      todo := todo - {k};
    }
    r := Ok(values);
  }

  predicate FlagWithValue(tokens: seq<string>, i: nat) {
    i + 1 < |tokens| && "--" <= tokens[i] && '{' in tokens[i + 1]
  }

  /** One round of the loop, from token `i`, with `out` emitted so far. */
  lemma EmitRound(tokens: seq<string>, i: nat, values: Values, out: seq<string>)
    requires i < |tokens|
    ensures
      if FlagWithValue(tokens, i) then
        var v := Fill(tokens[i + 1], values);
        out + Emit(tokens[i..], values)
          == (if v != "" then out + [tokens[i], v] else out) + Emit(tokens[i + 2..], values)
      else
        var v := Fill(tokens[i], values);
        out + Emit(tokens[i..], values) == (if v != "" then out + [v] else out) + Emit(tokens[i + 1..], values)
  {
    hide Fill;
    var rest := tokens[i..];
    assert rest[0] == tokens[i] && rest[1..] == tokens[i + 1..];
    if FlagWithValue(tokens, i) {
      var v := Fill(tokens[i + 1], values);
      assert rest[1] == tokens[i + 1] && rest[2..] == tokens[i + 2..];
      Appended(out, [tokens[i], v], Emit(tokens[i + 2..], values));
    } else {
      var v := Fill(tokens[i], values);
      Appended(out, [v], Emit(tokens[i + 1..], values));
    }
  }

  lemma Appended(out: seq<string>, more: seq<string>, rest: seq<string>)
    ensures out + (more + rest) == out + more + rest
    ensures out + ([] + rest) == out + rest
  {
    assert [] + rest == rest;
  }

  method EmitTokens(tokens: seq<string>, values: Values) returns (out: seq<string>)
    ensures out == Emit(tokens, values)
  {
    hide Fill, Emit;
    out := [];
    var i := 0;
    EmitEnds(tokens, values);
    while i < |tokens|
      invariant 0 <= i <= |tokens|
      invariant out + Emit(tokens[i..], values) == Emit(tokens, values)
    {
      EmitRound(tokens, i, values, out);
      var tok := tokens[i];
      if "--" <= tok && i + 1 < |tokens| && '{' in tokens[i + 1] {
        i := i + 1;
        var v := FillPlaceholders(tokens[i], values);
        if v != "" {
          out := out + [tok, v];
        }
        i := i + 1;
        continue;
      }
      var v := FillPlaceholders(tok, values);
      if v != "" {
        out := out + [v];
      }
      i := i + 1;
    }
    assert out + [] == out;
  }

  lemma EmitEnds(tokens: seq<string>, values: Values)
    ensures [] + Emit(tokens[0..], values) == Emit(tokens, values)
    ensures Emit(tokens[|tokens|..], values) == []
  {
    assert tokens[0..] == tokens;
  }

  method ResolveCommandTemplate(template: string, params: Values, world: string)
    returns (r: Result<string, CommandError>)
    ensures r.Ok? <==> ParamsOk(params) && CheckCommandValue("world", world, false).Ok?
    ensures r.Ok? ==> r.value == Resolved(template, params, world)
  {
    hide CheckCommandValue, Emit, Fields, ParamsOk;
    var checked := CheckParams(params);
    if checked.Err? {
      return Err(checked.error);
    }
    var w := CheckCommandValue("world", world, false);
    if w.Err? {
      return Err(w.error);
    }
    var values := checked.value["world" := w.value];
    var out := EmitTokens(Fields(template), values);
    r := Ok(Join(out, " "));
  }

  /**
   * A flag goes with its value: in front of a word with a placeholder it is emitted
   * right before that word's filling, or not at all if the filling is empty. Any other
   * word is emitted filled, or left out if nothing is left of it.
   */
  lemma FlagsGoWithValues(tokens: seq<string>, values: Values, i: nat)
    requires i < |tokens|
    ensures
      var rest := Emit(tokens[i..], values);
      if i + 1 < |tokens| && |tokens[i]| >= 2 && tokens[i][..2] == "--" && '{' in tokens[i + 1] then
        var v := Show(Pieces(tokens[i + 1]), values);
        rest == (if v == "" then [] else [tokens[i], v]) + Emit(tokens[i + 2..], values)
      else
        var v := Show(Pieces(tokens[i]), values);
        rest == (if v == "" then [] else [v]) + Emit(tokens[i + 1..], values)
  {
    hide Fill, Show, Pieces;
    EmitRound(tokens, i, values, []);
    FillRendersPieces(tokens[i], values);
    if i + 1 < |tokens| {
      FillRendersPieces(tokens[i + 1], values);
    }
  }

  // ----- the emitted words survive splitting -----

  /** No placeholder of the token is free text. */
  predicate NoFreeText(tok: string) {
    forall i :: 0 <= i < |Pieces(tok)| && Pieces(tok)[i].Placeholder? ==> Pieces(tok)[i].name !in FREE_TEXT_PARAMS
  }

  /** Values of everything but free text are single words. */
  ghost predicate SingleWords(values: Values) {
    forall k :: k in values && k !in FREE_TEXT_PARAMS ==> NoSpace(values[k])
  }

  lemma {:induction false} ShowNoSpace(ps: seq<Piece>, values: Values)
    requires NoSpace(Spell(ps)) && SingleWords(values)
    requires forall i :: 0 <= i < |ps| && ps[i].Placeholder? ==> ps[i].name !in FREE_TEXT_PARAMS
    ensures NoSpace(Show(ps, values))
  {
    hide IsSpace;
    if ps != [] {
      var a, b := Written(ps[0]), Spell(ps[1..]);
      assert forall i :: 0 <= i < |a| ==> (a + b)[i] == a[i];
      assert forall i :: 0 <= i < |b| ==> (a + b)[|a| + i] == b[i];
      ShowNoSpace(ps[1..], values);
      assert NoSpace(Shown(ps[0], values)) && Show(ps, values) == Shown(ps[0], values) + Show(ps[1..], values);
    }
  }

  lemma FilledIsWord(tok: string, values: Values)
    requires IsWord(tok) && NoFreeText(tok) && SingleWords(values)
    ensures NoSpace(Fill(tok, values))
  {
    FillRendersPieces(tok, values);
    ShowNoSpace(Pieces(tok), values);
  }

  lemma {:induction false} EmitsWords(tokens: seq<string>, values: Values)
    requires SingleWords(values) && forall i :: 0 <= i < |tokens| ==> IsWord(tokens[i]) && NoFreeText(tokens[i])
    ensures forall i :: 0 <= i < |Emit(tokens, values)| ==> IsWord(Emit(tokens, values)[i])
    decreases |tokens|
  {
    if tokens != [] {
      FilledIsWord(tokens[0], values);
      if "--" <= tokens[0] && |tokens| > 1 && '{' in tokens[1] {
        FilledIsWord(tokens[1], values);
        EmitsWords(tokens[2..], values);
      } else {
        EmitsWords(tokens[1..], values);
      }
    }
  }

  lemma CheckedAreSingleWords(params: Values, world: string)
    requires ParamsOk(params) && CheckCommandValue("world", world, false).Ok?
    ensures SingleWords(CheckedValues(params, world))
  {}

  /**
   * Without free text, the console splits the resolved command into exactly the
   * words the resolver emitted: no value adds or merges an argument.
   */
  lemma ResolvedSplitsIntoEmitted(template: string, params: Values, world: string)
    requires ParamsOk(params) && CheckCommandValue("world", world, false).Ok?
    requires forall i :: 0 <= i < |Fields(template)| ==> NoFreeText(Fields(template)[i])
    ensures Fields(Resolved(template, params, world)) == Emit(Fields(template), CheckedValues(params, world))
  {
    var values := CheckedValues(params, world);
    CheckedAreSingleWords(params, world);
    FieldsAreWords(template);
    EmitsWords(Fields(template), values);
    FieldsJoin(Emit(Fields(template), values));
  }

  // ----- one console line -----

  lemma ConcatControl(a: string, b: string)
    ensures HasControl(a + b) <==> HasControl(a) || HasControl(b)
  {
    var s := a + b;
    if HasControl(a) {
      var i :| 0 <= i < |a| && IsControl(a[i]);
      assert IsControl(s[i]);
    }
    if HasControl(b) {
      var i :| 0 <= i < |b| && IsControl(b[i]);
      assert IsControl(s[|a| + i]);
    }
  }

  ghost predicate CleanValues(values: Values) {
    forall k :: k in values ==> !HasControl(values[k])
  }

  lemma {:induction false} ShowNoControl(ps: seq<Piece>, values: Values)
    requires !HasControl(Spell(ps)) && CleanValues(values)
    ensures !HasControl(Show(ps, values))
  {
    if ps != [] {
      ConcatControl(Written(ps[0]), Spell(ps[1..]));
      ConcatControl(Shown(ps[0], values), Show(ps[1..], values));
      ShowNoControl(ps[1..], values);
    }
  }

  lemma FilledNoControl(tok: string, values: Values)
    requires !HasControl(tok) && CleanValues(values)
    ensures !HasControl(Fill(tok, values))
  {
    FillRendersPieces(tok, values);
    ShowNoControl(Pieces(tok), values);
  }

  lemma {:induction false} EmitNoControl(tokens: seq<string>, values: Values)
    requires CleanValues(values) && forall i :: 0 <= i < |tokens| ==> !HasControl(tokens[i])
    ensures forall i :: 0 <= i < |Emit(tokens, values)| ==> !HasControl(Emit(tokens, values)[i])
    decreases |tokens|
  {
    hide HasControl;
    if tokens != [] {
      FilledNoControl(tokens[0], values);
      if "--" <= tokens[0] && |tokens| > 1 && '{' in tokens[1] {
        FilledNoControl(tokens[1], values);
        EmitNoControl(tokens[2..], values);
      } else {
        EmitNoControl(tokens[1..], values);
      }
    }
  }

  lemma {:induction false} JoinNoControl(words: seq<string>)
    requires forall i :: 0 <= i < |words| ==> !HasControl(words[i])
    ensures !HasControl(Join(words, " "))
  {
    if |words| > 1 {
      JoinNoControl(words[1..]);
      ConcatControl(words[0], " ");
      ConcatControl(words[0] + " ", Join(words[1..], " "));
    }
  }

  /** Every character of a field is one of the string's that is not white space. */
  lemma {:induction false} FieldChars(s: string, i: nat, j: nat)
    requires i < |Fields(s)| && j < |Fields(s)[i]|
    ensures Fields(s)[i][j] in s && !IsSpace(Fields(s)[i][j])
    decreases |s|
  {
    if IsSpace(s[0]) {
      FieldChars(s[1..], i, j);
    } else if i == 0 {
      WordPrefix(s);
      assert s[j] == Word(s)[j];
    } else {
      FieldChars(s[|Word(s)|..], i - 1, j);
    }
  }

  lemma {:induction false} WordPrefix(s: string)
    ensures Word(s) <= s
  {
    if s != "" && !IsSpace(s[0]) {
      WordPrefix(s[1..]);
    }
  }

  lemma {:induction false} TrimChars(s: string)
    ensures !HasControl(s) ==> !HasControl(Trim(s))
    decreases |s|
  {
    TrimLeftChars(s);
    TrimRightChars(TrimLeft(s));
  }

  lemma {:induction false} TrimLeftChars(s: string)
    ensures !HasControl(s) ==> !HasControl(TrimLeft(s))
  {
    if s != "" && IsSpace(s[0]) {
      assert [s[0]] + s[1..] == s;
      ConcatControl([s[0]], s[1..]);
      TrimLeftChars(s[1..]);
    }
  }

  lemma {:induction false} TrimRightChars(s: string)
    ensures !HasControl(s) ==> !HasControl(TrimRight(s))
  {
    if s != "" && IsSpace(s[|s| - 1]) {
      assert s[..|s| - 1] + [s[|s| - 1]] == s;
      ConcatControl(s[..|s| - 1], [s[|s| - 1]]);
      TrimRightChars(s[..|s| - 1]);
    }
  }

  lemma CheckedAreClean(params: Values, world: string)
    requires ParamsOk(params) && CheckCommandValue("world", world, false).Ok?
    ensures CleanValues(CheckedValues(params, world))
  {
    var values := CheckedValues(params, world);
    forall k | k in values ensures !HasControl(values[k]) {
      if k == "world" {
        TrimChars(world);
      } else {
        TrimChars(params[k]);
      }
    }
  }

  /** If the template holds no control characters but white space, the command is one clean line for all parameters. */
  lemma ResolvedIsOneLine(template: string, params: Values, world: string)
    requires ParamsOk(params) && CheckCommandValue("world", world, false).Ok?
    requires forall i :: 0 <= i < |template| && IsControl(template[i]) ==> IsSpace(template[i])
    ensures !HasControl(Resolved(template, params, world))
  {
    var values := CheckedValues(params, world);
    CheckedAreClean(params, world);
    var tokens := Fields(template);
    forall i | 0 <= i < |tokens| ensures !HasControl(tokens[i]) {
      forall j | 0 <= j < |tokens[i]| ensures !IsControl(tokens[i][j]) {
        FieldChars(template, i, j);
      }
    }
    EmitNoControl(tokens, values);
    JoinNoControl(Emit(tokens, values));
  }

  // ----- who may run the result -----

  /** The clamp on creating a command: it may not be open to a lower role than the console command it wraps. */
  function ClampedMinRole(minRole: string, template: string, lower: Lower): string {
    var need := ConsoleCommandMinRole(template, lower);
    if RoleWeight(minRole) < RoleWeight(need) then need else minRole
  }

  /** The clamp raises a minimum role to what the command needs, and leaves one alone that is high enough. */
  lemma ClampIsMax(minRole: string, template: string, lower: Lower)
    ensures
      var need, r := ConsoleCommandMinRole(template, lower), ClampedMinRole(minRole, template, lower);
      && RoleWeight(r) >= RoleWeight(need) && RoleWeight(r) >= RoleWeight(minRole)
      && r == if RoleWeight(minRole) >= RoleWeight(need) then minRole else need
  {}

  /** A template word that reaches the command as it is. */
  predicate Verbatim(w: string) {
    '{' !in w && !("--" <= w)
  }

  lemma EmitVerbatim(tokens: seq<string>, values: Values)
    requires tokens != [] && Verbatim(tokens[0]) && tokens[0] != ""
    ensures Emit(tokens, values) == [tokens[0]] + Emit(tokens[1..], values)
  {
    FillLiteral(tokens[0], values);
  }

  /** A leading verbatim word is the command's first word. */
  lemma FirstWordKept(tokens: seq<string>, values: Values)
    requires tokens != [] && Verbatim(tokens[0]) && IsWord(tokens[0])
    ensures Fields(Join(Emit(tokens, values), " ")) == [tokens[0]] + Fields(Join(Emit(tokens[1..], values), " "))
  {
    EmitVerbatim(tokens, values);
    JoinFirst(tokens[0], Emit(tokens[1..], values));
  }

  lemma SyntaxSurvivesLowering(w: string, lower: Lower)
    requires IsLowering(lower) && !Verbatim(w)
    ensures '{' in Mapped(w, lower) || "--" <= Mapped(w, lower)
  {
    if '{' in w {
      var i :| 0 <= i < |w| && w[i] == '{';
      assert Mapped(w, lower)[i] == '{';
    } else {
      assert w[0] == '-' && w[1] == '-';
      assert Mapped(w, lower)[..2] == "--";
    }
  }

  /** A word that lower-cases to a plain word has no template syntax in it. */
  lemma PlainIsVerbatim(w: string, lower: Lower)
    requires IsLowering(lower) && '{' !in Mapped(w, lower) && !("--" <= Mapped(w, lower))
    ensures Verbatim(w)
  {
    if !Verbatim(w) {
      SyntaxSurvivesLowering(w, lower);
    }
  }

  /** A verb that needs less than an admin is spelled out in the template. */
  lemma ListedVerbIsPlain(w: string)
    requires Verb(w) == "help" || Verb(w) == "world" || Verb(w) in MODERATOR_VERBS
    ensures '{' !in w && !("--" <= w)
  {
    var v := Verb(w);
    assert '{' !in v && v[0] != '-';
    assert w == v || w == "/" + v;
  }

  /**
   * For every template, all parameters and any world name: the resolved command
   * never needs a higher role than its template.
   */
  lemma ResolvedNeedsNoMore(template: string, params: Values, world: string, lower: Lower)
    requires ParamsOk(params) && CheckCommandValue("world", world, false).Ok? && IsLowering(lower)
    ensures RoleWeight(ConsoleCommandMinRole(Resolved(template, params, world), lower))
         <= RoleWeight(ConsoleCommandMinRole(template, lower))
  {
    hide Emit, Fields, Fill, Verbatim, KeepsSpaces, CheckedValues, ParamsOk, CheckCommandValue;
    var values := CheckedValues(params, world);
    var tokens := Fields(template);
    var cmd := Resolved(template, params, world);
    MinRoleByWords(template, lower);
    MinRoleByWords(cmd, lower);
    FieldsAreWords(template);
    if ConsoleCommandMinRole(template, lower) != ROLE_ADMIN {
      ListedVerbIsPlain(Mapped(tokens[0], lower));
      PlainIsVerbatim(tokens[0], lower);
      FirstWordKept(tokens, values);
      assert MapAll(Fields(cmd), lower)[0] == Mapped(tokens[0], lower);
      if |tokens| > 1 && Mapped(tokens[1], lower) == "save" {
        SaveIsPlain();
        PlainIsVerbatim(tokens[1], lower);
        FirstWordKept(tokens[1..], values);
        assert MapAll(Fields(cmd), lower)[1] == Mapped(tokens[1], lower);
      }
    }
  }

  lemma SaveIsPlain()
    ensures '{' !in "save" && !("--" <= "save")
  {
    assert "save"[0] == 's' && "--"[0] == '-';
  }

  /**
   * With the first two words verbatim the two needs are equal: parameters cannot
   * lower the need either.
   */
  lemma ResolvedNeedsTheSame(template: string, params: Values, world: string, lower: Lower)
    requires ParamsOk(params) && CheckCommandValue("world", world, false).Ok? && IsLowering(lower)
    requires forall i :: 0 <= i < |Fields(template)| && i < 2 ==> Verbatim(Fields(template)[i])
    ensures ConsoleCommandMinRole(Resolved(template, params, world), lower) == ConsoleCommandMinRole(template, lower)
  {
    var values := CheckedValues(params, world);
    var tokens := Fields(template);
    var cmd := Resolved(template, params, world);
    MinRoleByWords(template, lower);
    MinRoleByWords(cmd, lower);
    FieldsAreWords(template);
    if tokens == [] {
      assert Fields(cmd) == [];
    } else {
      FirstWordKept(tokens, values);
      if |tokens| == 1 {
        assert tokens[1..] == [];
        assert Fields(cmd) == tokens;
      } else {
        FirstWordKept(tokens[1..], values);
        assert MapAll(Fields(cmd), lower)[0] == MapAll(tokens, lower)[0];
        assert MapAll(Fields(cmd), lower)[1] == MapAll(tokens, lower)[1];
      }
    }
  }

  lemma NeedOfWord(w: string)
    requires IsWord(w) && forall i :: 0 <= i < |w| ==> !('A' <= w[i] <= 'Z')
    ensures ConsoleCommandMinRole(w, AsciiLower) == MinRoleOf([w])
  {
    AsciiLowerIsLowering();
    FieldsFirst(w, "");
    MinRoleByWords(w, AsciiLower);
    assert Mapped(w, AsciiLower) == w;
    assert MapAll([w], AsciiLower) == [w];
  }

  lemma HoleAtEnd(a: string, n: string)
    requires '{' !in a && '}' !in n
    ensures NextHole(a + ("{" + n + "}")) == Some(Hole(a, n, ""))
  {
    assert "{" + n + "}" + "" == "{" + n + "}";
    FirstHole(a, n, "");
  }

  /** A word with one placeholder at its end resolves to the word before it if the placeholder has no value. */
  lemma DroppedPlaceholder(a: string, n: string, values: Values)
    requires IsWord(a) && NoSpace(n) && '{' !in a && '}' !in n && n !in values
    ensures
      var w := a + ("{" + n + "}");
      IsWord(w) && Fields(w) == [w] && Emit(Fields(w), values) == [a]
  {
    hide NextHole;
    var w := a + ("{" + n + "}");
    assert IsWord(w);
    FieldsFirst(w, "");
    HoleAtEnd(a, n);
    FillLiteral("", values);
    assert Fill(w, values) == a + "" + "" == a;
    assert [w][1..] == [];
  }

  /** A command word with a brace in it is on no list. */
  lemma BraceNeedsAdmin(w: string)
    requires w != "" && '{' in w
    ensures MinRoleOf([w]) == ROLE_ADMIN
  {
    if Verb(w) == "help" || Verb(w) == "world" || Verb(w) in MODERATOR_VERBS {
      ListedVerbIsPlain(w);
    }
  }

  /**
   * Without that condition a placeholder may lower the need, in any template that
   * only appends an unfilled placeholder to a listed verb: `help{x}` needs an
   * admin, but resolves to `help`.
   */
  lemma PlaceholderMayLowerNeed(verb: string, n: string, params: Values, world: string)
    requires verb == "help" || verb in MODERATOR_VERBS
    requires NoSpace(n) && '}' !in n && (forall i :: 0 <= i < |n| ==> !('A' <= n[i] <= 'Z'))
    requires ParamsOk(params) && CheckCommandValue("world", world, false).Ok? && n !in params && n != "world"
    ensures
      var template := verb + ("{" + n + "}");
      && ConsoleCommandMinRole(template, AsciiLower) == ROLE_ADMIN
      && Resolved(template, params, world) == verb
      && RoleWeight(ConsoleCommandMinRole(verb, AsciiLower)) < RoleWeight(ROLE_ADMIN)
  {
    hide Fields, Emit, Mapped, CheckCommandValue;
    var template := verb + ("{" + n + "}");
    VerbIsLowerWord(verb);
    DroppedPlaceholder(verb, n, CheckedValues(params, world));
    NeedOfWord(verb);
    NeedOfWord(template);
    assert template[|verb|] == '{';
    BraceNeedsAdmin(template);
  }

  lemma VerbLetters(verb: string)
    requires verb == "help" || verb in MODERATOR_VERBS
    ensures verb != "" && forall i :: 0 <= i < |verb| ==> 'a' <= verb[i] <= 'z'
  {}

  lemma VerbIsLowerWord(verb: string)
    requires verb == "help" || verb in MODERATOR_VERBS
    ensures IsWord(verb) && '{' !in verb && Verb(verb) == verb
    ensures forall i :: 0 <= i < |verb| ==> 'a' <= verb[i] <= 'z'
  {
    VerbLetters(verb);
    LettersAreWord(verb);
  }

  lemma LettersAreWord(w: string)
    requires w != "" && forall i :: 0 <= i < |w| ==> 'a' <= w[i] <= 'z'
    ensures IsWord(w) && '{' !in w && Verb(w) == w
  {}

  /**
   * The two gates of `ExecuteGameCommand`: whoever passes the stored minimum
   * role of a command created under the clamp, acting with their console role on
   * that server, also passes the check on the resolved command, for all parameters.
   */
  lemma ClampedGateSuffices(userRole: string, ownsServer: bool, minRole: string, template: string,
                            params: Values, world: string, lower: Lower)
    requires ParamsOk(params) && CheckCommandValue("world", world, false).Ok? && IsLowering(lower)
    requires RoleWeight(ConsoleRole(userRole, ownsServer)) >= RoleWeight(ClampedMinRole(minRole, template, lower))
    ensures CanRunConsoleCommand(ConsoleRole(userRole, ownsServer), Resolved(template, params, world), lower)
  {
    ResolvedNeedsNoMore(template, params, world, lower);
  }
}
