/** Which role a console command needs. */
module ConsoleRoles {
  import opened Text

  const ROLE_USER: string := "user"
  const ROLE_MODERATOR: string := "moderator"
  const ROLE_ADMIN: string := "admin"
  const ROLE_OWNER: string := "owner"

  const MODERATOR_VERBS: set<string> := {"kick", "ban", "unban", "whitelist", "time", "weather", "teleport", "say"}

  function RoleWeight(role: string): nat {
    if role == ROLE_OWNER then 4
    else if role == ROLE_ADMIN then 3
    else if role == ROLE_MODERATOR then 2
    else if role == ROLE_USER then 1
    else 0
  }

  /**
   * Go's `unicode.ToLower`, character by character. Nothing is needed of it but
   * that white space stays white space and the template syntax stays itself.
   */
  type Lower = char -> char

  ghost predicate IsLowering(lower: Lower) {
    KeepsSpaces(lower) && lower('{') == '{' && lower('-') == '-'
  }

  function Verb(word: string): string {
    if word != "" && word[0] == '/' then word[1..] else word
  }

  /** The role needed by a command whose lower-cased words are `fields`. */
  function MinRoleOf(fields: seq<string>): string {
    if fields == [] then ROLE_ADMIN
    else
      var verb := Verb(fields[0]);
      if verb == "help" then ROLE_USER
      else if verb == "world" && |fields| > 1 && fields[1] == "save" then ROLE_USER
      else if verb in MODERATOR_VERBS then ROLE_MODERATOR
      else ROLE_ADMIN
  }

  function ConsoleCommandMinRole(cmd: string, lower: Lower): string {
    MinRoleOf(Fields(Mapped(cmd, lower)))
  }

  function ConsoleRole(role: string, isServerOwner: bool): string {
    if role == ROLE_OWNER || role == ROLE_ADMIN || isServerOwner then ROLE_ADMIN else role
  }

  predicate CanRunConsoleCommand(role: string, cmd: string, lower: Lower) {
    RoleWeight(role) >= RoleWeight(ConsoleCommandMinRole(cmd, lower))
  }

  /** Only the first two words matter, and a second word can only lower the need of a `world` command. */
  lemma MinRoleByWords(cmd: string, lower: Lower)
    requires KeepsSpaces(lower)
    ensures ConsoleCommandMinRole(cmd, lower) == MinRoleOf(MapAll(Fields(cmd), lower))
  {
    FieldsMapped(cmd, lower);
  }

  /** The first word of a command, lower-cased, with or without its slash. */
  ghost predicate Begins(words: seq<string>, verb: string) {
    words != [] && (words[0] == verb || words[0] == "/" + verb)
  }

  ghost predicate ForUsers(words: seq<string>) {
    Begins(words, "help") || (Begins(words, "world") && |words| > 1 && words[1] == "save")
  }

  ghost predicate ForModerators(words: seq<string>) {
    || Begins(words, "kick") || Begins(words, "ban") || Begins(words, "unban") || Begins(words, "whitelist")
    || Begins(words, "time") || Begins(words, "weather") || Begins(words, "teleport") || Begins(words, "say")
  }

  /**
   * Who may send what: users `help` and `world save`; moderators also the eight
   * moderation verbs; admins and owners everything; anyone else nothing. Upper case
   * and a leading slash make no difference.
   */
  lemma WhoMayRun(role: string, cmd: string, lower: Lower)
    requires KeepsSpaces(lower)
    ensures
      var words := MapAll(Fields(cmd), lower);
      CanRunConsoleCommand(role, cmd, lower) <==>
        || role == "admin" || role == "owner"
        || (role == "moderator" && (ForModerators(words) || ForUsers(words)))
        || (role == "user" && ForUsers(words))
  {
    hide ForUsers, ForModerators, MinRoleOf, Fields, MapAll;
    MinRoleByWords(cmd, lower);
    NeedByWords(MapAll(Fields(cmd), lower));
  }

  lemma NeedByWords(words: seq<string>)
    ensures MinRoleOf(words) ==
              if ForUsers(words) then "user" else if ForModerators(words) then "moderator" else "admin"
  {
    hide Verb;
    if words != [] {
      VerbIs(words[0], "help");
      VerbIs(words[0], "world");
      ModeratorVerb(words);
    }
  }

  lemma ModeratorVerb(words: seq<string>)
    requires words != []
    ensures Verb(words[0]) in MODERATOR_VERBS <==> ForModerators(words)
  {
    hide Verb;
    VerbIs(words[0], "kick");
    VerbIs(words[0], "ban");
    VerbIs(words[0], "unban");
    VerbIs(words[0], "whitelist");
    VerbIs(words[0], "time");
    VerbIs(words[0], "weather");
    VerbIs(words[0], "teleport");
    VerbIs(words[0], "say");
  }

  lemma VerbIs(word: string, verb: string)
    requires verb != "" && verb[0] != '/'
    ensures Verb(word) == verb <==> word == verb || word == "/" + verb
  {
    if Verb(word) == verb && word != verb {
      assert word == "/" + word[1..];
    }
    assert ("/" + verb)[1..] == verb;
  }

  /**
   * On a server's console its own owner and the cluster's admins and owners act as
   * admins, everyone else as themselves.
   */
  lemma ActsAs(role: string, isServerOwner: bool)
    ensures
      var r := ConsoleRole(role, isServerOwner);
      r == (if isServerOwner || role == "owner" || role == "admin" then "admin" else role)
      && RoleWeight("owner") > RoleWeight("admin") > RoleWeight("moderator") > RoleWeight("user") > 0
  {}

  /** Lower-casing ASCII letters is one such function. */
  function AsciiLower(c: char): char {
    if 'A' <= c <= 'Z' then ((c as int) + 32) as char else c
  }

  lemma AsciiLowerIsLowering()
    ensures IsLowering(AsciiLower)
  {}
}
