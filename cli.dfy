/**
 * The bot's entry point: startup (relay list, `.env`, the two credentials)
 * followed by a dispatch on the first command-line argument. The HTTP
 * requests themselves are not modelled; an action says which request the
 * chosen command sends and with which body.
 */
module Cli {
  import opened Wrappers
  import opened Text
  import opened Config
  import opened Rules

  /** The two accounts the bot has commands for. */
  const Greg := "greg16676935420"
  const Alec := "alecchendev"

  /** The words the `match` in `main` recognises. */
  const Words: set<string> :=
    {"get_stream", "get_rules", "create_greg", "create_alec", "delete_greg", "delete_alec"}

  /** The `.env` keys `main` unwraps. */
  const ApiKeyName := "API_KEY"
  const BearerTokenName := "BEARER_TOKEN"

  datatype Command =
    | GetStream
    | GetRules
    | CreateUserRule(user: string)
    | DeleteUserRule(user: string)
    | NoCommand

  /** The word that selects a command, if there is one. */
  function Word(c: Command): (w: Option<string>)
  {
    match c
    case GetStream => Some("get_stream")
    case GetRules => Some("get_rules")
    case CreateUserRule(u) =>
      if u == Greg then Some("create_greg") else if u == Alec then Some("create_alec") else None
    case DeleteUserRule(u) =>
      if u == Greg then Some("delete_greg") else if u == Alec then Some("delete_alec") else None
    case NoCommand => None
  }

  /**
   * The `match arg.as_str()` in `main`: each recognised word selects one
   * command (the word is recovered from it), with a hard-coded user for the
   * rule commands; anything else selects no command.
   */
  function Dispatch(arg: string): (c: Command)
    ensures c == NoCommand <==> arg !in Words
    ensures Word(c) == if arg in Words then Some(arg) else None
    ensures (c.CreateUserRule? || c.DeleteUserRule?) ==> c.user in {Greg, Alec}
  {
    if arg == "get_stream" then GetStream
    else if arg == "get_rules" then GetRules
    else if arg == "create_greg" then CreateUserRule(Greg)
    else if arg == "create_alec" then CreateUserRule(Alec)
    else if arg == "delete_greg" then DeleteUserRule(Greg)
    else if arg == "delete_alec" then DeleteUserRule(Alec)
    else NoCommand
  }

  /** Every command that has a word is the one that word selects. */
  lemma DispatchWord(c: Command)
    requires Word(c).Some?
    ensures Dispatch(Word(c).value) == c
  {
  }

  /**
   * The command for the process arguments: `args.get(1)`, defaulting to the
   * empty string, which selects nothing.
   */
  function CommandOf(args: seq<string>): (c: Command)
    ensures |args| <= 1 ==> c == NoCommand
    ensures c != NoCommand ==> |args| > 1 && args[1] in Words
  {
    Dispatch(if |args| > 1 then args[1] else "")
  }

  /** The request a command ends in. */
  datatype Action =
    | StreamRead
    | ListRules
    | SendAdd(add: AddRequest)
    | SendDelete(delete: DeleteRequest)
    | NoAction

  /** What `main` has in hand once it has chosen an action. */
  datatype Session = Session(relays: seq<string>, apiKey: string, bearerToken: string, action: Action)

  /** The ways `main` stops before sending its request. */
  datatype Failure =
    | BadEnv(env: EnvError)
    | MissingApiKey
    | MissingBearerToken
    | DeleteFailed(delete: DeleteError)

  /**
   * `main`, given the contents of `relays.txt` and `.env`, the process
   * arguments and, for a delete command, the rules the rules endpoint lists.
   * Startup fails on a malformed `.env` and unless it holds both `API_KEY`
   * and `BEARER_TOKEN` (checked in that order); a delete fails when no listed
   * rule carries the user's tag.
   */
  method Run(relaysFile: string, envFile: string, args: seq<string>, listed: seq<Rule>)
    returns (r: Result<Session, Failure>)
    ensures ParseEnv(Lines(envFile)).Err? ==> r == Err(BadEnv(ParseEnv(Lines(envFile)).error))
    ensures ParseEnv(Lines(envFile)).Ok? ==>
      var env := ParseEnv(Lines(envFile)).value;
      && (r == Err(MissingApiKey) <==> ApiKeyName !in env)
      && (r == Err(MissingBearerToken) <==> ApiKeyName in env && BearerTokenName !in env)
    ensures r.Ok? <==>
      && ParseEnv(Lines(envFile)).Ok?
      && ApiKeyName in ParseEnv(Lines(envFile)).value
      && BearerTokenName in ParseEnv(Lines(envFile)).value
      && (CommandOf(args).DeleteUserRule? ==> DeleteUserRequest(listed, CommandOf(args).user).Ok?)
    ensures
      && ParseEnv(Lines(envFile)).Ok?
      && ApiKeyName in ParseEnv(Lines(envFile)).value
      && BearerTokenName in ParseEnv(Lines(envFile)).value
      && CommandOf(args).DeleteUserRule?
      && DeleteUserRequest(listed, CommandOf(args).user).Err?
      ==> r == Err(DeleteFailed(NoRuleForUser(CommandOf(args).user)))
    ensures r.Ok? ==>
      var env := ParseEnv(Lines(envFile)).value;
      && r.value.relays == Lines(relaysFile)
      && r.value.apiKey == env[ApiKeyName]
      && r.value.bearerToken == env[BearerTokenName]
    ensures r.Ok? && CommandOf(args) == GetStream ==> r.value.action == StreamRead
    ensures r.Ok? && CommandOf(args) == GetRules ==> r.value.action == ListRules
    ensures r.Ok? && CommandOf(args).CreateUserRule? ==>
      r.value.action == SendAdd(CreateRequest(CommandOf(args).user))
    ensures r.Ok? && CommandOf(args).DeleteUserRule? ==>
      r.value.action.SendDelete? && Ok(r.value.action.delete) == DeleteUserRequest(listed, CommandOf(args).user)
    ensures r.Ok? && CommandOf(args) == NoCommand ==> r.value.action == NoAction
  {
    var relays := ReadRelays(relaysFile);
    var parsed := ReadEnv(envFile);
    if parsed.Err? {
      return Err(BadEnv(parsed.error));
    }
    var env := parsed.value;
    if ApiKeyName !in env {
      return Err(MissingApiKey);
    }
    if BearerTokenName !in env {
      return Err(MissingBearerToken);
    }
    var apiKey, bearerToken := env[ApiKeyName], env[BearerTokenName];
    var command := CommandOf(args);
    var action: Action;
    match command {
      case GetStream => action := StreamRead;
      case GetRules => action := ListRules;
      case CreateUserRule(u) => action := SendAdd(CreateRequest(u));
      case DeleteUserRule(u) =>
        var request := DeleteUserRequest(listed, u);
        if request.Err? {
          return Err(DeleteFailed(request.error));
        }
        action := SendDelete(request.value);
      case NoCommand => action := NoAction;
    }
    r := Ok(Session(relays, apiKey, bearerToken, action));
  }
}
