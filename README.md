# greg-nostr-bot: configuration parsing, rule selection and command dispatch

The bot (`src/main.rs`) is a command-line program. It reads two local files
and then runs one command chosen by its first argument. It reads:

- `relays.txt`: a list of relay endpoints, one per line;
- `.env`: `KEY=value` lines, from which it needs `API_KEY` and `BEARER_TOKEN`.

The commands open the upstream post stream, list the stream's filter rules,
or create or delete the filter rule for one of two hard-coded accounts.

This project models the sequential logic of that program in Dafny. The HTTP
work is not modelled. The model has five modules:

- `Wrappers`: `Option` and `Result`. Every `unwrap` that can panic in the
  source becomes an `Err` value here, so its failure condition can be stated.
- `Text`: Rust's `str::lines`, written as `Lines`. It splits at `'\n'`,
  drops the one empty piece a final `'\n'` leaves, and strips one trailing
  `'\r'` from every line. `Split` and `Join` are the helpers it is built from
  and proved against.
- `Config`: `read_env` and `read_relays`, working on the file contents.
  `ReadEnv` and `ReadRelays` are methods whose loops build the map (by
  insertion) and the list (by appending), as the source does. Each is proved
  equal to a specification function (`ParseEnv`, `Lines`), and the
  properties are proved as lemmas about those functions.
- `Rules`: the rule record, the body of the create request for a user, the
  search for the first rule carrying the user's tag, and the body of the
  delete request.
- `Cli`: the `match` on the first argument, and `Run`, which follows `main`
  from reading the files to the request the chosen command sends.

## Model

| member | source | states |
|---|---|---|
| `Text.Lines` | src/main.rs:207 | `contents.lines()`, as used by both loops (also src/main.rs:221). Empty contents, and only those, have no lines. |
| `Text.LinesFree` | src/main.rs:221-223 | No line `str::lines` yields, and so no relay entry, contains `'\n'`. |
| `Text.LinesCount` | src/main.rs:221-223 | There is one line per `'\n'` in the contents, plus one for any unterminated text after the last `'\n'`. Blank lines count as lines. |
| `Text.LinesConcat` | src/main.rs:221-223 | The lines of `p + "\n" + q` are the lines of `p + "\n"` followed by the lines of `q`, so lines keep their file order. |
| `Text.LinesLeadingBlank` | src/main.rs:221-223 | A blank line is kept as an empty string: the lines of `"\n" + q` are `""` followed by the lines of `q`. |
| `Text.LinesJoin` | src/main.rs:216-224 | For contents without `'\r'`, joining the lines with `'\n'` gives back the contents minus at most one trailing `'\n'`. |
| `Text.LinesOfJoined` | src/main.rs:216-224 | Writing non-empty lists of entries free of `'\n'` and `'\r'` one per line and reading them back gives the same entries. |
| `Config.Key` | src/main.rs:208-209 | The first part of `splitn(2, '=')`: the longest prefix of the line without `'='`. It is the whole line or is followed by `'='`. |
| `Config.Value` | src/main.rs:208-210 | The second part of `splitn(2, '=')`: everything after the first `'='`, so the key, `'='` and the value make up the line. It is empty when the line has no `'='`. |
| `Config.KeyValue` | src/main.rs:208-210 | `splitn(2, '=')` followed by the two `unwrap`s: the result is `None` (the value `unwrap` panics) exactly when the line has no `'='`. |
| `Config.KeyValueSpec` | src/main.rs:208-210 | A line yields `(k, v)` exactly when it reads `k + "=" + v` with no `'='` in `k`. The key ends at the first `'='`; any later `'='` stays in the value. |
| `Config.ParseEnv` | src/main.rs:203-213 | The map the insertion loop builds over the lines, or the line where it stops. An error always names an existing line that has no `'='`. |
| `Config.ParseEnvFails` | src/main.rs:207-210 | Parsing succeeds exactly when every line contains `'='`. On failure, the error names the first line without one. |
| `Config.BlankLineFails` | src/main.rs:207-210 | A blank line between two entries of `.env` makes `read_env` fail; it is not skipped. |
| `Config.ParseEnvKeys` | src/main.rs:203-211 | The keys of the parsed map are exactly the keys of the lines, and nothing else. |
| `Config.ParseEnvLastWins` | src/main.rs:207-211 | For a repeated key, the map holds the value from the last line with that key. |
| `Config.ReadEnv` | src/main.rs:202-214 | The insertion loop over `contents.lines()` returns `ParseEnv(Lines(contents))`. |
| `Config.ReadRelays` | src/main.rs:216-225 | The push loop over `contents.lines()` returns exactly `Lines(contents)`: one entry per line, in file order. |
| `Rules.UserTag` | src/main.rs:131 | `format!("from {}", user)`, the tag the search compares against (and the tag set at src/main.rs:178). It is `user` behind the five characters `"from "`. |
| `Rules.UserRule` | src/main.rs:176-179 | The rule for `user` has tag `UserTag(user)`, which is `"from " + user`. Its value has the same length, starts with `"from:"` and ends with `user`. |
| `Rules.CreateRequest` | src/main.rs:174-182 | The create body adds exactly one rule: the rule for `user`. |
| `Rules.UserTagInjective` | src/main.rs:131 | Different users have different tags, so the tag search for one user never picks another user's rule. |
| `Rules.FindTagged` | src/main.rs:129-132 | The `find` gives the index of the first rule with the tag: that rule carries the tag and no earlier rule does. It gives `None` exactly when no rule carries the tag. |
| `Rules.DeleteUserRequest` | src/main.rs:129-148 | The delete body carries exactly one id: that of the first rule tagged `"from " + user`. It fails (the `unwrap` panics) exactly when no rule carries that tag. |
| `Rules.CreateThenDelete` | src/main.rs:174-181 | Create and delete agree: once the rule created for `user` is listed, under any id, deleting for `user` succeeds (the search is at line 131). |
| `Rules.CreateThenDeleteSelects` | src/main.rs:129-134 | If no earlier rule carries the user's tag, deleting picks exactly the id of the created rule. Later rules, even with the same tag, are not included. |
| `Cli.Dispatch` | src/main.rs:35-53 | A word selects a command exactly when it is one of the six recognised words, and the command gives back that word. Rule commands use only `"greg16676935420"` or `"alecchendev"`. |
| `Cli.DispatchWord` | src/main.rs:43-52 | Each command with a word is the command that word selects: `create_greg`/`delete_greg` always use `"greg16676935420"` and `create_alec`/`delete_alec` always use `"alecchendev"`. |
| `Cli.CommandOf` | src/main.rs:31-35 | A missing first argument counts as `""` and selects no command. Any command selected comes from a recognised first argument. |
| `Cli.Run` | src/main.rs:18-56 | `main` fails on a malformed `.env`. Otherwise it fails unless the map has `API_KEY`, then unless it has `BEARER_TOKEN`. A delete with both credentials present fails with `NoRuleForUser(user)` exactly when no listed rule has the user's tag. On success the session holds the relay lines and both credentials, and the action is the request the command sends. |

## Left out

- HTTP requests are not modelled: the hyper client, TLS connector, bearer headers, status checks and body buffering in `get_stream`, `get_stream_rules`, `delete_stream_rule` and `create_only_user_stream_rule`. They are network I/O through foreign libraries. `Run` returns the action the command ends in. The rules the rules endpoint lists are a parameter of `Run`.
- Opening and reading `.env` and `relays.txt` (`File::open`, `read_to_string`) is file I/O. The model starts from the file contents as a string, so read failures are not modelled.
- JSON is not modelled: `serde_json` parsing, the `expect` on a non-array `data` field and on a rule that does not deserialise (src/main.rs:120-127), and the `json!` serialisation of request bodies. Rules and request bodies are records.
- `println!` logging (including "No command found") and the tokio runtime are left out. An unrecognised command is the action `NoAction`.
- Panics (`unwrap`) and propagated errors (`?`) both end the process. The model turns both into `Err` values. `EnvError` also records the 0-based index of the offending line, which the panic message does not carry.
- `PRIVATE_KEY` and any other `.env` key besides `API_KEY` and `BEARER_TOKEN` are not used by the program. The model keeps them in the map like any other key.
- The relay list is read but not used further by the program. `get_stream` buffers the whole response and parses it once (src/main.rs:73-77); that is part of the HTTP work above.
- `Text.Lines`: a final unterminated line ending in a bare `'\r'` loses that `'\r'`. This matches the older Rust `str::lines`; newer Rust keeps a bare `'\r'` on an unterminated last line.
- `Text.LinesJoin`: states the round trip only for contents without `'\r'`, because `lines()` strips a `'\r'` before each `'\n'`.
