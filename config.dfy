/**
 * Reading the bot's two local configuration files, given their contents:
 * `.env` (key/value pairs, `read_env`) and `relays.txt` (one relay
 * endpoint per line, `read_relays`).
 */
module Config {
  import opened Wrappers
  import opened Text

  /** The text before the first '=' of a line (the whole line when it has none). */
  function Key(line: string): (k: string)
    ensures |k| <= |line| && line[..|k|] == k && '=' !in k
    ensures |k| < |line| ==> line[|k|] == '='
  {
    line[..IndexOf(line, '=')]
  }

  /** The text after the first '=' of a line (empty when it has none). */
  function Value(line: string): (v: string)
    ensures '=' in line ==> |Key(line)| + 1 + |v| == |line| && line[|Key(line)| + 1..] == v
    ensures '=' !in line ==> v == ""
  {
    var i := IndexOf(line, '=');
    if i < |line| then line[i + 1..] else ""
  }

  /**
   * `line.splitn(2, '=')` followed by two `unwrap`s: the key and the value,
   * or `None` where the second `unwrap` panics.
   */
  function KeyValue(line: string): (kv: Option<(string, string)>)
    ensures kv.None? <==> '=' !in line
  {
    if '=' in line then Some((Key(line), Value(line))) else None
  }

  /**
   * A line splits into `(k, v)` exactly when it reads `k + "=" + v` with no
   * '=' in `k`: the key ends at the first '=', later '=' stay in the value.
   */
  lemma {:induction false} KeyValueSpec(line: string, k: string, v: string)
    ensures KeyValue(line) == Some((k, v)) <==> line == k + "=" + v && '=' !in k
  {
    var i := IndexOf(line, '=');
    if KeyValue(line) == Some((k, v)) {
      assert line == line[..i] + "=" + line[i + 1..];
    }
    if line == k + "=" + v && '=' !in k {
      IndexOfAfter(k, '=', v);
      assert line[..|k|] == k;
      assert line[|k| + 1..] == v;
    }
  }

  /** The panic `read_env` hits: the value `unwrap` on a line with no '='. */
  datatype EnvError = MissingSeparator(line: nat)

  /**
   * The map `read_env` builds from the lines of `.env`: each line inserted
   * in turn, so a later line with the same key overwrites an earlier one;
   * the first line with no '=' aborts (its 0-based index is recorded).
   * An error always names an existing line that has no '='.
   */
  function ParseEnv(lines: seq<string>): (r: Result<map<string, string>, EnvError>)
    ensures r.Err? ==> r.error.line < |lines| && '=' !in lines[r.error.line]
  {
    if lines == [] then Ok(map[])
    else
      var n := |lines| - 1;
      match ParseEnv(lines[..n])
      case Err(e) => Err(e)
      case Ok(env) =>
        match KeyValue(lines[n])
        case None => Err(MissingSeparator(n))
        case Some(kv) => Ok(env[kv.0 := kv.1])
  }

  /** One more line, parsed on top of a prefix that parsed. */
  lemma ParseEnvStep(lines: seq<string>, i: nat)
    requires i < |lines| && ParseEnv(lines[..i]).Ok?
    ensures ParseEnv(lines[..i + 1]) == match KeyValue(lines[i])
      case None => Err(MissingSeparator(i))
      case Some(kv) => Ok(ParseEnv(lines[..i]).value[kv.0 := kv.1])
  {
    assert lines[..i + 1][..i] == lines[..i];
  }

  /** One more line after a prefix that failed: the same failure. */
  lemma ParseEnvErrStep(lines: seq<string>, i: nat)
    requires i < |lines| && ParseEnv(lines[..i]).Err?
    ensures ParseEnv(lines[..i + 1]) == ParseEnv(lines[..i])
  {
    assert lines[..i + 1][..i] == lines[..i];
  }

  /** Once a prefix has failed, every longer input fails the same way. */
  lemma {:induction false} ParseEnvErrExtends(lines: seq<string>, m: nat)
    requires m <= |lines| && ParseEnv(lines[..m]).Err?
    ensures ParseEnv(lines) == ParseEnv(lines[..m])
    decreases |lines| - m
  {
    if m < |lines| {
      ParseEnvErrStep(lines, m);
      ParseEnvErrExtends(lines, m + 1);
    } else {
      assert lines[..m] == lines;
    }
  }

  /**
   * Parsing fails exactly when some line has no '=' (a blank line included),
   * and the error names the first such line.
   */
  lemma {:induction false} ParseEnvFails(lines: seq<string>)
    ensures ParseEnv(lines).Ok? <==> forall j :: 0 <= j < |lines| ==> '=' in lines[j]
    ensures ParseEnv(lines).Err? ==>
              var i := ParseEnv(lines).error.line;
              i < |lines| && '=' !in lines[i] && forall j :: 0 <= j < i ==> '=' in lines[j]
  {
    if lines != [] {
      var n := |lines| - 1;
      var init := lines[..n];
      ParseEnvFails(init);
      assert lines[..n + 1] == lines;
      if ParseEnv(init).Err? {
        ParseEnvErrStep(lines, n);
        var i := ParseEnv(init).error.line;
        assert init[i] == lines[i];
        assert '=' !in lines[i];
        assert forall j :: 0 <= j < i ==> init[j] == lines[j];
      } else {
        ParseEnvStep(lines, n);
        assert forall j :: 0 <= j < n ==> init[j] == lines[j];
        if '=' in lines[n] {
          assert ParseEnv(lines).Ok?;
        } else {
          assert ParseEnv(lines) == Err(MissingSeparator(n));
        }
      }
    }
  }

  /** The keys of `init + [x]`: those of `init` and the key of `x`. */
  lemma LineKeysSnoc(init: seq<string>, x: string)
    ensures (set line | line in init + [x] :: Key(line)) == (set line | line in init :: Key(line)) + {Key(x)}
  {
  }

  /** The keys of the parsed map are exactly the keys of the lines. */
  lemma {:induction false} ParseEnvKeys(lines: seq<string>, env: map<string, string>)
    requires ParseEnv(lines) == Ok(env)
    ensures env.Keys == set line | line in lines :: Key(line)
  {
    if lines != [] {
      var n := |lines| - 1;
      var init, x := lines[..n], lines[n];
      assert ParseEnv(init).Ok?;
      var before := ParseEnv(init).value;
      assert env == before[Key(x) := Value(x)];
      ParseEnvKeys(init, before);
      assert lines == init + [x];
      LineKeysSnoc(init, x);
    }
  }

  /** For a repeated key, the value from the last line with that key wins. */
  lemma {:induction false} ParseEnvLastWins(lines: seq<string>, env: map<string, string>, i: nat)
    requires ParseEnv(lines) == Ok(env)
    requires i < |lines|
    requires forall j :: i < j < |lines| ==> Key(lines[j]) != Key(lines[i])
    ensures Key(lines[i]) in env && env[Key(lines[i])] == Value(lines[i])
  {
    var n := |lines| - 1;
    var before :| ParseEnv(lines[..n]) == Ok(before);
    if i < n {
      ParseEnvLastWins(lines[..n], before, i);
    }
  }

  lemma BlankLineAsTwoBreaks(before: string, after: string)
    ensures before + "\n\n" + after == before + "\n" + ("\n" + after)
  {
  }

  /** A blank line between two entries of `.env` makes `read_env` fail. */
  lemma {:induction false} BlankLineFails(before: string, after: string)
    ensures ParseEnv(Lines(before + "\n\n" + after)).Err?
  {
    var rest := "\n" + after;
    BlankLineAsTwoBreaks(before, after);
    LinesConcat(before, rest);
    LinesLeadingBlank(after);
    var lines := Lines(before + "\n" + rest);
    var k := |Lines(before + "\n")|;
    assert lines[k] == "";
    ParseEnvFails(lines);
  }

  /**
   * `read_env` after the file has been read into `contents`: a `HashMap`
   * filled by `insert` in a loop over the lines.
   */
  method ReadEnv(contents: string) returns (r: Result<map<string, string>, EnvError>)
    ensures r == ParseEnv(Lines(contents))
  {
    var lines := Lines(contents);
    var env: map<string, string> := map[];
    for i := 0 to |lines|
      invariant ParseEnv(lines[..i]) == Ok(env)
    {
      ParseEnvStep(lines, i);
      match KeyValue(lines[i]) {
        case None =>
          r := Err(MissingSeparator(i));
          ParseEnvErrExtends(lines, i + 1);
          return;
        case Some(kv) =>
          env := env[kv.0 := kv.1];
      }
    }
    assert lines[..|lines|] == lines;
    r := Ok(env);
  }

  /**
   * `read_relays` after the file has been read into `contents`: one entry
   * pushed per line, in file order.
   */
  method ReadRelays(contents: string) returns (relays: seq<string>)
    ensures relays == Lines(contents)
  {
    var lines := Lines(contents);
    relays := [];
    for i := 0 to |lines|
      invariant relays == lines[..i]
    {
      assert lines[..i + 1] == lines[..i] + [lines[i]];
      relays := relays + [lines[i]];
    }
    assert lines[..|lines|] == lines;
  }
}
