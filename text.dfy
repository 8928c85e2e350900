/**
 * The slice of Rust's string library the bot relies on: `str::lines`
 * (used on the `.env` and `relays.txt` contents) and splitting at the first
 * occurrence of a character (`str::splitn(2, c)`).
 */
module Text {

  /** Position of the first `c` in `s`, or `|s|` when `s` has none. */
  function IndexOf(s: string, c: char): (i: nat)
    ensures i <= |s|
    ensures i < |s| ==> s[i] == c
    ensures forall j :: 0 <= j < i ==> s[j] != c
  {
    if s == [] then 0
    else if s[0] == c then 0
    else 1 + IndexOf(s[1..], c)
  }

  /** Splitting at `c` finds the `c` that follows a `c`-free prefix. */
  lemma {:induction false} IndexOfAfter(a: string, c: char, b: string)
    requires c !in a
    ensures IndexOf(a + [c] + b, c) == |a|
  {
    if a != [] {
      assert (a + [c] + b)[1..] == a[1..] + [c] + b;
      IndexOfAfter(a[1..], c, b);
    }
  }

  /** The pieces of `s` between occurrences of `sep` (Rust's `str::split`). */
  function Split(s: string, sep: char): (parts: seq<string>)
    ensures |parts| >= 1
    decreases |s|
  {
    if s == [] then [""]
    else
      var rest := Split(s[1..], sep);
      if s[0] == sep then [""] + rest else [[s[0]] + rest[0]] + rest[1..]
  }

  /** Unfolding `Split` once at the first character. */
  lemma SplitCons(c: char, t: string, sep: char)
    ensures var rest := Split(t, sep);
            Split([c] + t, sep) == if c == sep then [""] + rest else [[c] + rest[0]] + rest[1..]
  {
    assert ([c] + t)[1..] == t;
  }

  /** No piece contains the separator. */
  lemma {:induction false} SplitPieceFree(s: string, sep: char, k: nat)
    requires k < |Split(s, sep)|
    ensures sep !in Split(s, sep)[k]
    decreases |s|
  {
    if s != [] {
      var c, t := s[0], s[1..];
      assert s == [c] + t;
      SplitCons(c, t, sep);
      if c == sep {
        if k > 0 {
          SplitPieceFree(t, sep, k - 1);
        }
      } else {
        SplitPieceFree(t, sep, k);
      }
    }
  }

  /** Text without the separator is a single piece. */
  lemma {:induction false} SplitFree(s: string, sep: char)
    requires sep !in s
    ensures Split(s, sep) == [s]
    decreases |s|
  {
    if s != [] {
      var c, t := s[0], s[1..];
      assert s == [c] + t;
      SplitCons(c, t, sep);
      SplitFree(t, sep);
    }
  }

  /** Rust's `join`: the parts with one `sep` between neighbours. */
  function Join(parts: seq<string>, sep: char): (s: string)
  {
    if |parts| == 0 then ""
    else if |parts| == 1 then parts[0]
    else parts[0] + [sep] + Join(parts[1..], sep)
  }

  lemma {:induction false} JoinCons(a: string, rest: seq<string>, sep: char)
    requires |rest| >= 1
    ensures Join([a] + rest, sep) == a + [sep] + Join(rest, sep)
  {
    assert ([a] + rest)[1..] == rest;
  }

  lemma {:induction false} JoinSnoc(init: seq<string>, last: string, sep: char)
    requires |init| >= 1
    ensures Join(init + [last], sep) == Join(init, sep) + [sep] + last
  {
    if |init| == 1 {
      assert init + [last] == [init[0]] + [last];
    } else {
      assert init + [last] == [init[0]] + (init[1..] + [last]);
      JoinCons(init[0], init[1..] + [last], sep);
      JoinSnoc(init[1..], last, sep);
    }
  }

  /** Putting a character in front of the first piece puts it in front of the join. */
  lemma {:induction false} JoinConsHead(c: char, parts: seq<string>, sep: char)
    requires |parts| >= 1
    ensures Join([[c] + parts[0]] + parts[1..], sep) == [c] + Join(parts, sep)
  {
    if |parts| > 1 {
      JoinCons([c] + parts[0], parts[1..], sep);
      JoinCons(parts[0], parts[1..], sep);
      assert parts == [parts[0]] + parts[1..];
    }
  }

  /** Joining the pieces gives back the text that was split. */
  lemma {:induction false} JoinSplit(s: string, sep: char)
    ensures Join(Split(s, sep), sep) == s
    decreases |s|
  {
    if s != [] {
      var c, t := s[0], s[1..];
      var rest := Split(t, sep);
      assert s == [c] + t;
      SplitCons(c, t, sep);
      JoinSplit(t, sep);
      if c == sep {
        JoinCons("", rest, sep);
      } else {
        JoinConsHead(c, rest, sep);
      }
    }
  }

  /** Splitting at a `sep` the caller placed splits the two sides separately. */
  lemma {:induction false} SplitConcat(p: string, sep: char, q: string)
    ensures Split(p + [sep] + q, sep) == Split(p, sep) + Split(q, sep)
    decreases |p|
  {
    if p == [] {
      assert p + [sep] + q == [sep] + q;
      SplitCons(sep, q, sep);
    } else {
      var c, t := p[0], p[1..];
      var rest := t + [sep] + q;
      assert p + [sep] + q == [c] + rest by {
        assert p == [c] + t;
      }
      SplitConcat(t, sep, q);
      ConsConcat(c, Split(t, sep), Split(q, sep), sep);
      SplitCons(c, rest, sep);
      assert p == [c] + t;
      SplitCons(c, t, sep);
    }
  }

  /** The first-character step of `Split` distributes over appended pieces. */
  lemma ConsConcat(c: char, left: seq<string>, right: seq<string>, sep: char)
    requires |left| >= 1
    ensures var both := left + right;
            (if c == sep then [""] + both else [[c] + both[0]] + both[1..])
            == (if c == sep then [""] + left else [[c] + left[0]] + left[1..]) + right
  {
  }

  /** Splitting a join of `sep`-free pieces gives back the pieces. */
  lemma {:induction false} SplitJoin(parts: seq<string>, sep: char)
    requires |parts| >= 1
    requires forall k :: 0 <= k < |parts| ==> sep !in parts[k]
    ensures Split(Join(parts, sep), sep) == parts
  {
    SplitFree(parts[0], sep);
    if |parts| > 1 {
      SplitConcat(parts[0], sep, Join(parts[1..], sep));
      SplitJoin(parts[1..], sep);
      assert parts == [parts[0]] + parts[1..];
    }
  }

  /** The number of pieces is one more than the number of separators. */
  lemma {:induction false} SplitCount(s: string, sep: char)
    ensures |Split(s, sep)| == multiset(s)[sep] + 1
    decreases |s|
  {
    if s != [] {
      var c, t := s[0], s[1..];
      assert s == [c] + t;
      SplitCons(c, t, sep);
      SplitCount(t, sep);
      assert multiset(s) == multiset{c} + multiset(t);
    }
  }

  /** The last piece is empty exactly when `s` is empty or ends in `sep`. */
  lemma {:induction false} SplitLastEmpty(s: string, sep: char)
    ensures var parts := Split(s, sep);
            parts[|parts| - 1] == "" <==> s == [] || s[|s| - 1] == sep
    decreases |s|
  {
    if s != [] {
      var c, t := s[0], s[1..];
      var parts, rest := Split(s, sep), Split(t, sep);
      assert s == [c] + t;
      SplitCons(c, t, sep);
      SplitLastEmpty(t, sep);
      assert s[|s| - 1] == if t == [] then c else t[|t| - 1];
      if c != sep && |rest| == 1 {
        JoinSplit(t, sep);
        assert parts[|parts| - 1] == [c] + rest[0];
      } else {
        assert parts[|parts| - 1] == rest[|rest| - 1];
      }
    }
  }

  /** A line with one trailing carriage return removed, as `str::lines` does. */
  function StripCR(line: string): (r: string)
  {
    if |line| > 0 && line[|line| - 1] == '\r' then line[..|line| - 1] else line
  }

  /** `pieces` without the one empty piece a final separator leaves behind. */
  function DropTrailingEmpty(pieces: seq<string>): (r: seq<string>)
    requires |pieces| >= 1
  {
    if pieces[|pieces| - 1] == "" then pieces[..|pieces| - 1] else pieces
  }

  /** `StripCR` applied to every line. */
  function StripEach(ls: seq<string>): (r: seq<string>)
    ensures |r| == |ls|
    ensures forall k :: 0 <= k < |ls| ==> r[k] == StripCR(ls[k])
  {
    seq(|ls|, k requires 0 <= k < |ls| => StripCR(ls[k]))
  }

  /**
   * Rust's `str::lines`: split at '\n', drop the empty piece after a final
   * '\n' (so the final line ending is optional), and strip one trailing '\r'
   * from each line. Empty contents, and only those, have no lines.
   */
  function Lines(s: string): (ls: seq<string>)
    ensures ls == [] <==> s == []
  {
    StripEach(DropTrailingEmpty(Split(s, '\n')))
  }

  /** No line contains '\n'. */
  lemma {:induction false} LinesFree(s: string, k: nat)
    requires k < |Lines(s)|
    ensures '\n' !in Lines(s)[k]
  {
    var pieces := Split(s, '\n');
    SplitPieceFree(s, '\n', k);
    assert DropTrailingEmpty(pieces)[k] == pieces[k];
  }

  /** One line per '\n', plus one for unterminated text after the last '\n'. */
  lemma {:induction false} LinesCount(s: string)
    ensures |Lines(s)| == multiset(s)['\n'] + (if s == [] || s[|s| - 1] == '\n' then 0 else 1)
  {
    SplitCount(s, '\n');
    SplitLastEmpty(s, '\n');
  }

  /** Lines of text without carriage returns are exactly its '\n'-separated pieces. */
  lemma {:induction false} LinesNoCR(s: string)
    requires '\r' !in s
    ensures Lines(s) == DropTrailingEmpty(Split(s, '\n'))
  {
    var pieces := Split(s, '\n');
    var kept := DropTrailingEmpty(pieces);
    JoinSplit(s, '\n');
    forall k | 0 <= k < |kept|
      ensures StripCR(kept[k]) == kept[k]
    {
      PieceWithoutCR(pieces, k, s);
      assert kept[k] == pieces[k];
    }
  }

  lemma {:induction false} PieceWithoutCR(pieces: seq<string>, k: nat, s: string)
    requires k < |pieces| && Join(pieces, '\n') == s && '\r' !in s
    ensures '\r' !in pieces[k]
  {
    if |pieces| > 1 {
      JoinCons(pieces[0], pieces[1..], '\n');
      assert s == pieces[0] + ['\n'] + Join(pieces[1..], '\n');
      if k > 0 {
        PieceWithoutCR(pieces[1..], k - 1, Join(pieces[1..], '\n'));
      }
    }
  }

  /** `s` without one final `sep`, if it ends in one. */
  function TrimFinal(s: string, sep: char): (r: string)
  {
    if s != [] && s[|s| - 1] == sep then s[..|s| - 1] else s
  }

  /** Dropping the empty last piece of a join drops the separator before it. */
  lemma {:induction false} JoinDropTrailingEmpty(pieces: seq<string>, s: string, sep: char)
    requires |pieces| >= 1 && Join(pieces, sep) == s
    requires pieces[|pieces| - 1] == "" <==> s == [] || s[|s| - 1] == sep
    ensures Join(DropTrailingEmpty(pieces), sep) == TrimFinal(s, sep)
  {
    var n := |pieces|;
    if pieces[n - 1] == "" && n > 1 {
      var init := pieces[..n - 1];
      assert pieces == init + [""];
      JoinSnoc(init, "", sep);
      assert s[..|s| - 1] == Join(init, sep);
    }
  }

  /**
   * For text without carriage returns, joining the lines with '\n' gives the
   * text back, minus at most one trailing '\n'.
   */
  lemma {:induction false} LinesJoin(s: string)
    requires '\r' !in s
    ensures Join(Lines(s), '\n') == TrimFinal(s, '\n')
  {
    var pieces := Split(s, '\n');
    assert Join(DropTrailingEmpty(pieces), '\n') == TrimFinal(s, '\n') by {
      JoinSplit(s, '\n');
      SplitLastEmpty(s, '\n');
      JoinDropTrailingEmpty(pieces, s, '\n');
    }
    LinesNoCR(s);
  }

  /**
   * Writing lines free of '\n' and '\r' one per line, each ended by '\n',
   * and reading the text back gives the same lines.
   */
  lemma {:induction false} LinesOfJoined(ls: seq<string>)
    requires |ls| >= 1
    requires forall k :: 0 <= k < |ls| ==> '\n' !in ls[k] && '\r' !in ls[k]
    ensures Lines(Join(ls, '\n') + "\n") == ls
  {
    var text := Join(ls, '\n');
    assert Split(text + "\n", '\n') == ls + [""] by {
      assert text + "\n" == text + ['\n'] + "";
      SplitConcat(text, '\n', "");
      SplitJoin(ls, '\n');
      assert Split("", '\n') == [""];
    }
    assert DropTrailingEmpty(ls + [""]) == ls;
    forall k | 0 <= k < |ls|
      ensures StripCR(ls[k]) == ls[k]
    {
      if |ls[k]| > 0 {
        assert ls[k][|ls[k]| - 1] in ls[k];
      }
    }
  }

  lemma {:induction false} DropTrailingEmptyConcat(a: seq<string>, b: seq<string>)
    requires |b| >= 1
    ensures DropTrailingEmpty(a + b) == a + DropTrailingEmpty(b)
  {
    if b[|b| - 1] == "" {
      assert (a + b)[..|a + b| - 1] == a + b[..|b| - 1];
    }
  }

  lemma {:induction false} StripEachConcat(a: seq<string>, b: seq<string>)
    ensures StripEach(a + b) == StripEach(a) + StripEach(b)
  {
  }

  /** The lines of `p + "\n" + q` are those of `p + "\n"` followed by those of `q`. */
  lemma {:induction false} LinesConcat(p: string, q: string)
    ensures Lines(p + "\n" + q) == Lines(p + "\n") + Lines(q)
  {
    var left := Split(p, '\n');
    SplitConcat(p, '\n', q);
    SplitConcat(p, '\n', "");
    assert p + "\n" + q == p + ['\n'] + q;
    assert p + "\n" == p + ['\n'] + "";
    assert Split("", '\n') == [""];
    DropTrailingEmptyConcat(left, Split(q, '\n'));
    DropTrailingEmptyConcat(left, [""]);
    assert DropTrailingEmpty([""]) == [];
    assert left + [] == left;
    StripEachConcat(left, DropTrailingEmpty(Split(q, '\n')));
  }

  lemma {:induction false} LinesOfNewline()
    ensures Lines("\n") == [""]
  {
    var e: string := "";
    assert "\n" == ['\n'] + e;
    SplitCons('\n', e, '\n');
  }

  /** An empty first line is kept as an empty line. */
  lemma {:induction false} LinesLeadingBlank(q: string)
    ensures Lines("\n" + q) == [""] + Lines(q)
  {
    var e: string := "";
    assert e + "\n" + q == "\n" + q;
    assert e + "\n" == "\n";
    LinesConcat(e, q);
    LinesOfNewline();
  }
}
