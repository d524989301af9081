/** `loadEnvFile` and `stripWrappingQuotes` of server.js: a `.env` file is
    split into lines, each line that assigns `KEY=value` is parsed, and the
    assignments are written into the process environment in line order. */
module EnvFile {
  import opened Common
  import opened JsString

  /** `content.split(/\r?\n/)`: the text between line breaks, where a line
      break is `\n` together with a `\r` just before it, if any. */
  function SplitLines(content: string): (lines: seq<string>)
    ensures |lines| >= 1
    ensures forall i :: 0 <= i < |lines| ==> '\n' !in lines[i]
    decreases |content|
  {
    match IndexOf(content, '\n')
    case None => [content]
    case Some(i) =>
      var line := if i > 0 && content[i - 1] == '\r' then content[..i - 1] else content[..i];
      assert line <= content[..i];
      [line] + SplitLines(content[i + 1..])
  }

  /** The lines written one after the other with `sep` between them. */
  function JoinLines(lines: seq<string>, sep: string): (text: string)
    requires |lines| >= 1
    ensures |text| >= |lines[0]| && text[..|lines[0]|] == lines[0]
  {
    if |lines| == 1 then lines[0] else lines[0] + sep + JoinLines(lines[1..], sep)
  }

  /** Text without `\n` is a single line. */
  lemma SplitSingle(line: string)
    requires '\n' !in line
    ensures SplitLines(line) == [line]
  {
    assert IndexOf(line, '\n').None?;
  }

  /** The first line break of `line + "\r\n" + rest` is that `\r\n`. */
  lemma SplitAtCrLf(line: string, rest: string)
    requires '\n' !in line
    ensures SplitLines(line + "\r\n" + rest) == [line] + SplitLines(rest)
  {
    var s := line + "\r\n" + rest;
    var p := |line| + 1;
    assert s[|line|] == '\r' && s[p] == '\n';
    forall m | 0 <= m < p
      ensures s[m] != '\n'
    {
      if m < |line| {
        assert s[m] == line[m] && line[m] in line;
      }
    }
    IndexOfAt(s, '\n', p);
    assert s[p + 1..] == rest;
    assert s[..p - 1] == line;
  }

  /** The first line break of `line + "\n" + rest` is that `\n`, and it
      takes no `\r` with it when `line` does not end in one. */
  lemma SplitAtLf(line: string, rest: string)
    requires '\n' !in line
    requires line == [] || line[|line| - 1] != '\r'
    ensures SplitLines(line + "\n" + rest) == [line] + SplitLines(rest)
  {
    var s := line + "\n" + rest;
    var p := |line|;
    assert s[p] == '\n';
    forall m | 0 <= m < p
      ensures s[m] != '\n'
    {
      assert s[m] == line[m] && line[m] in line;
    }
    IndexOfAt(s, '\n', p);
    assert p > 0 ==> s[p - 1] == line[p - 1];
    assert s[p + 1..] == rest;
    assert s[..p] == line;
  }

  /** Lines joined with `\r\n` split back into the same lines. */
  lemma {:induction false} SplitJoinCrLf(lines: seq<string>)
    requires |lines| >= 1
    requires forall i :: 0 <= i < |lines| ==> '\n' !in lines[i]
    ensures SplitLines(JoinLines(lines, "\r\n")) == lines
    decreases |lines|
  {
    if |lines| == 1 {
      SplitSingle(lines[0]);
    } else {
      var rest := JoinLines(lines[1..], "\r\n");
      assert JoinLines(lines, "\r\n") == lines[0] + "\r\n" + rest;
      SplitAtCrLf(lines[0], rest);
      SplitJoinCrLf(lines[1..]);
      assert lines == [lines[0]] + lines[1..];
    }
  }

  /** Lines joined with `\n` split back into the same lines, unless a line
      followed by a break ends in `\r` (that `\r` joins the break). */
  lemma {:induction false} SplitJoinLf(lines: seq<string>)
    requires |lines| >= 1
    requires forall i :: 0 <= i < |lines| ==> '\n' !in lines[i]
    requires forall i :: 0 <= i < |lines| - 1 ==> lines[i] == [] || lines[i][|lines[i]| - 1] != '\r'
    ensures SplitLines(JoinLines(lines, "\n")) == lines
    decreases |lines|
  {
    if |lines| == 1 {
      SplitSingle(lines[0]);
    } else {
      var rest := JoinLines(lines[1..], "\n");
      assert JoinLines(lines, "\n") == lines[0] + "\n" + rest;
      SplitAtLf(lines[0], rest);
      SplitJoinLf(lines[1..]);
      assert lines == [lines[0]] + lines[1..];
    }
  }

  const LineA: string := "A=1"
  const LineB: string := "B=2"

  /** A file written on Windows: `\r` does not stay on the line. */
  lemma CrLfFileSplitsCleanly()
    ensures SplitLines(LineA + "\r\n" + LineB) == [LineA, LineB]
  {
    assert '\n' !in LineA && '\n' !in LineB;
    SplitAtCrLf(LineA, LineB);
    SplitSingle(LineB);
  }

  /** The value begins and ends with the same quote character. */
  predicate WrappedInQuotes(value: string) {
    |value| >= 1 && (value[0] == '"' || value[0] == '\'') && value[|value| - 1] == value[0]
  }

  /** `stripWrappingQuotes(value)`: `value.slice(1, -1)` when the value
      starts and ends with `"`, or starts and ends with `'`. A lone quote
      character is both its first and its last, and gives the empty string. */
  function StripWrappingQuotes(value: string): (r: string)
    ensures !WrappedInQuotes(value) ==> r == value
    ensures WrappedInQuotes(value) ==> |r| == if |value| == 1 then 0 else |value| - 2
    ensures WrappedInQuotes(value) ==> r <= value[1..]
  {
    if (StartsWith(value, "\"") && value[|value| - 1] == '"')
       || (StartsWith(value, "'") && value[|value| - 1] == '\'') then
      if |value| == 1 then "" else value[1..|value| - 1]
    else value
  }

  /** Stripping undoes wrapping in matching quotes, whatever the inside holds. */
  lemma StripWrappingQuotesUnwraps(q: char, inner: string)
    requires q == '"' || q == '\''
    ensures StripWrappingQuotes([q] + inner + [q]) == inner
  {
    var v := [q] + inner + [q];
    assert v[1..|v| - 1] == inner;
  }

  /** Different quotes at the two ends are kept. */
  lemma MismatchedQuotesKept(inner: string)
    ensures StripWrappingQuotes(['"'] + inner + ['\'']) == ['"'] + inner + ['\'']
  {
  }

  /** One `KEY=value` assignment. */
  datatype Entry = Entry(key: string, value: string)

  /** The per-line rules of the `loadEnvFile` loop: trim; skip blank lines
      and comments; skip lines whose first `=` is missing or in first
      position; the key is the trimmed text before that `=` (skipped if
      empty) and the value the trimmed, quote-stripped text after it. */
  function ParseLine(line: string): (e: Option<Entry>)
    ensures e.Some? ==> e.value.key != [] && '=' !in e.value.key
  {
    var trimmed := Trim(line);
    if trimmed == [] || StartsWith(trimmed, "#") then None
    else
      match IndexOf(trimmed, '=')
      case None => None
      case Some(separatorIndex) =>
        if separatorIndex == 0 then None
        else
          var key := Trim(trimmed[..separatorIndex]);
          var rawValue := Trim(trimmed[separatorIndex + 1..]);
          if key == [] then None
          else Some(Entry(key, StripWrappingQuotes(rawValue)))
  }

  /** Which lines are skipped, and what a kept line's key looks like. */
  lemma ParseLineSkips(line: string)
    ensures var t := Trim(line);
              ParseLine(line).None? <==> (t == [] || t[0] == '#' || t[0] == '=' || '=' !in t)
    ensures ParseLine(line).Some? ==> ParseLine(line).value.key != [] && '=' !in ParseLine(line).value.key
  {
    var t := Trim(line);
    if t != [] {
      assert StartsWith(t, "#") <==> t[0] == '#' by {
        assert "#" <= t <==> t[..1] == "#";
      }
      if t[0] != '#' && '=' in t {
        if t[0] == '=' {
          IndexOfAt(t, '=', 0);
        } else {
          KeyNeverEmpty(line);
        }
      }
    }
  }

  /** Text that starts with a non-whitespace character keeps it when trimmed. */
  lemma TrimKeepsNonBlank(s: string)
    requires s != [] && !IsWhitespace(s[0])
    ensures Trim(s) != []
  {
    assert LeadingWhitespace(s) == 0;
  }

  /** The key of a kept line is never empty: the `!key` test of the loop never skips a line. */
  lemma KeyNeverEmpty(line: string)
    ensures var t := Trim(line);
              t != [] && t[0] != '#' && '=' in t && t[0] != '=' ==>
                var i := IndexOf(t, '=').value;
                i > 0 && Trim(t[..i]) != []
  {
    var t := Trim(line);
    if t != [] && t[0] != '#' && '=' in t && t[0] != '=' {
      var i := IndexOf(t, '=').value;
      assert t[..i][0] == t[0];
      TrimKeepsNonBlank(t[..i]);
    }
  }

  /** A line written as `key=value` parses back to that key and the value
      without its wrapping quotes, even when the value holds `=`. */
  lemma ParseAssignment(key: string, value: string)
    requires key != [] && key[0] != '#' && '=' !in key
    requires !IsWhitespace(key[0]) && !IsWhitespace(key[|key| - 1])
    requires value == [] || (!IsWhitespace(value[0]) && !IsWhitespace(value[|value| - 1]))
    ensures ParseLine(key + "=" + value) == Some(Entry(key, StripWrappingQuotes(value)))
  {
    var line := key + "=" + value;
    assert line[|line| - 1] == if value == [] then '=' else value[|value| - 1];
    TrimOfTrimmed(line);
    assert line[|key|] == '=';
    assert line[..|key|] == key;
    assert forall m :: 0 <= m < |key| ==> line[m] != '=' by {
      forall m | 0 <= m < |key| ensures line[m] != '=' {
        assert line[m] == key[m];
      }
    }
    IndexOfAt(line, '=', |key|);
    var i := |key|;
    assert line[i + 1..] == value;
    TrimOfTrimmed(key);
    TrimOfTrimmed(value);
  }

  const EqualsInValue: string := "URL=a=b"

  /** Only the first `=` separates: the rest belongs to the value. */
  lemma ValueMayHoldEquals()
    ensures ParseLine(EqualsInValue) == Some(Entry("URL", "a=b"))
  {
    assert EqualsInValue == "URL" + "=" + "a=b";
    ParseAssignment("URL", "a=b");
  }

  /** The environment after the assignments of `lines`, applied in order. */
  function ApplyLines(env: map<string, string>, lines: seq<string>): (r: map<string, string>)
    ensures env.Keys <= r.Keys
    decreases |lines|
  {
    if lines == [] then env
    else ApplyLine(ApplyLines(env, lines[..|lines| - 1]), lines[|lines| - 1])
  }

  /** The environment after the assignment of one line, if it holds one. */
  function ApplyLine(env: map<string, string>, line: string): (r: map<string, string>)
    ensures env.Keys <= r.Keys
  {
    match ParseLine(line)
    case None => env
    case Some(e) => env[e.key := e.value]
  }

  /** The line assigns `key`. */
  predicate Assigns(line: string, key: string) {
    ParseLine(line).Some? && ParseLine(line).value.key == key
  }

  /** A line that does not assign `key` leaves it as it was. */
  lemma ApplyLineElsewhere(env: map<string, string>, line: string, key: string)
    requires !Assigns(line, key)
    ensures key in ApplyLine(env, line) <==> key in env
    ensures key in env ==> ApplyLine(env, line)[key] == env[key]
  {
  }

  /** A line that assigns `key` sets it to its value. */
  lemma ApplyLineAssigns(env: map<string, string>, line: string, key: string, value: string)
    requires ParseLine(line) == Some(Entry(key, value))
    ensures ApplyLine(env, line) == env[key := value]
  {
  }

  /** The last line that assigns a key decides its value. */
  lemma {:induction false} LastAssignmentWins(env: map<string, string>, lines: seq<string>, j: int,
                                              key: string, value: string)
    requires 0 <= j < |lines| && ParseLine(lines[j]) == Some(Entry(key, value))
    requires forall i :: j < i < |lines| ==> !Assigns(lines[i], key)
    ensures key in ApplyLines(env, lines) && ApplyLines(env, lines)[key] == value
    decreases |lines|
  {
    var prefix := lines[..|lines| - 1];
    var last := lines[|lines| - 1];
    assert ApplyLines(env, lines) == ApplyLine(ApplyLines(env, prefix), last);
    if j < |lines| - 1 {
      assert prefix[j] == lines[j];
      assert forall i :: j < i < |prefix| ==> prefix[i] == lines[i];
      LastAssignmentWins(env, prefix, j, key, value);
      assert !Assigns(last, key);
      ApplyLineElsewhere(ApplyLines(env, prefix), last, key);
    } else {
      ApplyLineAssigns(ApplyLines(env, prefix), last, key, value);
    }
  }

  /** A key no line assigns keeps the value it had, or stays absent. */
  lemma {:induction false} UnassignedKeyKept(env: map<string, string>, lines: seq<string>, key: string)
    requires forall i :: 0 <= i < |lines| ==> !Assigns(lines[i], key)
    ensures key in ApplyLines(env, lines) <==> key in env
    ensures key in env ==> ApplyLines(env, lines)[key] == env[key]
    decreases |lines|
  {
    if lines != [] {
      var prefix := lines[..|lines| - 1];
      assert forall i :: 0 <= i < |prefix| ==> prefix[i] == lines[i];
      UnassignedKeyKept(env, prefix, key);
      assert !Assigns(lines[|lines| - 1], key);
    }
  }

  /** One more line is one more `ApplyLine` step. */
  lemma StepInvariant(env: map<string, string>, lines: seq<string>, n: int)
    requires 0 <= n < |lines|
    ensures ApplyLines(env, lines[..n + 1]) == ApplyLine(ApplyLines(env, lines[..n]), lines[n])
  {
    assert lines[..n + 1][..n] == lines[..n];
  }

  /** `process.env`, which `loadEnvFile` writes key by key. */
  class ProcessEnv {
    var vars: map<string, string>

    constructor (initial: map<string, string>)
      ensures vars == initial
    {
      vars := initial;
    }

    /** `loadEnvFile(envPath)`, with the file given as its content, or None
        when it does not exist. */
    method LoadEnvFile(file: Option<string>)
      modifies this
      ensures file.None? ==> vars == old(vars)
      ensures file.Some? ==> vars == ApplyLines(old(vars), SplitLines(file.value))
    {
      if file.None? {
        return;
      }
      var lines := SplitLines(file.value);
      for n := 0 to |lines|
        invariant vars == ApplyLines(old(vars), lines[..n])
      {
        StepInvariant(old(vars), lines, n);
        var line := lines[n];
        var trimmed := Trim(line);
        if trimmed == [] || StartsWith(trimmed, "#") {
          assert ParseLine(line) == None;
          continue;
        }
        var separatorIndex := IndexOf(trimmed, '=');
        if separatorIndex.None? || separatorIndex.value == 0 {
          assert ParseLine(line) == None;
          continue;
        }
        var key := Trim(trimmed[..separatorIndex.value]);
        var rawValue := Trim(trimmed[separatorIndex.value + 1..]);
        if key == [] {
          assert ParseLine(line) == None;
          continue;
        }
        assert ParseLine(line) == Some(Entry(key, StripWrappingQuotes(rawValue)));
        vars := vars[key := StripWrappingQuotes(rawValue)];
      }
      assert lines[..|lines|] == lines;
    }
  }
}
