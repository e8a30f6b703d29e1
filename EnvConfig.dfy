/** The `.env` reader `load_env_config`: each line of the file is stripped, blank
    lines, `#` comments and lines without `=` are skipped, and every other line
    is split at its first `=` into a stripped key and a stripped value; a later
    line for the same key overwrites an earlier one. The file is given as its
    sequence of lines; a missing file reads as no lines at all. */
module EnvConfig {
  import opened Wrappers
  import opened PyStrings

  /** The key and value one line of the file contributes, if any. */
  function ParseLine(raw: string): Option<(string, string)> {
    var line := Strip(raw);
    if line != [] && line[0] != '#' && '=' in line then
      var (key, value) := SplitOnce(line, '=');
      Some((Strip(key), Strip(value)))
    else
      None
  }

  /** A line is skipped exactly when it is blank, starts (after stripping) with
      `#`, or holds no `=`; otherwise it gives a stripped key without `=` and a
      stripped value. */
  lemma ParseLineMeaning(raw: string)
    ensures ParseLine(raw).None? <==> AllSpace(raw) || (Strip(raw) != [] && Strip(raw)[0] == '#') || '=' !in raw
    ensures ParseLine(raw).Some? ==>
      var (key, value) := ParseLine(raw).value;
      Stripped(key) && Stripped(value) && '=' !in key
  {
    StripEmptyIffBlank(raw);
    InStripIff(raw, '=');
    var line := Strip(raw);
    if line != [] && line[0] != '#' && '=' in line {
      var (key, value) := SplitOnce(line, '=');
      InStripIff(key, '=');
    }
  }

  /** The entry each line contributes, line by line. */
  function Parsed(lines: seq<string>): seq<Option<(string, string)>> {
    seq(|lines|, i requires 0 <= i < |lines| => ParseLine(lines[i]))
  }

  /** The dictionary built by applying `entries` in order, each one setting its key. */
  function Apply(entries: seq<Option<(string, string)>>): map<string, string> {
    if entries == [] then map[]
    else
      var config := Apply(entries[..|entries| - 1]);
      match entries[|entries| - 1]
      case None => config
      case Some((key, value)) => config[key := value]
  }

  /** The configuration `load_env_config` builds from the lines of the file. */
  function LoadEnv(lines: seq<string>): map<string, string> {
    Apply(Parsed(lines))
  }

  predicate SetsKey(entry: Option<(string, string)>, key: string) {
    entry.Some? && entry.value.0 == key
  }

  lemma {:induction false} ApplyKeys(entries: seq<Option<(string, string)>>, key: string)
    ensures key in Apply(entries) <==> exists i :: 0 <= i < |entries| && SetsKey(entries[i], key)
  {
    if entries != [] {
      var earlier := entries[..|entries| - 1];
      ApplyKeys(earlier, key);
      if key in Apply(earlier) {
        var i :| 0 <= i < |earlier| && SetsKey(earlier[i], key);
        assert SetsKey(entries[i], key);
      }
      if exists i :: 0 <= i < |entries| && SetsKey(entries[i], key) {
        var i :| 0 <= i < |entries| && SetsKey(entries[i], key);
        if i < |earlier| {
          assert SetsKey(earlier[i], key);
        }
      }
    }
  }

  lemma {:induction false} ApplyLastWins(entries: seq<Option<(string, string)>>, i: int, key: string, value: string)
    requires 0 <= i < |entries|
    requires entries[i] == Some((key, value))
    requires forall j :: i < j < |entries| ==> !SetsKey(entries[j], key)
    ensures key in Apply(entries) && Apply(entries)[key] == value
  {
    var earlier := entries[..|entries| - 1];
    if i < |earlier| {
      assert forall j :: i < j < |earlier| ==> earlier[j] == entries[j];
      ApplyLastWins(earlier, i, key, value);
    }
  }

  /** Reading one more line applies that line's entry to the configuration so far. */
  lemma LoadEnvSnoc(lines: seq<string>, raw: string)
    ensures LoadEnv(lines + [raw]) == match ParseLine(raw)
      case None => LoadEnv(lines)
      case Some((key, value)) => LoadEnv(lines)[key := value]
  {
    var entries := Parsed(lines + [raw]);
    assert entries[..|lines|] == Parsed(lines);
    assert entries[|lines|] == ParseLine(raw);
  }

  /** The keys of the configuration are exactly the keys some line defines. */
  lemma LoadEnvKeys(lines: seq<string>, key: string)
    ensures key in LoadEnv(lines) <==> exists i :: 0 <= i < |lines| && SetsKey(ParseLine(lines[i]), key)
  {
    var entries := Parsed(lines);
    assert |entries| == |lines|;
    assert forall i :: 0 <= i < |lines| ==> entries[i] == ParseLine(lines[i]);
    ApplyKeys(entries, key);
  }

  /** `load_env_config` itself: one pass over the lines, updating the dictionary. */
  method LoadEnvConfig(lines: seq<string>) returns (config: map<string, string>)
    ensures config == LoadEnv(lines)
  {
    config := map[];
    for n := 0 to |lines|
      invariant config == LoadEnv(lines[..n])
    {
      assert lines[..n + 1] == lines[..n] + [lines[n]];
      LoadEnvSnoc(lines[..n], lines[n]);
      var line := Strip(lines[n]);
      if line != [] && line[0] != '#' && '=' in line {
        var (key, value) := SplitOnce(line, '=');
        config := config[Strip(key) := Strip(value)];
      }
    }
    assert lines[..|lines|] == lines;
  }

  /** A line `key=value` written with a stripped key that holds no `=` and
      does not start a comment, and a stripped value, reads back as that entry. */
  lemma ParseLineRoundTrip(key: string, value: string)
    requires Stripped(key) && Stripped(value)
    requires '=' !in key
    requires key == [] || key[0] != '#'
    ensures ParseLine(key + "=" + value) == Some((key, value))
  {
    var line := key + "=" + value;
    assert line == key + ['='] + value;
    assert line[0] == if key == [] then '=' else key[0];
    assert line[|line| - 1] == if value == [] then '=' else value[|value| - 1];
    StripStripped(line);
    SplitOnceUnique(line, '=', key, value);
    StripStripped(key);
    StripStripped(value);
  }

  /** The line is split at its FIRST `=`: with `head` free of `=`, the stripped
      line `head=tail` gives key `head.strip()` and value `tail.strip()`, so
      `a=b=c` maps `a` to `b=c`. */
  lemma ParseLineSplitsAtFirstEquals(raw: string, head: string, tail: string)
    requires Strip(raw) == head + "=" + tail
    requires '=' !in head
    requires head == [] || head[0] != '#'
    ensures ParseLine(raw) == Some((Strip(head), Strip(tail)))
  {
    var line := Strip(raw);
    assert line == head + ['='] + tail;
    assert line[0] == if head == [] then '=' else head[0];
    SplitOnceUnique(line, '=', head, tail);
  }

  /** A skipped line (blank, a comment, or without `=`) leaves the configuration as it was. */
  lemma SkippedLineChangesNothing(lines: seq<string>, raw: string)
    requires AllSpace(raw) || (Strip(raw) != [] && Strip(raw)[0] == '#') || '=' !in raw
    ensures LoadEnv(lines + [raw]) == LoadEnv(lines)
  {
    ParseLineMeaning(raw);
    LoadEnvSnoc(lines, raw);
  }

  /** The last line that defines a key decides its value. */
  lemma LastDefinitionWins(lines: seq<string>, i: int, key: string, value: string)
    requires 0 <= i < |lines|
    requires ParseLine(lines[i]) == Some((key, value))
    requires forall j :: i < j < |lines| ==> !SetsKey(ParseLine(lines[j]), key)
    ensures key in LoadEnv(lines) && LoadEnv(lines)[key] == value
  {
    ApplyLastWins(Parsed(lines), i, key, value);
  }
}
