/** `load_env`: find a `.env` file by walking up from a start directory,
    then read it line by line, setting `KEY=VALUE` pairs in the process
    environment without overwriting what is already there. */
module EnvLoader {
  import opened Wrappers
  import opened Strings
  import opened Sequences

  // ---------------------------------------------------------------------
  // One line of the file

  /** The value is wrapped in a matching pair of double or single quotes. */
  predicate Quoted(value: string) {
    |value| >= 2
    && ((value[0] == '"' && value[|value| - 1] == '"')
        || (value[0] == '\'' && value[|value| - 1] == '\''))
  }

  /** Removes one matching pair of surrounding quotes, if there is one:
      the value changes exactly when it is quoted, and then loses only the
      two outer quote characters. */
  function Unquote(value: string): (r: string)
    ensures r != value <==> Quoted(value)
    ensures Quoted(value) ==> value == [value[0]] + r + [value[0]]
  {
    if Quoted(value) then value[1..|value| - 1] else value
  }

  /** Quoting any text with either kind of quote and unquoting it gives the
      text back, even when the text itself is quoted. */
  lemma UnquoteQuote(q: char, text: string)
    requires q == '"' || q == '\''
    ensures Unquote([q] + text + [q]) == text
  {
    var value := [q] + text + [q];
    assert Quoted(value);
    assert value[1..|value| - 1] == text;
  }

  /** The `(key, value)` a line of the file defines, or `None` when the line
      is skipped: blank or a `#` comment once stripped, or without `=`. The
      key is the stripped text before the first `=` and may be empty; the
      value is the stripped, unquoted text after it. */
  function ParseLine(line: string): (r: Option<(string, string)>)
    ensures r.Some? <==> Strip(line) != [] && Strip(line)[0] != '#' && '=' in Strip(line)
  {
    ParseStripped(Strip(line))
  }

  /** `ParseLine` once the line is stripped. */
  function ParseStripped(text: string): Option<(string, string)> {
    if |text| == 0 || StartsWith(text, "#") then None
    else if '=' !in text then None
    else
      var parts := Partition(text, '=');
      Some((Strip(parts.0), Unquote(Strip(parts.2))))
  }

  /** A line that is blank or a comment, once stripped, defines nothing. */
  lemma BlankOrCommentSkipped(line: string)
    requires Strip(line) == [] || Strip(line)[0] == '#'
    ensures ParseLine(line) == None
  {
  }

  /** A line without `=` defines nothing. */
  lemma NoEqualsSkipped(line: string)
    requires '=' !in line
    ensures ParseLine(line) == None
  {
    StripKeepsOut(line, '=');
  }

  /** The line is split at its FIRST `=`: the key is the stripped text
      before it and the value the stripped, unquoted text after it, which
      may itself contain `=`. */
  lemma SplitAtFirstEquals(line: string, before: string, after: string)
    requires Strip(line) == before + "=" + after
    requires '=' !in before
    requires Strip(line)[0] != '#'
    ensures ParseLine(line) == Some((Strip(before), Unquote(Strip(after))))
  {
    StrippedSplitAtFirstEquals(Strip(line), before, after);
  }

  lemma StrippedSplitAtFirstEquals(text: string, before: string, after: string)
    requires text == before + "=" + after
    requires '=' !in before
    requires text[0] != '#'
    ensures ParseStripped(text) == Some((Strip(before), Unquote(Strip(after))))
  {
    assert text[|before|] == '=';
    assert text[..1][0] == text[0];
    PartitionAtFirst(text, '=', before, after);
  }

  // ---------------------------------------------------------------------
  // The environment after the lines

  /** The environment after one parsed line: its key is set only when it
      is non-empty and not already present. */
  function ApplyEntry(env: map<string, string>, entry: Option<(string, string)>): (r: map<string, string>)
    ensures forall k :: k in env ==> k in r && r[k] == env[k]
    ensures forall k :: k in r && k !in env ==> k != "" && entry == Some((k, r[k]))
  {
    match entry
    case None => env
    case Some((key, value)) => if key != "" && key !in env then env[key := value] else env
  }

  /** The environment after the parsed lines, in file order. */
  function ApplyEntries(env: map<string, string>, entries: seq<Option<(string, string)>>): map<string, string> {
    if |entries| == 0 then env
    else ApplyEntry(ApplyEntries(env, entries[..|entries| - 1]), entries[|entries| - 1])
  }

  /** Each line of the file, parsed. */
  function ParseLines(lines: seq<string>): seq<Option<(string, string)>> {
    MapSeq(ParseLine, lines)
  }
  /** Parsing keeps one entry per line, in order. */
  lemma {:induction false} ParseLinesAt(lines: seq<string>, i: int)
    requires 0 <= i < |lines|
    ensures |ParseLines(lines)| == |lines| && ParseLines(lines)[i] == ParseLine(lines[i])
  {
    MapSeqAt(ParseLine, lines, i);
  }

  /** The environment after the lines of the file. */
  function ApplyLines(env: map<string, string>, lines: seq<string>): map<string, string> {
    ApplyEntries(env, ParseLines(lines))
  }

  /** The parsed line defines `key` (possibly the empty key). */
  predicate EntryDefines(entry: Option<(string, string)>, key: string) {
    entry.Some? && entry.value.0 == key
  }

  /** `line` defines `key` (possibly the empty key). */
  predicate Defines(line: string, key: string) {
    EntryDefines(ParseLine(line), key)
  }

  /** Over parsed lines: a present key keeps its value. */
  lemma {:induction false} EntriesKeepExisting(env: map<string, string>, entries: seq<Option<(string, string)>>, key: string)
    requires key in env
    ensures key in ApplyEntries(env, entries) && ApplyEntries(env, entries)[key] == env[key]
  {
    if |entries| > 0 {
      EntriesKeepExisting(env, entries[..|entries| - 1], key);
    }
  }

  /** Over parsed lines: the keys afterwards. */
  lemma {:induction false} EntriesKeys(env: map<string, string>, entries: seq<Option<(string, string)>>, key: string)
    ensures key in ApplyEntries(env, entries)
        <==> key in env || (key != "" && exists i :: 0 <= i < |entries| && EntryDefines(entries[i], key))
  {
    if |entries| > 0 {
      var init := entries[..|entries| - 1];
      EntriesKeys(env, init, key);
      if exists i :: 0 <= i < |init| && EntryDefines(init[i], key) {
        var i :| 0 <= i < |init| && EntryDefines(init[i], key);
        assert entries[i] == init[i];
      }
      if exists i :: 0 <= i < |entries| && EntryDefines(entries[i], key) {
        var i :| 0 <= i < |entries| && EntryDefines(entries[i], key);
        if i < |init| {
          assert init[i] == entries[i];
        }
      }
    }
  }

  /** Over parsed lines: a key no entry defines is untouched. */
  lemma {:induction false} EntriesUndefinedUnchanged(env: map<string, string>, entries: seq<Option<(string, string)>>, key: string)
    requires forall i :: 0 <= i < |entries| ==> !EntryDefines(entries[i], key)
    ensures key in ApplyEntries(env, entries) <==> key in env
    ensures key in env ==> ApplyEntries(env, entries)[key] == env[key]
  {
    if |entries| > 0 {
      EntriesUndefinedUnchanged(env, entries[..|entries| - 1], key);
    }
  }

  /** Over parsed lines: the first entry for an absent key decides. */
  lemma {:induction false} EntriesFirstWins(env: map<string, string>, entries: seq<Option<(string, string)>>, i: int, key: string, value: string)
    requires key !in env && key != ""
    requires 0 <= i < |entries| && entries[i] == Some((key, value))
    requires forall j :: 0 <= j < i ==> !EntryDefines(entries[j], key)
    ensures key in ApplyEntries(env, entries) && ApplyEntries(env, entries)[key] == value
  {
    var init := entries[..|entries| - 1];
    if i < |entries| - 1 {
      EntriesFirstWins(env, init, i, key, value);
    } else {
      EntriesUndefinedUnchanged(env, init, key);
    }
  }

  /** A key already in the environment is never overwritten. */
  lemma ExistingKeysKept(env: map<string, string>, lines: seq<string>, key: string)
    requires key in env
    ensures key in ApplyLines(env, lines) && ApplyLines(env, lines)[key] == env[key]
  {
    EntriesKeepExisting(env, ParseLines(lines), key);
  }

  /** The keys afterwards are the keys before plus every non-empty key some
      line defines; in particular the empty key is never set. */
  lemma KeysAfterLoading(env: map<string, string>, lines: seq<string>, key: string)
    ensures key in ApplyLines(env, lines)
        <==> key in env || (key != "" && exists i :: 0 <= i < |lines| && Defines(lines[i], key))
  {
    var entries := ParseLines(lines);
    EntriesKeys(env, entries, key);
    if exists i :: 0 <= i < |entries| && EntryDefines(entries[i], key) {
      var i :| 0 <= i < |entries| && EntryDefines(entries[i], key);
      ParseLinesAt(lines, i);
    }
    if exists i :: 0 <= i < |lines| && Defines(lines[i], key) {
      var i :| 0 <= i < |lines| && Defines(lines[i], key);
      ParseLinesAt(lines, i);
      assert EntryDefines(entries[i], key);
    }
  }

  /** A key that no line defines keeps its value, or stays absent. */
  lemma UndefinedKeysUnchanged(env: map<string, string>, lines: seq<string>, key: string)
    requires forall i :: 0 <= i < |lines| ==> !Defines(lines[i], key)
    ensures key in ApplyLines(env, lines) <==> key in env
    ensures key in env ==> ApplyLines(env, lines)[key] == env[key]
  {
    var entries := ParseLines(lines);
    forall i | 0 <= i < |entries|
      ensures !EntryDefines(entries[i], key)
    {
      ParseLinesAt(lines, i);
    }
    EntriesUndefinedUnchanged(env, entries, key);
  }

  /** When a key is absent beforehand, the first line that defines it
      decides its value; later duplicates are ignored. */
  lemma FirstDefinitionWins(env: map<string, string>, lines: seq<string>, i: int, key: string, value: string)
    requires key !in env && key != ""
    requires 0 <= i < |lines| && ParseLine(lines[i]) == Some((key, value))
    requires forall j :: 0 <= j < i ==> !Defines(lines[j], key)
    ensures key in ApplyLines(env, lines) && ApplyLines(env, lines)[key] == value
  {
    NoEarlierEntry(lines, i, key);
    ParseLinesAt(lines, i);
    EntriesFirstWins(env, ParseLines(lines), i, key, value);
  }

  /** No line before `i` defines `key`, so no entry before `i` does. */
  lemma NoEarlierEntry(lines: seq<string>, i: int, key: string)
    requires 0 <= i <= |lines|
    requires forall j :: 0 <= j < i ==> !Defines(lines[j], key)
    ensures |ParseLines(lines)| == |lines|
    ensures forall j :: 0 <= j < i ==> !EntryDefines(ParseLines(lines)[j], key)
  {
    if |lines| > 0 { ParseLinesAt(lines, 0); }
    forall j | 0 <= j < i
      ensures !EntryDefines(ParseLines(lines)[j], key)
    {
      ParseLinesAt(lines, j);
    }
  }

  /** Loading one more line applies that line to the environment so far. */
  lemma ApplyLinesNext(env: map<string, string>, lines: seq<string>, n: int)
    requires 0 <= n < |lines|
    ensures ApplyLines(env, lines[..n + 1]) == ApplyEntry(ApplyLines(env, lines[..n]), ParseLine(lines[n]))
  {
    var pre := lines[..n + 1];
    assert pre[..n] == lines[..n] && pre[n] == lines[n];
    var es := ParseLines(pre);
    assert es == ParseLines(pre[..n]) + [ParseLine(pre[n])];
    assert es[..n] == ParseLines(lines[..n]) && es[n] == ParseLine(lines[n]);
  }

  // ---------------------------------------------------------------------
  // Finding the file

  /** A directory, as its path components from the root; the root is `[]`. */
  type Path = seq<string>

  /** `dir.parent`: the root is its own parent. */
  function Parent(dir: Path): (p: Path)
    ensures p == dir <==> dir == []
  {
    if |dir| == 0 then dir else dir[..|dir| - 1]
  }

  /** `(dir / env_file).exists() and (dir / env_file).is_file()`, with the
      existing files given as a set of paths. */
  predicate HasCandidate(dir: Path, envFile: string, files: set<Path>) {
    dir + [envFile] in files
  }

  /** Some directory on the way from `start` up to the root holds the file. */
  predicate AnyAncestorHas(start: Path, envFile: string, files: set<Path>) {
    exists k :: 0 <= k <= |start| && HasCandidate(start[..k], envFile, files)
  }

  /** `path` is the file in the nearest directory at or above `start` that
      holds one (only `start` itself when parents are not searched). */
  predicate IsNearest(path: Path, envFile: string, searchParents: bool, start: Path, files: set<Path>) {
    if searchParents then
      exists k :: 0 <= k <= |start| && path == start[..k] + [envFile] && path in files
        && forall k' :: k < k' <= |start| ==> !HasCandidate(start[..k'], envFile, files)
    else path == start + [envFile] && path in files
  }

  /** The search for the file: from `start` up to the root when
      `searchParents`, otherwise only in `start`. */
  method FindEnvFile(envFile: string, searchParents: bool, start: Path, files: set<Path>)
    returns (found: Option<Path>)
    ensures found.Some? ==> IsNearest(found.value, envFile, searchParents, start, files)
    ensures found.None? <==>
      if searchParents then !AnyAncestorHas(start, envFile, files)
      else !HasCandidate(start, envFile, files)
  {
    found := None;
    if searchParents {
      var dir := start;
      while true
        invariant |dir| <= |start| && dir == start[..|dir|]
        invariant forall k :: |dir| < k <= |start| ==> !HasCandidate(start[..k], envFile, files)
        decreases |dir|
      {
        if HasCandidate(dir, envFile, files) {
          found := Some(dir + [envFile]);
          assert IsNearest(found.value, envFile, searchParents, start, files);
          break;
        }
        if Parent(dir) == dir {
          assert forall k :: 0 <= k <= |start| ==> !HasCandidate(start[..k], envFile, files);
          break;
        }
        dir := Parent(dir);
      }
    } else if HasCandidate(start, envFile, files) {
      found := Some(start + [envFile]);
    }
  }

  // ---------------------------------------------------------------------
  // The process environment

  /** `os.environ`, which `load_env` updates in place. */
  class Environ {
    var vars: map<string, string>

    constructor (initial: map<string, string>)
      ensures vars == initial
    {
      vars := initial;
    }

    /** The loop over the file's lines. */
    method LoadLines(lines: seq<string>)
      modifies this
      ensures vars == ApplyLines(old(vars), lines)
    {
      for n := 0 to |lines|
        invariant vars == ApplyLines(old(vars), lines[..n])
      {
        ApplyLinesNext(old(vars), lines, n);
        var line := Strip(lines[n]);
        if |line| > 0 && !StartsWith(line, "#") && '=' in line {
          var parts := Partition(line, '=');
          var key := Strip(parts.0);
          var value := Unquote(Strip(parts.2));
          if key != "" && key !in vars {
            vars := vars[key := value];
          }
        }
      }
      assert lines[..|lines|] == lines;
    }

    /** `load_env(env_file, search_parent_dirs, start_dir)` over the files
        that exist (a map from path to lines): `false` and no change when no
        file is found; otherwise the nearest file's lines are loaded and the
        result is `true`. */
    method Load(envFile: string, searchParents: bool, start: Path, files: map<Path, seq<string>>)
      returns (loaded: bool)
      modifies this
      ensures loaded <==>
        if searchParents then AnyAncestorHas(start, envFile, files.Keys)
        else HasCandidate(start, envFile, files.Keys)
      ensures !loaded ==> vars == old(vars)
      ensures loaded ==> exists path ::
        IsNearest(path, envFile, searchParents, start, files.Keys)
        && path in files && vars == ApplyLines(old(vars), files[path])
    {
      var found := FindEnvFile(envFile, searchParents, start, files.Keys);
      if found.None? {
        return false;
      }
      var path := found.value;
      assert path in files by {
        if searchParents {
          var k :| 0 <= k <= |start| && path == start[..k] + [envFile] && path in files.Keys
            && forall k' :: k < k' <= |start| ==> !HasCandidate(start[..k'], envFile, files.Keys);
        }
      }
      LoadLines(files[path]);
      loaded := true;
    }
  }
}
