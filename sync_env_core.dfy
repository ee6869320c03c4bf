/**
 * What the two environment-sync scripts (comfyshare-app/scripts/sync-env.mjs
 * and scripts/sync-env.mjs) share, with the file and process I/O removed:
 * JavaScript `||` over optional strings, the command-line argument loop,
 * alias resolution, the environment lookup and the `KEY=VALUE` rendering.
 * The parsed configuration files, `process.env` and the arguments are
 * inputs; what would be written is returned as a value.
 */
module SyncEnvCore {
  import opened Common
  import opened JsString

  /** `process.env` */
  type ProcessEnv = map<string, string>

  /** `.firebaserc`'s `projects` object: alias -> project id, and the `default` entry. */
  type AliasMap = map<string, string>

  /** One `projectEnvironments` entry: variable name -> value or null, in insertion order. */
  type EnvEntries = seq<(string, Option<string>)>

  /** `firebase.json`'s `projectEnvironments`: project id -> its variables. */
  type EnvMap = map<string, EnvEntries>

  /** The two ways a run ends with exit code 1 before anything is written. */
  datatype SyncError =
    | MissingProject          // "Unable to determine Firebase project."
    | UnknownProject(id: string)  // "No projectEnvironments entry found for <id>"

  /** What a successful run writes and reports: file, content, variable count, project id. */
  datatype Written = Written(outFile: string, content: string, count: nat, project: string)

  const ProjectFlag := "--project="
  const OutFlag := "--out="
  const DefaultOutFile := ".env.local"

  /** Property access `obj[key]` on a parsed JSON object or `process.env`: undefined when absent. */
  function Lookup(obj: map<string, string>, key: string): Option<string> {
    if key in obj then Some(obj[key]) else None
  }

  /** JavaScript truthiness of a string that may be undefined or null: the empty string is falsy. */
  predicate Truthy(v: Option<string>) {
    v.Some? && v.value != ""
  }

  // ---------------------------------------------------------------------
  // `v0 || v1 || ... || null`
  // ---------------------------------------------------------------------

  /**
   * `vs[0] || vs[1] || ... || null`: the first truthy value, or null when
   * every value is undefined or empty.
   */
  function FirstTruthy(vs: seq<Option<string>>): (r: Option<string>)
    ensures r.None? <==> forall i :: 0 <= i < |vs| ==> !Truthy(vs[i])
    ensures r.Some? ==> exists i :: 0 <= i < |vs| && vs[i] == r && Truthy(r)
                                  && forall j :: 0 <= j < i ==> !Truthy(vs[j])
  {
    if vs == [] then None
    else if Truthy(vs[0]) then vs[0]
    else
      var r := FirstTruthy(vs[1..]);
      assert forall i :: 1 <= i < |vs| ==> vs[i] == vs[1..][i - 1];
      r
  }

  /** `v || rest...`: the first operand when it is truthy, otherwise the rest of the chain. */
  lemma FirstTruthyCons(v: Option<string>, rest: seq<Option<string>>)
    ensures FirstTruthy([v] + rest) == if Truthy(v) then v else FirstTruthy(rest)
  {
    assert ([v] + rest)[0] == v && ([v] + rest)[1..] == rest;
  }

  /** A value appended after the last operand of a `||` chain only matters when the chain had no truthy value. */
  lemma {:induction false} FirstTruthyAppend(vs: seq<Option<string>>, v: Option<string>)
    ensures FirstTruthy(vs + [v]) == if FirstTruthy(vs).Some? then FirstTruthy(vs) else if Truthy(v) then v else None
    decreases |vs|
  {
    if vs == [] {
      assert [] + [v] == [v] && [v][1..] == [];
    } else {
      assert (vs + [v])[0] == vs[0];
      assert (vs + [v])[1..] == vs[1..] + [v];
      FirstTruthyAppend(vs[1..], v);
    }
  }

  // ---------------------------------------------------------------------
  // The argument loop
  // ---------------------------------------------------------------------

  /** The value of the last `--project=` argument, if there is one. */
  function LastProjectArg(args: seq<string>): (r: Option<string>)
    ensures r.None? <==> forall i :: 0 <= i < |args| ==> !StartsWith(args[i], ProjectFlag)
    ensures r.Some? ==> exists i :: 0 <= i < |args| && StartsWith(args[i], ProjectFlag)
                                  && r.value == args[i][|ProjectFlag|..]
                                  && forall j :: i < j < |args| ==> !StartsWith(args[j], ProjectFlag)
    decreases |args|
  {
    if args == [] then None
    else
      var last := args[|args| - 1];
      if StartsWith(last, ProjectFlag) then Some(last[|ProjectFlag|..])
      else
        var front := args[..|args| - 1];
        assert forall i :: 0 <= i < |front| ==> front[i] == args[i];
        LastProjectArg(front)
  }

  /** An argument the loop treats as `--out=`: it starts with `--out=` and not with `--project=`. */
  predicate IsOutArg(arg: string) {
    !StartsWith(arg, ProjectFlag) && StartsWith(arg, OutFlag)
  }

  /** The value of the last `--out=` argument that is not also a `--project=` argument. */
  function LastOutArg(args: seq<string>): (r: Option<string>)
    ensures r.None? <==> forall i :: 0 <= i < |args| ==> !IsOutArg(args[i])
    ensures r.Some? ==> exists i :: 0 <= i < |args| && IsOutArg(args[i])
                                  && r.value == args[i][|OutFlag|..]
                                  && forall j :: i < j < |args| ==> !IsOutArg(args[j])
    decreases |args|
  {
    if args == [] then None
    else
      var last := args[|args| - 1];
      if IsOutArg(last) then Some(last[|OutFlag|..])
      else
        var front := args[..|args| - 1];
        assert forall i :: 0 <= i < |front| ==> front[i] == args[i];
        LastOutArg(front)
  }

  /** `projectArg` after the loop: the last `--project=` value, even empty, else its value before the loop. */
  function ApplyProjectArgs(args: seq<string>, initial: Option<string>): Option<string> {
    match LastProjectArg(args)
    case Some(v) => Some(v)
    case None => initial
  }

  /** `outputFile` after the loop, before it is resolved against the working directory. */
  function OutputFile(args: seq<string>): string {
    LastOutArg(args).GetOr(DefaultOutFile)
  }

  /**
   * `for (const arg of args)`: a `--project=` argument replaces `projectArg`,
   * an `--out=` argument replaces `outputFile`, anything else is ignored.
   */
  method ScanArgs(args: seq<string>, initialProject: Option<string>)
    returns (projectArg: Option<string>, outputFile: string)
    ensures projectArg == ApplyProjectArgs(args, initialProject)
    ensures outputFile == OutputFile(args)
  {
    projectArg := initialProject;
    outputFile := DefaultOutFile;
    for n := 0 to |args|
      invariant projectArg == ApplyProjectArgs(args[..n], initialProject)
      invariant outputFile == OutputFile(args[..n])
    {
      var arg := args[n];
      assert args[..n + 1][..n] == args[..n];
      if StartsWith(arg, ProjectFlag) {
        projectArg := Some(arg[|ProjectFlag|..]);
      } else if StartsWith(arg, OutFlag) {
        outputFile := arg[|OutFlag|..];
      }
    }
    assert args[..|args|] == args;
  }

  /** Arguments that are not `--project=` arguments, appended anywhere after, never change the selection. */
  lemma {:induction false} LastProjectArgSkips(front: seq<string>, back: seq<string>)
    requires forall i :: 0 <= i < |back| ==> !StartsWith(back[i], ProjectFlag)
    ensures LastProjectArg(front + back) == LastProjectArg(front)
    decreases |back|
  {
    if back == [] {
      assert front + back == front;
    } else {
      var all := front + back;
      assert all[|all| - 1] == back[|back| - 1];
      assert all[..|all| - 1] == front + back[..|back| - 1];
      LastProjectArgSkips(front, back[..|back| - 1]);
    }
  }

  /**
   * Among several `--project=` arguments the last one wins, whatever
   * `--out=` or other arguments follow it.
   */
  lemma ProjectArgLastWins(front: seq<string>, v: string, back: seq<string>)
    requires forall i :: 0 <= i < |back| ==> !StartsWith(back[i], ProjectFlag)
    ensures LastProjectArg(front + [ProjectFlag + v] + back) == Some(v)
  {
    var arg := ProjectFlag + v;
    LastProjectArgSkips(front + [arg], back);
    assert StartsWith(arg, ProjectFlag) && arg[|ProjectFlag|..] == v;
    var withArg := front + [arg];
    assert withArg[|withArg| - 1] == arg;
  }

  /** An `--out=` argument never selects a project. */
  lemma OutArgNeverSelects(front: seq<string>, path: string)
    ensures LastProjectArg(front + [OutFlag + path]) == LastProjectArg(front)
  {
    var arg := OutFlag + path;
    assert arg[2] != ProjectFlag[2];
    assert !StartsWith(arg, ProjectFlag);
    LastProjectArgSkips(front, [arg]);
  }

  // ---------------------------------------------------------------------
  // Alias resolution and the environment lookup
  // ---------------------------------------------------------------------

  /**
   * `aliasMap[p] || p`: the alias target when `p` names an alias with a
   * non-empty value, otherwise `p` itself.
   */
  function ResolveAlias(aliases: AliasMap, p: string): (id: string)
    ensures id == p || (p in aliases && aliases[p] == id && id != "")
    ensures p in aliases && aliases[p] != "" ==> id == aliases[p]
  {
    var target := Lookup(aliases, p);
    if Truthy(target) then target.value else p
  }

  /** `key=value`, a null value shown as the empty string. */
  function EnvLine(entry: (string, Option<string>)): string {
    entry.0 + "=" + entry.1.GetOr("")
  }

  /** `Object.entries(env).map(([key, value]) => ...)` */
  function RenderLines(entries: EnvEntries): seq<string> {
    seq(|entries|, i requires 0 <= i < |entries| => EnvLine(entries[i]))
  }

  /** `lines.join("\n")` */
  function Join(lines: seq<string>): string
    decreases |lines|
  {
    if lines == [] then ""
    else if |lines| == 1 then lines[0]
    else lines[0] + "\n" + Join(lines[1..])
  }

  /** The content of the `.env` file for one project's entries. */
  function Render(entries: EnvEntries): string {
    Join(RenderLines(entries))
  }

  /**
   * The environment lookup and what follows it: an unknown id is an error
   * naming it; otherwise the rendered lines, their count and the id.
   */
  function Emit(envMap: EnvMap, id: string, outFile: string): Result<Written, SyncError> {
    if id !in envMap then Failure(UnknownProject(id))
    else
      var lines := RenderLines(envMap[id]);
      Success(Written(outFile, Join(lines), |lines|, id))
  }

  // ---------------------------------------------------------------------
  // Reading the rendered file back
  // ---------------------------------------------------------------------

  /** `s.split("\n")` */
  function SplitLines(s: string): (r: seq<string>)
    ensures |r| >= 1
    decreases |s|
  {
    if s == [] then [[]]
    else
      var rest := SplitLines(s[1..]);
      if s[0] == '\n' then [[]] + rest else [[s[0]] + rest[0]] + rest[1..]
  }

  /** The index of the first `c` in `s`, or `|s|`. */
  function IndexOf(s: string, c: char): (k: nat)
    ensures k <= |s| && (k < |s| ==> s[k] == c)
    ensures forall m :: 0 <= m < k ==> s[m] != c
    decreases |s|
  {
    if s == [] || s[0] == c then 0 else 1 + IndexOf(s[1..], c)
  }

  /** A `KEY=VALUE` line split at its first '='. */
  function ParseLine(line: string): (string, string) {
    var k := IndexOf(line, '=');
    if k < |line| then (line[..k], line[k + 1..]) else (line, "")
  }

  /** The variables a `.env` file defines, in order. */
  function ParseEnvFile(content: string): seq<(string, string)> {
    if content == "" then []
    else
      var lines := SplitLines(content);
      seq(|lines|, i requires 0 <= i < |lines| => ParseLine(lines[i]))
  }

  /** The entries as they land in the file: null shown as the empty string. */
  function Materialize(entries: EnvEntries): seq<(string, string)> {
    seq(|entries|, i requires 0 <= i < |entries| => (entries[i].0, entries[i].1.GetOr("")))
  }

  /** Keys without '=' or line breaks, values without line breaks: what a `.env` file can hold. */
  ghost predicate Representable(entries: EnvEntries) {
    forall i :: 0 <= i < |entries| ==>
      '=' !in entries[i].0 && '\n' !in entries[i].0 && '\n' !in entries[i].1.GetOr("")
  }

  lemma {:induction false} SplitWithoutBreak(line: string)
    requires '\n' !in line
    ensures SplitLines(line) == [line]
    decreases |line|
  {
    if line != [] {
      SplitWithoutBreak(line[1..]);
      assert [line[0]] + line[1..] == line;
    }
  }

  lemma {:induction false} SplitAfterLine(line: string, rest: string)
    requires '\n' !in line
    ensures SplitLines(line + "\n" + rest) == [line] + SplitLines(rest)
    decreases |line|
  {
    var s := line + "\n" + rest;
    if line == [] {
      assert s == "\n" + rest && s[1..] == rest;
    } else {
      assert s[0] == line[0] && s[1..] == line[1..] + "\n" + rest;
      SplitAfterLine(line[1..], rest);
      assert [line[0]] + line[1..] == line;
    }
  }

  /** Splitting joined lines at '\n' gives the lines back when none contains '\n'. */
  lemma {:induction false} SplitJoin(lines: seq<string>)
    requires lines != []
    requires forall i :: 0 <= i < |lines| ==> '\n' !in lines[i]
    ensures SplitLines(Join(lines)) == lines
    decreases |lines|
  {
    if |lines| == 1 {
      SplitWithoutBreak(lines[0]);
    } else {
      SplitAfterLine(lines[0], Join(lines[1..]));
      SplitJoin(lines[1..]);
      assert [lines[0]] + lines[1..] == lines;
    }
  }

  lemma ParseEnvLine(entry: (string, Option<string>))
    requires '=' !in entry.0
    ensures ParseLine(EnvLine(entry)) == (entry.0, entry.1.GetOr(""))
  {
    var line := EnvLine(entry);
    var k := IndexOf(line, '=');
    assert line[|entry.0|] == '=';
    assert forall m :: 0 <= m < |entry.0| ==> line[m] == entry.0[m];
    assert k == |entry.0|;
    assert line[..k] == entry.0;
    assert line[k + 1..] == entry.1.GetOr("");
  }

  /**
   * The rendered content is the entries, in order, one `KEY=VALUE` line
   * each: reading the file back yields exactly the entries with null shown
   * as "". No entries give the empty content, and the reported count is
   * the number of entries.
   */
  lemma RenderRoundTrip(entries: EnvEntries)
    requires Representable(entries)
    ensures ParseEnvFile(Render(entries)) == Materialize(entries)
    ensures Render(entries) == "" <==> entries == []
    ensures |RenderLines(entries)| == |entries|
  {
    var lines := RenderLines(entries);
    if entries != [] {
      forall i | 0 <= i < |lines| ensures '\n' !in lines[i] {
        assert lines[i] == entries[i].0 + "=" + entries[i].1.GetOr("");
      }
      SplitJoin(lines);
      assert Join(lines) != "" by {
        JoinStartsWithFirst(lines);
        assert '=' in lines[0];
      }
      forall i | 0 <= i < |entries| ensures ParseLine(lines[i]) == Materialize(entries)[i] {
        ParseEnvLine(entries[i]);
      }
    }
  }

  lemma JoinStartsWithFirst(lines: seq<string>)
    requires lines != []
    ensures |Join(lines)| >= |lines[0]| && Join(lines)[..|lines[0]|] == lines[0]
  {
    if |lines| > 1 {
      assert Join(lines) == lines[0] + ("\n" + Join(lines[1..]));
    }
  }
}
