/**
 * scripts/sync-env.mjs without its I/O: the alias map's `default` entry is
 * consulted only after the argument loop, and there is no separate
 * missing-project failure.
 *
 * When `projectArg` ends up undefined, the script still evaluates
 * `aliasMap[projectArg]` and `envMap[resolvedProject]`; JavaScript turns
 * the undefined key into the property name "undefined", and the error
 * message prints it as that word. The model does the same.
 */
module RootSyncEnv {
  import opened Common
  import opened SyncEnvCore

  /** `projectArg` before the loop: `FIREBASE_PROJECT || GCLOUD_PROJECT || PROJECT_ID || null`. */
  function InitialProject(env: ProcessEnv): Option<string> {
    FirstTruthy([Lookup(env, "FIREBASE_PROJECT"), Lookup(env, "GCLOUD_PROJECT"), Lookup(env, "PROJECT_ID")])
  }

  /** `projectArg` after the loop and `if (!projectArg) projectArg = aliasMap.default`. */
  function SelectProject(env: ProcessEnv, args: seq<string>, aliases: AliasMap): Option<string> {
    var projectArg := ApplyProjectArgs(args, InitialProject(env));
    if !Truthy(projectArg) then Lookup(aliases, "default") else projectArg
  }

  /** The property name JavaScript uses for `projectArg` as an object key. */
  function PropertyKey(projectArg: Option<string>): string {
    match projectArg
    case Some(p) => p
    case None => "undefined"
  }

  /**
   * The whole run as a value: it can only fail with an unknown project;
   * a successful run writes the resolved project's entries in order.
   */
  function Run(env: ProcessEnv, args: seq<string>, aliases: AliasMap, envMap: EnvMap): (r: Result<Written, SyncError>)
    ensures r.Failure? ==> r.error.UnknownProject? && r.error.id !in envMap
    ensures r.Success? ==> && r.value.project in envMap
                           && r.value.content == Render(envMap[r.value.project])
                           && r.value.count == |envMap[r.value.project]|
                           && r.value.outFile == OutputFile(args)
  {
    var projectArg := SelectProject(env, args, aliases);
    Emit(envMap, ResolveAlias(aliases, PropertyKey(projectArg)), OutputFile(args))
  }

  /** The script's top-level statements, in order; it computes exactly `Run`. */
  method SyncEnv(env: ProcessEnv, args: seq<string>, aliases: AliasMap, envMap: EnvMap)
    returns (r: Result<Written, SyncError>)
    ensures r == Run(env, args, aliases, envMap)
  {
    var projectArg := InitialProject(env);
    var outputFile;
    projectArg, outputFile := ScanArgs(args, projectArg);
    if !Truthy(projectArg) {
      projectArg := Lookup(aliases, "default");
    }
    var resolvedProject := ResolveAlias(aliases, PropertyKey(projectArg));
    if resolvedProject !in envMap {
      return Failure(UnknownProject(resolvedProject));
    }
    var lines := RenderLines(envMap[resolvedProject]);
    r := Success(Written(outputFile, Join(lines), |lines|, resolvedProject));
  }

  /**
   * The alias map's `default` is used exactly when the environment chain
   * and the arguments leave `projectArg` absent or empty, including after
   * an empty trailing `--project=`; a non-empty `--project=v` wins.
   */
  lemma DefaultOnlyAsFallback(env: ProcessEnv, args: seq<string>, aliases: AliasMap)
    ensures var chosen := ApplyProjectArgs(args, InitialProject(env));
      && (Truthy(chosen) ==> SelectProject(env, args, aliases) == chosen)
      && (!Truthy(chosen) ==> SelectProject(env, args, aliases) == Lookup(aliases, "default"))
    ensures LastProjectArg(args) == Some("") ==> SelectProject(env, args, aliases) == Lookup(aliases, "default")
    ensures forall v :: LastProjectArg(args) == Some(v) && v != "" ==> SelectProject(env, args, aliases) == Some(v)
  {
  }

  /**
   * With no project from the environment, the arguments or the default,
   * and no "undefined" key in either configuration object, the run fails
   * with the unknown-project error for "undefined".
   */
  lemma NoProjectIsUnknownProject(env: ProcessEnv, args: seq<string>, aliases: AliasMap, envMap: EnvMap)
    requires !Truthy(ApplyProjectArgs(args, InitialProject(env)))
    requires "default" !in aliases && "undefined" !in aliases && "undefined" !in envMap
    ensures Run(env, args, aliases, envMap) == Failure(UnknownProject("undefined"))
  {
  }

  /**
   * The run looks up exactly the alias-resolved property key of the selected
   * project: it fails naming that id when it has no environment entry, and
   * otherwise writes that entry's rendering with its count and id.
   */
  lemma LookupOutcome(env: ProcessEnv, args: seq<string>, aliases: AliasMap, envMap: EnvMap)
    ensures var id := ResolveAlias(aliases, PropertyKey(SelectProject(env, args, aliases)));
      && (id !in envMap ==> Run(env, args, aliases, envMap) == Failure(UnknownProject(id)))
      && (id in envMap ==>
            Run(env, args, aliases, envMap) == Success(Written(OutputFile(args), Render(envMap[id]), |envMap[id]|, id)))
  {
  }
}
