/**
 * comfyshare-app/scripts/sync-env.mjs without its I/O: the alias map's
 * `default` entry is the last link of the environment-variable chain, and
 * a run with no usable project fails before any lookup.
 */
module AppSyncEnv {
  import opened Common
  import opened SyncEnvCore

  /**
   * `projectArg` before the argument loop:
   * `FIREBASE_PROJECT || GCLOUD_PROJECT || PROJECT_ID || aliasMap.default || null`.
   */
  function InitialProject(env: ProcessEnv, aliases: AliasMap): Option<string> {
    FirstTruthy([Lookup(env, "FIREBASE_PROJECT"), Lookup(env, "GCLOUD_PROJECT"),
                 Lookup(env, "PROJECT_ID"), Lookup(aliases, "default")])
  }

  /** `projectArg` after the argument loop. */
  function SelectProject(env: ProcessEnv, args: seq<string>, aliases: AliasMap): Option<string> {
    ApplyProjectArgs(args, InitialProject(env, aliases))
  }

  /**
   * The whole run as a value: a missing project, an unknown project, or
   * the file that is written. A successful run writes the chosen project's
   * entries rendered in order and reports their number.
   */
  function Run(env: ProcessEnv, args: seq<string>, aliases: AliasMap, envMap: EnvMap): (r: Result<Written, SyncError>)
    ensures r == Failure(MissingProject) <==> !Truthy(SelectProject(env, args, aliases))
    ensures r.Success? ==> && r.value.project in envMap
                           && r.value.content == Render(envMap[r.value.project])
                           && r.value.count == |envMap[r.value.project]|
                           && r.value.outFile == OutputFile(args)
  {
    var projectArg := SelectProject(env, args, aliases);
    if !Truthy(projectArg) then Failure(MissingProject)
    else Emit(envMap, ResolveAlias(aliases, projectArg.value), OutputFile(args))
  }

  /** The script's top-level statements, in order; it computes exactly `Run`. */
  method SyncEnv(env: ProcessEnv, args: seq<string>, aliases: AliasMap, envMap: EnvMap)
    returns (r: Result<Written, SyncError>)
    ensures r == Run(env, args, aliases, envMap)
  {
    var projectArg := InitialProject(env, aliases);
    var outputFile;
    projectArg, outputFile := ScanArgs(args, projectArg);
    if !Truthy(projectArg) {
      return Failure(MissingProject);
    }
    var resolvedProject := ResolveAlias(aliases, projectArg.value);
    if resolvedProject !in envMap {
      return Failure(UnknownProject(resolvedProject));
    }
    var lines := RenderLines(envMap[resolvedProject]);
    r := Success(Written(outputFile, Join(lines), |lines|, resolvedProject));
  }

  /**
   * Without a `--project=` argument the project is the first non-empty of
   * FIREBASE_PROJECT, GCLOUD_PROJECT, PROJECT_ID and the alias map's
   * `default`, and none at all when all four are absent or empty.
   */
  lemma ProjectPriority(env: ProcessEnv, args: seq<string>, aliases: AliasMap)
    requires LastProjectArg(args) == None
    ensures var p := SelectProject(env, args, aliases);
      var firebase, gcloud, projectId, default :=
        Lookup(env, "FIREBASE_PROJECT"), Lookup(env, "GCLOUD_PROJECT"), Lookup(env, "PROJECT_ID"), Lookup(aliases, "default");
      && (Truthy(firebase) ==> p == firebase)
      && (!Truthy(firebase) && Truthy(gcloud) ==> p == gcloud)
      && (!Truthy(firebase) && !Truthy(gcloud) && Truthy(projectId) ==> p == projectId)
      && (!Truthy(firebase) && !Truthy(gcloud) && !Truthy(projectId) && Truthy(default) ==> p == default)
      && (!Truthy(firebase) && !Truthy(gcloud) && !Truthy(projectId) && !Truthy(default) ==> p == None)
  {
    var firebase, gcloud, projectId, default :=
      Lookup(env, "FIREBASE_PROJECT"), Lookup(env, "GCLOUD_PROJECT"), Lookup(env, "PROJECT_ID"), Lookup(aliases, "default");
    assert [firebase, gcloud, projectId, default] == [firebase] + [gcloud, projectId, default];
    assert [gcloud, projectId, default] == [gcloud] + [projectId, default];
    assert [projectId, default] == [projectId] + [default];
    assert [default] == [default] + [];
    FirstTruthyCons(firebase, [gcloud, projectId, default]);
    FirstTruthyCons(gcloud, [projectId, default]);
    FirstTruthyCons(projectId, [default]);
    FirstTruthyCons(default, []);
  }

  /**
   * A `--project=v` argument (the last one, if several) overrides the
   * environment and the default; an empty `v` is a missing-project failure.
   */
  lemma ProjectArgOverrides(env: ProcessEnv, args: seq<string>, aliases: AliasMap, envMap: EnvMap, v: string)
    requires LastProjectArg(args) == Some(v)
    ensures SelectProject(env, args, aliases) == Some(v)
    ensures v == "" ==> Run(env, args, aliases, envMap) == Failure(MissingProject)
  {
  }

  /**
   * Once a project `p` is chosen, the run fails naming the alias-resolved
   * id when `projectEnvironments` has no entry for it, and otherwise writes
   * that entry: never both, and never a missing-project failure.
   */
  lemma LookupOutcome(env: ProcessEnv, args: seq<string>, aliases: AliasMap, envMap: EnvMap)
    requires Truthy(SelectProject(env, args, aliases))
    ensures var id := ResolveAlias(aliases, SelectProject(env, args, aliases).value);
      && (id !in envMap ==> Run(env, args, aliases, envMap) == Failure(UnknownProject(id)))
      && (id in envMap ==>
            Run(env, args, aliases, envMap) == Success(Written(OutputFile(args), Render(envMap[id]), |envMap[id]|, id)))
  {
  }
}
