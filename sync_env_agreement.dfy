/**
 * How the two copies of the environment-sync script relate: they differ
 * only in when the alias map's `default` entry is consulted and in how a
 * run without a project ends.
 */
module SyncEnvAgreement {
  import opened Common
  import opened SyncEnvCore
  import App = AppSyncEnv
  import Root = RootSyncEnv

  /**
   * Unless the last `--project=` argument is empty, both copies select the
   * same project whenever the app copy selects one, and neither selects one
   * otherwise.
   */
  lemma SameSelection(env: ProcessEnv, args: seq<string>, aliases: AliasMap)
    requires LastProjectArg(args) != Some("")
    ensures Truthy(App.SelectProject(env, args, aliases)) ==>
              Root.SelectProject(env, args, aliases) == App.SelectProject(env, args, aliases)
    ensures !Truthy(App.SelectProject(env, args, aliases)) ==> !Truthy(Root.SelectProject(env, args, aliases))
  {
    var firebase, gcloud, projectId :=
      Lookup(env, "FIREBASE_PROJECT"), Lookup(env, "GCLOUD_PROJECT"), Lookup(env, "PROJECT_ID");
    assert [firebase, gcloud, projectId, Lookup(aliases, "default")] == [firebase, gcloud, projectId] + [Lookup(aliases, "default")];
    FirstTruthyAppend([firebase, gcloud, projectId], Lookup(aliases, "default"));
  }

  /**
   * The two copies give the same result exactly when the app copy finds a
   * project: a non-empty last `--project=` argument, or, without one, a
   * non-empty FIREBASE_PROJECT, GCLOUD_PROJECT, PROJECT_ID or default.
   */
  lemma RunsAgreeExactly(env: ProcessEnv, args: seq<string>, aliases: AliasMap, envMap: EnvMap)
    ensures App.Run(env, args, aliases, envMap) == Root.Run(env, args, aliases, envMap)
            <==> Truthy(App.SelectProject(env, args, aliases))
    ensures Truthy(App.SelectProject(env, args, aliases)) <==>
            match LastProjectArg(args)
            case Some(v) => v != ""
            case None => Truthy(App.InitialProject(env, aliases))
  {
    if Truthy(App.SelectProject(env, args, aliases)) {
      SameSelection(env, args, aliases);
    }
  }

  /**
   * With an empty last `--project=` argument the copies diverge: the app
   * copy fails with the missing-project error, the root copy falls back to
   * the alias map's default.
   */
  lemma EmptyProjectArgDiverges(env: ProcessEnv, args: seq<string>, aliases: AliasMap, envMap: EnvMap)
    requires LastProjectArg(args) == Some("")
    ensures App.Run(env, args, aliases, envMap) == Failure(MissingProject)
    ensures Root.SelectProject(env, args, aliases) == Lookup(aliases, "default")
    ensures Root.Run(env, args, aliases, envMap)
            == Emit(envMap, ResolveAlias(aliases, Root.PropertyKey(Lookup(aliases, "default"))), OutputFile(args))
    ensures Root.Run(env, args, aliases, envMap) != App.Run(env, args, aliases, envMap)
  {
  }
}
