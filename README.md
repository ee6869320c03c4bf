# ComfyShare input validators and environment sync, in Dafny

This project models the two pieces of logic in the ComfyShare web application
that are more than UI or SDK wiring:

- **The input validators** (`comfyshare-app/src/lib/validation.ts`): the DOI,
  slug, title and email predicates, the password-strength check that collects
  error messages, and the image type and size checks. Each regular expression is
  written twice: once as a "pattern" predicate that follows the expression token
  by token, which the validators use, and once as a plain-words "shape"
  predicate. Lemmas prove the two equal. JavaScript's `trim` and `\s` share one
  whitespace set, the ECMAScript WhiteSpace and LineTerminator code points
  (`JsString.IsWhitespace`).
- **The environment-sync scripts** (`comfyshare-app/scripts/sync-env.mjs`, the
  app copy, and `scripts/sync-env.mjs`, the root copy), without their file and
  process I/O. A run picks a project id from `FIREBASE_PROJECT`,
  `GCLOUD_PROJECT`, `PROJECT_ID`, the `--project=` arguments and the alias map's
  `default`. It rewrites the id through the alias map, looks up the id's
  variables in `projectEnvironments`, and renders them as `KEY=VALUE` lines. The
  parsed configuration objects, `process.env` and the argument list are inputs.
  The result is a value: what would be written (path, content, count, project
  id) or the error that would end the process with exit code 1.

Layout:

| file | module | models |
|---|---|---|
| `common.dfy` | `Common` | `Option` (undefined/null or a value) and `Result` |
| `js_string.dfy` | `JsString` | the JS whitespace set, `startsWith`, `trimStart`, `trimEnd`, `trim` |
| `validation.dfy` | `Validation` | `validation.ts` |
| `sync_env_core.dfy` | `SyncEnvCore` | what both scripts share: the short-circuit OR chain, the argument loop, alias resolution, lookup, rendering, and parsing the rendered file back |
| `app_sync_env.dfy` | `AppSyncEnv` | `comfyshare-app/scripts/sync-env.mjs` |
| `root_sync_env.dfy` | `RootSyncEnv` | `scripts/sync-env.mjs` |
| `sync_env_agreement.dfy` | `SyncEnvAgreement` | when the two copies agree |

Modelling choices:

- JavaScript truthiness: `Common.Option` stands for a string that may be
  undefined or null, and `SyncEnvCore.Truthy` treats the empty string as
  falsy. `a || b || … || null` is `SyncEnvCore.FirstTruthy`.
- `Object.entries` order: a project's variables are a sequence of
  `(name, value-or-null)` pairs in iteration order, not a Dafny `map`.
- The argument loop is an imperative method, `SyncEnvCore.ScanArgs`. It is
  proved against the functions `LastProjectArg` and `OutputFile`, which the pure
  `Run` functions use.
- In the root copy, `projectArg` can still be undefined when the script
  evaluates `aliasMap[projectArg]` and `envMap[resolvedProject]`. JavaScript
  then uses the property name `"undefined"`, and the error message prints that
  word. `RootSyncEnv.PropertyKey` models this. Under the usual assumption that
  neither configuration object has a key `"undefined"`, such a run fails with
  the unknown-project error.
- Only the app copy has a missing-project error and puts `default` in its
  environment chain. The root copy has no such
  error and uses `default` only after the argument loop. Both behaviours are
  modelled, and `SyncEnvAgreement.RunsAgreeExactly` states when they coincide.
- The app copy's error message suggests `--project <id>`, but only the
  `--project=<id>` form is recognised. A bare `--project` argument is ignored
  by both copies and by the model.

## Model

| member | source | states |
|---|---|---|
| `JsString.Trim` | comfyshare-app/src/lib/validation.ts:13 | the result is the infix of the input between an all-whitespace prefix and an all-whitespace suffix, and neither starts nor ends with whitespace |
| `JsString.TrimIgnoresPadding` | comfyshare-app/src/lib/validation.ts:13 | adding whitespace before and after a string never changes its trimmed form |
| `JsString.TrimEmptyIffAllWhitespace` | comfyshare-app/src/lib/validation.ts:60-61 | the trimmed form is empty exactly when every character is whitespace |
| `JsString.TrimIdempotent` | comfyshare-app/src/lib/validation.ts:13 | trimming twice is trimming once |
| `Validation.SeparatedRunsIffShape` | comfyshare-app/src/lib/validation.ts:22 | for a class `c` that does not contain `sep`, and `min >= 1`, the regular expression `c{min,}(sep c+)*` accepts exactly the strings whose first `min` characters are in `c`, whose other characters are in `c` or are `sep`, which do not end in `sep` and never repeat `sep` |
| `Validation.DoiPatternIffShape` | comfyshare-app/src/lib/validation.ts:22-23 | `^10\.\d{4,}(\.\d+)*\/[^\s]+$` matches `t` exactly when `t` is `"10."` + R + `"/"` + X, with R four or more digits then dot-digit groups, and X non-empty without whitespace |
| `Validation.DoiValidIff` | comfyshare-app/src/lib/validation.ts:9-24 | isValidDOI, modelled by `Validation.IsValidDOI`, holds exactly when the trimmed input has that DOI shape; the empty, prefix and slash checks before the regular expression never change the verdict |
| `Validation.DoiTrimFacts` | comfyshare-app/src/lib/validation.ts:10-19 | the empty string is rejected, whitespace around the input never changes the verdict, and an accepted input's trimmed form starts with "10." and contains '/' |
| `Validation.DoiFromParts` | comfyshare-app/src/lib/validation.ts:21-23 | any registrant and any non-empty whitespace-free suffix, joined as `10.R/X` and padded with whitespace, are accepted |
| `Validation.SlugValidIff` | comfyshare-app/src/lib/validation.ts:45-52 | isValidSlug, modelled by `Validation.IsValidSlug`, holds exactly when the slug is non-empty, uses only `[a-z0-9-]`, neither starts nor ends with '-', and has no "--" |
| `Validation.TitleValidIff` | comfyshare-app/src/lib/validation.ts:57-62 | isValidTitle, modelled by `Validation.IsValidTitle`, holds exactly when the trimmed title has 1 to 500 characters; an accepted title has a non-whitespace character; surrounding whitespace never changes the verdict |
| `Validation.EmailValidIff` | comfyshare-app/src/lib/validation.ts:67-72 | isValidEmail, modelled by `Validation.IsValidEmail`, holds exactly when the address has no whitespace, exactly one '@' that is not first, and after it a '.' that is neither the first nor the last character of the domain part |
| `Validation.AnyIn` | comfyshare-app/src/lib/validation.ts:92 | a one-class pattern such as `/[A-Z]/` matches exactly when some character of the string is in the class |
| `Validation.IsValidPassword` | comfyshare-app/src/lib/validation.ts:77-108 | the empty password gives `isValid = false` and only "Password is required"; otherwise the errors are rule messages in rule order without repeats, at most four, each present exactly when its rule fails (fewer than 8 characters, no ASCII uppercase, no ASCII lowercase, no digit); `isValid` holds exactly when there are no errors, that is, when all four rules pass |
| `Validation.ReportNextRule` | comfyshare-app/src/lib/validation.ts:88-102 | pushing a rule's message exactly when the rule fails extends a correct report of the earlier rules to that rule |
| `Validation.ReportsAllRules` | comfyshare-app/src/lib/validation.ts:88-107 | a correct report of all four rules names each rule exactly when it fails, has at most four entries, and is empty exactly when all rules pass |
| `Validation.RuleOrderBound` | comfyshare-app/src/lib/validation.ts:88-102 | messages in strict rule order number at most four, and the i-th has rank at least i |
| `Validation.IsValidImageType` | comfyshare-app/src/lib/validation.ts:37-40 | accepted exactly when the MIME type equals, case-sensitively, one of the five listed types; every accepted type starts with "image/" |
| `Validation.ImageSizeLimits` | comfyshare-app/src/lib/validation.ts:29-32 | for isValidImageSize, modelled by `Validation.IsValidImageSize`: with the default limit a file is accepted exactly when it has at most 5242880 bytes; a larger limit never rejects what a smaller accepts; a limit of 0 accepts only empty files |
| `SyncEnvCore.FirstTruthy` | comfyshare-app/scripts/sync-env.mjs:20-21 | the OR chain `a, b, …, null` is null exactly when every operand is undefined or empty, and otherwise is the first non-empty operand |
| `SyncEnvCore.FirstTruthyCons` | comfyshare-app/scripts/sync-env.mjs:21 | a chain yields its first operand when that is non-empty, and otherwise the rest of the chain |
| `SyncEnvCore.FirstTruthyAppend` | scripts/sync-env.mjs:19 | an operand appended at the end of a chain only matters when no earlier operand is non-empty |
| `SyncEnvCore.LastProjectArg` | comfyshare-app/scripts/sync-env.mjs:24-30 | the selected value is that of a `--project=` argument with no `--project=` argument after it; there is none exactly when no argument starts with `--project=` |
| `SyncEnvCore.LastOutArg` | comfyshare-app/scripts/sync-env.mjs:27-28 | the chosen output path is the value of an `--out=` argument (not also a `--project=` argument) with no such argument after it; there is none exactly when no argument is one |
| `SyncEnvCore.ScanArgs` | comfyshare-app/scripts/sync-env.mjs:24-30 | after the loop, `projectArg` is the last `--project=` value (even empty) or else its value before the loop, and `outputFile` is the last `--out=` value or else `.env.local` |
| `SyncEnvCore.LastProjectArgSkips` | scripts/sync-env.mjs:22-28 | arguments that are not `--project=` arguments, appended after others, never change the selected value |
| `SyncEnvCore.ProjectArgLastWins` | comfyshare-app/scripts/sync-env.mjs:24-26 | among several `--project=` arguments the last one wins, whatever other arguments follow it |
| `SyncEnvCore.OutArgNeverSelects` | comfyshare-app/scripts/sync-env.mjs:27-28 | an `--out=` argument never affects the selected project |
| `SyncEnvCore.ResolveAlias` | comfyshare-app/scripts/sync-env.mjs:37 | the resolved id is the alias target when the alias exists with a non-empty value, and otherwise the id verbatim |
| `SyncEnvCore.SplitJoin` | comfyshare-app/scripts/sync-env.mjs:48 | splitting `lines.join("\n")` at line breaks gives back the lines, when the list is non-empty and none contains a line break |
| `SyncEnvCore.RenderRoundTrip` | comfyshare-app/scripts/sync-env.mjs:47-48 | for entries a `KEY=VALUE` file can hold (keys without '=' or line breaks, values without line breaks), reading the content written by `SyncEnvCore.Render` (the `.map` modelled by `SyncEnvCore.RenderLines`, then `.join("\n")` modelled by `SyncEnvCore.Join`) back yields exactly the entries, in order, with null shown as the empty string; no entries give empty content; the count is the number of entries |
| `AppSyncEnv.Run` | comfyshare-app/scripts/sync-env.mjs:19-49 | a run fails with the missing-project error exactly when no non-empty project was selected; a successful run writes the resolved project's entries, rendered in order, to the chosen file, and reports their count |
| `AppSyncEnv.SyncEnv` | comfyshare-app/scripts/sync-env.mjs:19-49 | the script's statements, with the argument loop, compute exactly `AppSyncEnv.Run` |
| `AppSyncEnv.ProjectPriority` | comfyshare-app/scripts/sync-env.mjs:20-21 | without `--project=`, the project chosen by `AppSyncEnv.SelectProject` from the chain `AppSyncEnv.InitialProject` is the first non-empty of FIREBASE_PROJECT, GCLOUD_PROJECT, PROJECT_ID and the alias `default`, and none if all are absent or empty |
| `AppSyncEnv.ProjectArgOverrides` | comfyshare-app/scripts/sync-env.mjs:24-35 | the last `--project=v` overrides the environment and the default; an empty `v` is a missing-project failure |
| `AppSyncEnv.LookupOutcome` | comfyshare-app/scripts/sync-env.mjs:37-49 | once a project is selected, the run (its lookup and write modelled by `SyncEnvCore.Emit`) fails naming the alias-resolved id when it has no environment entry, and otherwise writes that entry's rendering with its count and id |
| `RootSyncEnv.Run` | scripts/sync-env.mjs:18-46 | a run never fails with a missing-project error, only with an unknown project that has no entry; a successful run writes the resolved project's entries in order and reports their count |
| `RootSyncEnv.SyncEnv` | scripts/sync-env.mjs:18-46 | the script's statements, with the argument loop and the late `default`, compute exactly `RootSyncEnv.Run` |
| `RootSyncEnv.LookupOutcome` | scripts/sync-env.mjs:34-46 | the run looks up exactly the alias-resolved property key of the selected project: it fails naming that id when it has no entry, and otherwise writes that entry's rendering with its count and id |
| `RootSyncEnv.DefaultOnlyAsFallback` | scripts/sync-env.mjs:19-32 | in `RootSyncEnv.SelectProject`, the alias `default` is used exactly when the environment and the arguments leave the project absent or empty, including after an empty last `--project=`; a non-empty last `--project=v` selects `v` |
| `RootSyncEnv.NoProjectIsUnknownProject` | scripts/sync-env.mjs:30-42 | with no project and no default, and no "undefined" key in either object, the run fails (through `RootSyncEnv.PropertyKey`, which turns a missing project into the key "undefined") with the unknown-project error for "undefined" |
| `SyncEnvAgreement.SameSelection` | scripts/sync-env.mjs:19-32 | unless the last `--project=` is empty, both copies select the same project whenever the app copy selects one, and neither selects one otherwise |
| `SyncEnvAgreement.RunsAgreeExactly` | scripts/sync-env.mjs:19-42 | the two copies (with their chains `AppSyncEnv.InitialProject` and `RootSyncEnv.InitialProject`) give the same result exactly when the app copy selects a project: a non-empty last `--project=`, or, without one, a non-empty FIREBASE_PROJECT, GCLOUD_PROJECT, PROJECT_ID or default |
| `SyncEnvAgreement.EmptyProjectArgDiverges` | scripts/sync-env.mjs:30-32 | with an empty last `--project=`, the app copy fails with the missing-project error while the root copy falls back to the default and looks up its alias-resolved key ("undefined" when there is no default), so the results differ |

## Left out

- `formatFileSize` (comfyshare-app/src/lib/validation.ts:113-121) is not modelled. It uses floating-point `Math.log`, `Math.pow`, `Math.round` and division.
- `Validation.ImageSizeLimits`: `maxSizeMB` is a whole number of megabytes. Fractional limits need real arithmetic.
- The `typeof … !== 'string'` guards are not modelled. The model is typed, so every argument is a string.
- String lengths are counted in Unicode code points. JavaScript counts UTF-16 code units, so a title or password with characters outside the Basic Multilingual Plane has a larger `.length` in the source.
- File and process I/O is not modelled: `readFileSync`, `JSON.parse`, `writeFileSync`, `console` and `process.exit`. A missing or malformed configuration file throws in the source and is not modelled. A run's result stands for what would be written or reported.
- `path.resolve(process.cwd(), …)` is not modelled. `Written.outFile` is the path as given (`.env.local` or the `--out=` value), not resolved against the working directory.
- The configuration objects are inputs in typed form. `firebaserc.projects || {}` and `firebaseJson.projectEnvironments || {}` become maps, and an absent object is the empty map. JSON values of other types, such as a null project entry, a numeric alias target or a null `default`, cannot be expressed.
- JavaScript object-prototype lookups are not modelled, such as `aliasMap["constructor"]`. Neither is `Object.entries` placing integer-like keys first. The entry sequence is taken in its iteration order.
- `SyncEnvCore.RenderRoundTrip`: the round trip is stated only for entries whose keys have no '=' and no line break and whose values have no line break. The script writes other entries too, and they do not read back: a value with a line break becomes two lines.
- The third, upward-searching copy of the sync script is not part of this model. Neither is the discovery of configuration files.
- The React components (ErrorBoundary, ConfirmDialog, Providers) and the Firebase SDK wrapper (`firebase.ts`) are UI and third-party glue, and are not modelled.
